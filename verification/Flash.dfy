/** The device's program flash and the hex records written to it. */
module Flash {
  import opened Crc16

  // ---------------------------------------------------------------- memory layout

  /** Addresses of the flash, of the application area and, inside it, of the area that erasing and
      programming leave alone, which holds two keys and the serial number. Ends are inclusive. */
  datatype Layout = Layout(base: nat, size: nat, appBase: nat, appEnd: nat, keepBase: nat, keepEnd: nat,
                           keyBoot: nat, keyMac: nat, serial: nat)
  {
    ghost predicate Valid() {
      && KVA0 <= base && base + size <= BOOT_SECTOR
      && OnPage(base) && size % 4 == 0 && OnPage(appBase) && OnPage(appEnd + 1)
      && OnPage(keepBase) && OnPage(keepEnd + 1)
      && base <= appBase <= keepBase <= keepEnd <= appEnd < base + size
      && Kept(keyBoot, 16) && Kept(keyMac, 16) && Kept(serial, 4)
      && keyBoot + 16 <= keyMac && keyMac + 16 <= serial
    }

    ghost predicate Kept(a: nat, n: nat) {
      a % 4 == 0 && keepBase <= a && a + n <= keepEnd + 1
    }

    predicate InApp(a: nat) {
      appBase <= a <= appEnd
    }

    predicate InKept(a: nat) {
      keepBase <= a <= keepEnd
    }

    /** The guard of the programming loop: inside the application area, outside the device
        configuration registers and outside the preserved area. */
    predicate Writable(a: nat) {
      && InApp(a) && (a < DEV_CONFIG || a > DEV_CONFIG_END)
      && !InKept(a)
    }
  }

  /** FLASH_PAGE_SIZE of the PIC32MX3xx to PIC32MX7xx devices. */
  const PAGE: nat := 0x1000
  predicate OnPage(a: nat) {
    a % PAGE == 0
  }

  lemma PageOnWord(a: nat)
    requires OnPage(a)
    ensures a % 4 == 0
  {
    assert a == PAGE * (a / PAGE);
    WordMultiple(a, 0x400 * (a / PAGE));
  }

  lemma WordMultiple(x: nat, q: nat)
    requires x == 4 * q
    ensures x % 4 == 0
  {
  }

  lemma WordsApart(a: nat, b: nat)
    requires a % 4 == 0 && b % 4 == 0 && b <= a
    ensures (a - b) % 4 == 0
  {
    assert a == 4 * (a / 4) && b == 4 * (b / 4);
    WordMultiple(a - b, a / 4 - b / 4);
  }

  /** The areas begin and end on word boundaries. */
  lemma LayoutWords(l: Layout)
    requires l.Valid()
    ensures (l.appEnd + 1) % 4 == 0 && l.keepBase % 4 == 0 && l.appBase % 4 == 0 && l.base % 4 == 0
    ensures (l.keepEnd + 1) % 4 == 0
    ensures KVA0 <= l.base <= l.appBase && l.appEnd < l.base + l.size <= BOOT_SECTOR
  {
    hide OnPage;
    PageOnWord(l.base);
    PageOnWord(l.appBase);
    PageOnWord(l.keepBase);
    PageOnWord(l.appEnd + 1);
    PageOnWord(l.keepEnd + 1);
  }

  const KVA0: nat := 0x8000_0000
  const BOOT_SECTOR: nat := 0x9FC0_0000
  const DEV_CONFIG: nat := 0x9FC0_2FF0
  const DEV_CONFIG_END: nat := 0x9FC0_2FFF
  const WORD32: nat := 0x1_0000_0000

  /** The PIC32MX440F256H with a bootloader of 0x7000 bytes. */
  const PIC32MX440F256H: Layout := Layout(0x9D00_0000, 0x4_0000, 0x9D00_7000, 0x9D03_FFFF,
                                          0x9D02_F000, 0x9D03_5FFF, 0x9D02_F010, 0x9D02_F020, 0x9D02_F030)

  lemma LayoutIsValid()
    ensures PIC32MX440F256H.Valid()
  {
  }

  /** PA_TO_KVA0: the physical address with the top bit set. */
  function Kva(a: nat): nat
    requires a < WORD32
  {
    if a < KVA0 then a + KVA0 else a
  }

  // ---------------------------------------------------------------- flash hardware

  /** Programming can only clear bits. */
  function And(a: byte, b: byte): byte {
    a & b
  }

  lemma AndErased(b: byte)
    ensures And(0xFF, b) == b
  {
  }

  /** Program the aligned word that contains index i. */
  function ProgramWord(flash: seq<byte>, i: nat, w: seq<byte>): (r: seq<byte>)
    requires i < |flash| && |flash| % 4 == 0 && |w| == 4
    ensures |r| == |flash|
  {
    seq(|flash|, k requires 0 <= k < |flash| =>
      if k / 4 == i / 4 then And(flash[k], w[k % 4]) else flash[k])
  }

  /** Framework_EraseFlash: the pages of the application area, those that start in the preserved area excepted. */
  function Erased(l: Layout, flash: seq<byte>): (r: seq<byte>)
    ensures |r| == |flash|
  {
    seq(|flash|, k requires 0 <= k < |flash| =>
      if l.InApp(l.base + k) && !l.InKept(l.base + k) then 0xFF else flash[k])
  }

  // ---------------------------------------------------------------- hex records

  /** The device state that hex records change: flash and the two extended-address registers. */
  datatype Image = Image(flash: seq<byte>, seg: nat, lin: nat)

  /** Addition modulo 256. */
  function Add8(a: byte, b: byte): byte {
    a + b
  }

  function Checksum(r: seq<byte>): byte {
    if r == [] then 0 else Add8(r[0], Checksum(r[1..]))
  }

  /** A record as bytes: data length, address (big endian), type, data, checksum. */
  predicate Complete(r: seq<byte>) {
    |r| >= 5 && |r| == r[0] as nat + 5 && (IsAddressRecord(r) ==> r[0] >= 1)
  }

  predicate IsAddressRecord(r: seq<byte>)
    requires |r| >= 4
  {
    r[3] == 2 || r[3] == 4
  }

  /** What a record says: data at a 16-bit offset, a new extended segment or linear address, or (the
      end-of-file record and all types not known) that the extended addresses are reset. */
  datatype Rec = DataAt(offset: nat, data: seq<byte>) | Segment(address: nat) | Linear(address: nat) | Reset

  function Decode(r: seq<byte>): Rec
    requires Complete(r)
  {
    if r[3] == 0 then DataAt(0x100 * (r[1] as nat) + r[2] as nat, r[4..|r| - 1])
    else if r[3] == 2 then Segment(0x1_0000 * (r[4] as nat) + 0x100 * (r[5] as nat))
    else if r[3] == 4 then Linear(0x100_0000 * (r[4] as nat) + 0x1_0000 * (r[5] as nat))
    else Reset
  }

  /** Up to four data bytes as a word, missing bytes read as 0xFF. */
  function WordOf(data: seq<byte>): (w: seq<byte>)
    ensures |w| == 4
  {
    if |data| >= 4 then data[..4] else data + seq(4 - |data|, _ => 0xFF)
  }

  function AfterWord(data: seq<byte>): seq<byte> {
    if |data| > 3 then data[4..] else []
  }

  /** The data bytes, word by word, from physical address a on; unwritable words are passed over. */
  function WriteData(l: Layout, flash: seq<byte>, a: nat, data: seq<byte>): (r: seq<byte>)
    requires l.Valid() && |flash| == l.size && a < WORD32
    ensures |r| == |flash|
    decreases |data|
  {
    if data == [] then flash
    else
      WriteData(l, WriteWord(l, flash, a, WordOf(data)), (a + 4) % WORD32, AfterWord(data))
  }

  function WriteWord(l: Layout, flash: seq<byte>, a: nat, w: seq<byte>): (r: seq<byte>)
    requires l.Valid() && |flash| == l.size && a < WORD32 && |w| == 4
    ensures |r| == |flash|
  {
    if l.Writable(Kva(a)) then ProgramWord(flash, Kva(a) - l.base, w) else flash
  }

  function Perform(l: Layout, d: Image, rec: Rec): (d': Image)
    requires l.Valid() && |d.flash| == l.size
    ensures |d'.flash| == l.size
  {
    match rec
    case DataAt(offset, data) => d.(flash := WriteData(l, d.flash, (offset + d.lin + d.seg) % WORD32, data))
    case Segment(address) => Image(d.flash, address, 0)
    case Linear(address) => Image(d.flash, 0, address)
    case Reset => Image(d.flash, 0, 0)
  }

  /** What one record does; a bad checksum drops it. */
  function ApplyRecord(l: Layout, d: Image, r: seq<byte>): (d': Image)
    requires l.Valid() && |d.flash| == l.size && Complete(r)
    ensures |d'.flash| == l.size
  {
    if Checksum(r) != 0 then d else Perform(l, d, Decode(r))
  }

  function ApplyAll(l: Layout, d: Image, recs: seq<seq<byte>>): (d': Image)
    requires l.Valid() && |d.flash| == l.size && forall k :: 0 <= k < |recs| ==> Complete(recs[k])
    ensures |d'.flash| == l.size
    decreases |recs|
  {
    if recs == [] then d else ApplyAll(l, ApplyRecord(l, d, recs[0]), recs[1..])
  }

  lemma TwoRecords(l: Layout, d: Image, r: seq<byte>, s: seq<byte>)
    requires l.Valid() && |d.flash| == l.size && Complete(r) && Complete(s)
    ensures ApplyAll(l, d, [r, s]) == ApplyRecord(l, ApplyRecord(l, d, r), s)
  {
    hide Layout.Valid, Complete, ApplyRecord;
    assert [r, s][1..] == [s] && [s][1..] == [];
    var d1 := ApplyRecord(l, d, r);
    assert ApplyAll(l, d1, [s]) == ApplyAll(l, ApplyRecord(l, d1, s), []) == ApplyRecord(l, d1, s);
  }

  /** A buffer that is cut into complete records, with fewer than five bytes left over. */
  predicate Framed(bytes: seq<byte>) {
    |bytes| < 5 ||
    (|bytes| >= bytes[0] as nat + 5 && Complete(bytes[..bytes[0] as nat + 5]) && Framed(bytes[bytes[0] as nat + 5..]))
  }

  function Split(bytes: seq<byte>): (recs: seq<seq<byte>>)
    requires Framed(bytes)
    ensures forall k :: 0 <= k < |recs| ==> Complete(recs[k])
  {
    if |bytes| < 5 then []
    else
      var n := bytes[0] as nat + 5;
      [bytes[..n]] + Split(bytes[n..])
  }

  function Join(recs: seq<seq<byte>>): seq<byte> {
    if recs == [] then [] else recs[0] + Join(recs[1..])
  }

  lemma FirstRecord(l: Layout, d: Image, bytes: seq<byte>)
    requires l.Valid() && |d.flash| == l.size && Framed(bytes) && |bytes| >= 5
    ensures var n := bytes[0] as nat + 5;
            && n <= |bytes| && Complete(bytes[..n]) && Framed(bytes[n..])
            && ApplyAll(l, d, Split(bytes)) == ApplyAll(l, ApplyRecord(l, d, bytes[..n]), Split(bytes[n..]))
  {
    hide ApplyRecord, Layout.Valid, Complete;
    assert Split(bytes)[1..] == Split(bytes[bytes[0] as nat + 5..]);
  }

  lemma {:induction false} SplitJoin(recs: seq<seq<byte>>)
    requires forall k :: 0 <= k < |recs| ==> Complete(recs[k])
    ensures Framed(Join(recs)) && Split(Join(recs)) == recs
  {
    hide Complete, Framed, Split;
    if recs == [] {
      SplitNothing();
    } else {
      SplitJoin(recs[1..]);
      SplitCons(recs[0], Join(recs[1..]));
      assert recs == [recs[0]] + recs[1..];
    }
  }

  lemma SplitNothing()
    ensures Framed([]) && Split([]) == []
  {
  }

  lemma SplitCons(r: seq<byte>, rest: seq<byte>)
    requires Complete(r) && Framed(rest)
    ensures Framed(r + rest) && Split(r + rest) == [r] + Split(rest)
  {
    hide IsAddressRecord;
    assert (r + rest)[0] == r[0] && (r + rest)[..|r|] == r && (r + rest)[|r|..] == rest;
  }

  lemma {:induction false} ApplyAllConcat(l: Layout, d: Image, a: seq<seq<byte>>, b: seq<seq<byte>>)
    requires l.Valid() && |d.flash| == l.size
    requires forall k :: 0 <= k < |a| ==> Complete(a[k])
    requires forall k :: 0 <= k < |b| ==> Complete(b[k])
    ensures forall k :: 0 <= k < |a + b| ==> Complete((a + b)[k])
    ensures ApplyAll(l, d, a + b) == ApplyAll(l, ApplyAll(l, d, a), b)
    decreases |a|
  {
    hide ApplyRecord;
    if a == [] {
      assert a + b == b;
    } else {
      assert (a + b)[1..] == a[1..] + b;
      ApplyAllConcat(l, ApplyRecord(l, d, a[0]), a[1..], b);
    }
  }

  // ---------------------------------------------------------------- the device

  class Device {
    const l: Layout
    const flash: array<byte>
    var extSeg: nat
    var extLin: nat

    constructor (l: Layout, flash: array<byte>)
      requires l.Valid() && flash.Length == l.size
      ensures Valid() && this.l == l && this.flash == flash
      ensures Img() == Image(flash[..], 0, 0)
    {
      this.l, this.flash := l, flash;
      extSeg, extLin := 0, 0;
    }

    ghost predicate Valid() {
      l.Valid() && flash.Length == l.size
    }

    ghost function Img(): Image
      reads this, flash
    {
      Image(flash[..], extSeg, extLin)
    }

    /** Program the word that contains address p. */
    method NVMemWriteWord(p: nat, w: seq<byte>)
      requires Valid() && |w| == 4 && l.base <= p < l.base + l.size
      modifies flash
      ensures flash[..] == ProgramWord(old(flash[..]), p - l.base, w)
    {
      hide And;
      ghost var was := flash[..];
      var i: nat := (p - l.base) / 4 * 4;
      for k := 0 to 4
        invariant forall j :: 0 <= j < flash.Length ==>
                    flash[j] == if i <= j < i + k then And(was[j], w[j - i]) else was[j]
      {
        flash[i + k] := And(flash[i + k], w[k]);
      }
      assert forall j :: 0 <= j < |was| && j / 4 == (p - l.base) / 4 ==> i <= j < i + 4 && j % 4 == j - i;
    }

    /** Erase the page that starts at address p. */
    method NVMemErasePage(p: nat)
      requires Valid() && OnPage(p) && l.base <= p && p + PAGE <= l.base + l.size
      modifies flash
      ensures forall k :: 0 <= k < flash.Length ==>
                flash[k] == if p - l.base <= k < p - l.base + PAGE then 0xFF else old(flash[k])
    {
      var i: nat := p - l.base;
      for k := 0 to PAGE
        invariant forall j :: 0 <= j < flash.Length ==> flash[j] == if i <= j < i + k then 0xFF else old(flash[j])
      {
        flash[i + k] := 0xFF;
      }
    }

    /** The loop of Framework_EraseFlash. */
    method EraseFlash()
      requires Valid()
      modifies flash
      ensures flash[..] == Erased(l, old(flash[..]))
    {
      hide Layout.Valid;
      EraseGeometry(l);
      ghost var was := flash[..];
      var current: nat := l.appBase;
      for i := 0 to (l.appEnd - l.appBase + 1) / PAGE
        invariant current == l.appBase + i * PAGE && OnPage(current)
        invariant forall k :: 0 <= k < flash.Length ==> flash[k] == if ErasedBelow(l, current, l.base + k) then 0xFF else was[k]
      {
        PageGeometry(l, current);
        if !l.InKept(current) {
          NVMemErasePage(current);
        }
        current := current + PAGE;
      }
      assert flash[..] == Erased(l, was);
    }

    method WriteHexRecord2Flash(hex: seq<byte>)
      requires Valid() && Framed(hex)
      modifies this`extSeg, this`extLin, flash
      ensures Valid() && Img() == ApplyAll(l, old(Img()), Split(hex))
    {
      hide ApplyRecord, Complete, Checksum, Layout.Valid;
      var hexRecord, total, nextRecStartPt: nat := hex, |hex|, 0;
      while total >= 5
        invariant nextRecStartPt <= |hexRecord| && total == |hexRecord| - nextRecStartPt
        invariant Framed(hexRecord[nextRecStartPt..])
        invariant ApplyAll(l, Img(), Split(hexRecord[nextRecStartPt..])) == ApplyAll(l, old(Img()), Split(hex))
        decreases total
      {
        hexRecord := hexRecord[nextRecStartPt..];
        FirstRecord(l, Img(), hexRecord);
        nextRecStartPt := hexRecord[0] as nat + 5;
        total := total - nextRecStartPt;
        WriteRecord(hexRecord[..nextRecStartPt]);
      }
    }

    /** The body of the record loop. */
    method WriteRecord(r: seq<byte>)
      requires Valid() && Complete(r)
      modifies this`extSeg, this`extLin, flash
      ensures Valid() && Img() == ApplyRecord(l, old(Img()), r)
    {
      hide Perform, Checksum, Layout.Valid;
      var checksum := SumRecord(r);
      if checksum == 0 {
        WriteChecked(r);
      }
    }

    method WriteChecked(r: seq<byte>)
      requires Valid() && Complete(r)
      modifies this`extSeg, this`extLin, flash
      ensures Valid() && Img() == Perform(l, old(Img()), Decode(r))
    {
      hide WriteData, Layout.Valid, Decode, Complete;
      var rec := Decode(r);
      match rec {
        case DataAt(offset, data) =>
          WriteDataRecord(offset, data);
        case Segment(address) =>
          extSeg := address;
          extLin := 0;
        case Linear(address) =>
          extLin := address;
          extSeg := 0;
        case Reset =>
          extSeg := 0;
          extLin := 0;
      }
    }

    method SumRecord(r: seq<byte>) returns (checksum: byte)
      ensures checksum == Checksum(r)
    {
      checksum := 0;
      Add8Laws(0, Checksum(r), 0);
      assert r[0..] == r;
      hide Add8;
      for i := 0 to |r|
        invariant Add8(checksum, Checksum(r[i..])) == Checksum(r)
      {
        assert r[i..][1..] == r[i + 1..];
        Add8Laws(checksum, r[i], Checksum(r[i + 1..]));
        hide Add8;
        checksum := Add8(checksum, r[i]);
      }
    }

    /** The programming loop, for a data record of the given bytes. */
    method WriteDataRecord(offset: nat, bytes: seq<byte>)
      requires Valid()
      modifies flash
      ensures flash[..] == WriteData(l, old(flash[..]), (offset + extLin + extSeg) % WORD32, bytes)
    {
      hide ProgramWord, OnPage;
      var address: nat := (offset + extLin + extSeg) % WORD32;
      ghost var goal := WriteData(l, flash[..], address, bytes);
      var data, recDataLen := bytes, |bytes|;
      while recDataLen > 0
        invariant recDataLen == |data| && address < WORD32
        invariant WriteData(l, flash[..], address, data) == goal
        decreases recDataLen
      {
        var progAddress := Kva(address);
        if l.Writable(progAddress) {
          var wrData := WordOf(data);
          NVMemWriteWord(progAddress, wrData);
        }
        address := (address + 4) % WORD32;
        data := AfterWord(data);
        recDataLen := if recDataLen > 3 then recDataLen - 4 else 0;
      }
    }
  }

  /** The addresses already erased when the erase loop has reached `current`. */
  predicate ErasedBelow(l: Layout, current: nat, a: nat) {
    l.InApp(a) && a < current && !l.InKept(a)
  }

  lemma EraseGeometry(l: Layout)
    requires l.Valid()
    ensures OnPage(l.appBase) && l.appBase <= l.appEnd && (l.appEnd - l.appBase + 1) / PAGE * PAGE == l.appEnd - l.appBase + 1
    ensures forall a: nat :: l.InApp(a) ==> ErasedBelow(l, l.appEnd + 1, a) == !l.InKept(a)
    ensures forall a: nat :: !ErasedBelow(l, l.appBase, a)
  {
    hide OnPage;
    PageCount(l.appBase, l.appEnd + 1);
  }

  lemma PageCount(a: nat, b: nat)
    requires OnPage(a) && OnPage(b) && a <= b
    ensures (b - a) / PAGE * PAGE == b - a
  {
    assert a == PAGE * (a / PAGE) && b == PAGE * (b / PAGE);
    PagesIn(b - a, b / PAGE - a / PAGE);
  }

  lemma PagesIn(n: nat, q: nat)
    requires n == PAGE * q
    ensures n / PAGE == q
  {
  }

  lemma PagesApart(a: nat, b: nat)
    requires OnPage(a) && OnPage(b)
    ensures a < b ==> a + PAGE <= b
    ensures OnPage(a + PAGE)
  {
  }

  /** A page of the application area lies inside it, and inside or outside the preserved area. */
  lemma PageGeometry(l: Layout, p: nat)
    requires l.Valid() && OnPage(p) && l.appBase <= p <= l.appEnd
    ensures l.base <= p && p + PAGE <= l.appEnd + 1 <= l.base + l.size && OnPage(p + PAGE)
    ensures forall a: nat :: ErasedBelow(l, p + PAGE, a) <==> ErasedBelow(l, p, a) || (p <= a < p + PAGE && !l.InKept(p))
  {
    hide OnPage;
    PagesApart(p, l.appEnd + 1);
    PagesApart(p, l.keepBase);
    PagesApart(p, l.keepEnd + 1);
    forall a: nat
      ensures ErasedBelow(l, p + PAGE, a) <==> ErasedBelow(l, p, a) || (p <= a < p + PAGE && !l.InKept(p))
    {
      if p <= a < p + PAGE {
        assert l.InApp(a);
        assert l.InKept(a) == l.InKept(p);
      }
    }
  }

  lemma Add8Laws(a: byte, b: byte, c: byte)
    ensures Add8(a, Add8(b, c)) == Add8(Add8(a, b), c)
    ensures Add8(0, b) == b == Add8(b, 0)
  {
  }
}
