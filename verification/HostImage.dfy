/** The image of a hex file that the PC builds to know which CRC the device must report, and its
    agreement with what the device programs. */
module HostImage {
  import opened Crc16
  import opened Flash

  /** Size of the host's virtual flash. */
  const VIRTUAL: nat := 0x50_0000
  const NO_MIN: nat := 0xFFFF_FFFF

  /** The virtual flash, the extended addresses, and the lowest and the end of the highest address written. */
  datatype Host = Host(image: seq<byte>, seg: nat, lin: nat, min: nat, max: nat)

  function Overwritten(s: seq<byte>, i: nat, data: seq<byte>): (r: seq<byte>)
    requires i + |data| <= |s|
    ensures |r| == |s|
  {
    s[..i] + data + s[i + |data|..]
  }

  /** Where a data record starts, as a virtual address. */
  function Start(seg: nat, lin: nat, offset: nat): nat {
    Kva((offset + lin + seg) % WORD32)
  }

  /** The host passes over a record that starts in the boot sector or in the preserved area. */
  predicate Skipped(l: Layout, p: nat) {
    p >= BOOT_SECTOR || l.InKept(p)
  }

  /** The copy into the virtual flash stays inside it. */
  predicate CopyFits(l: Layout, h: Host, rec: Rec) {
    match rec
    case DataAt(offset, data) =>
      var p := Start(h.seg, h.lin, offset);
      !Skipped(l, p) ==> l.base <= p && p + |data| <= l.base + |h.image|
    case _ => true
  }

  /** What the host does with one record. It does not look at the checksum. */
  function HostRecord(l: Layout, h: Host, rec: Rec): (h': Host)
    requires CopyFits(l, h, rec)
    ensures |h'.image| == |h.image|
  {
    match rec
    case DataAt(offset, data) =>
      var p, n := Start(h.seg, h.lin, offset), |data|;
      if Skipped(l, p) then h
      else
        Host(Overwritten(h.image, p - l.base, data), h.seg, h.lin,
             if h.min > p then p else h.min, if h.max < p + n then p + n else h.max)
    case Segment(address) => h.(seg := address, lin := 0)
    case Linear(address) => h.(lin := address, seg := 0)
    case Reset => h.(seg := 0, lin := 0)
  }

  predicate CopiesFit(l: Layout, h: Host, recs: seq<seq<byte>>)
    requires forall k :: 0 <= k < |recs| ==> Complete(recs[k])
    decreases |recs|
  {
    recs == [] || (CopyFits(l, h, Decode(recs[0])) && CopiesFit(l, HostRecord(l, h, Decode(recs[0])), recs[1..]))
  }

  function HostAll(l: Layout, h: Host, recs: seq<seq<byte>>): (h': Host)
    requires (forall k :: 0 <= k < |recs| ==> Complete(recs[k])) && CopiesFit(l, h, recs)
    ensures |h'.image| == |h.image|
    decreases |recs|
  {
    if recs == [] then h else HostAll(l, HostRecord(l, h, Decode(recs[0])), recs[1..])
  }

  function Blank(n: nat): (r: seq<byte>)
    ensures |r| == n
  {
    seq(n, _ => 0xFF)
  }

  /** The host before the first record; the extended addresses are uninitialised variables. */
  function HostStart(seg: nat, lin: nat): Host {
    Host(Blank(VIRTUAL), seg, lin, NO_MIN, 0)
  }

  /** The address and the length that the host reports. */
  function ReportStart(h: Host): nat {
    h.min - h.min % 4
  }

  function ReportLength(h: Host): nat {
    (h.max + h.max % 4 - ReportStart(h)) % WORD32
  }

  /** `MaxAddress += MaxAddress % 4` reaches a word boundary only from an even address. */
  lemma MaxRounding(max: nat)
    ensures (max + max % 4) % 4 == 0 <==> max % 2 == 0
  {
    var q, r := max / 4, max % 4;
    assert max == 4 * q + r && max + r == 4 * q + 2 * r;
    if r == 0 {
    } else if r == 1 {
    } else if r == 2 {
      assert max + r == 4 * (q + 1);
    } else {
      assert max + r == 4 * (q + 1) + 2;
    }
  }

  /** VerifyFlash of the host on the records of the file. */
  class HexManager {
    const l: Layout
    const virtualFlash: array<byte>

    constructor (l: Layout)
      ensures this.l == l && fresh(virtualFlash) && virtualFlash.Length == VIRTUAL
    {
      this.l := l;
      virtualFlash := new byte[VIRTUAL];
    }

    method VerifyFlash(recs: seq<seq<byte>>, seg: nat, lin: nat) returns (startAddress: nat, progLen: nat, crc: bv16)
      requires virtualFlash.Length == VIRTUAL
      requires (forall k :: 0 <= k < |recs| ==> Complete(recs[k])) && CopiesFit(l, HostStart(seg, lin), recs)
      requires var h := HostAll(l, HostStart(seg, lin), recs);
               l.base <= ReportStart(h) && ReportStart(h) + ReportLength(h) <= l.base + VIRTUAL
      modifies virtualFlash
      ensures var h := HostAll(l, HostStart(seg, lin), recs);
              && virtualFlash[..] == h.image
              && startAddress == ReportStart(h) && progLen == ReportLength(h)
              && crc == Crc(h.image[startAddress - l.base..startAddress - l.base + progLen])
    {
      hide CopyFits, HostRecord, Decode, Complete;
      for i := 0 to VIRTUAL
        invariant forall k :: 0 <= k < i ==> virtualFlash[k] == 0xFF
      {
        virtualFlash[i] := 0xFF;
      }
      assert virtualFlash[..] == Blank(VIRTUAL);
      var extSeg: nat, extLin: nat, minAddress: nat, maxAddress: nat := seg, lin, NO_MIN, 0;
      ghost var goal := HostAll(l, HostStart(seg, lin), recs);
      for k := 0 to |recs|
        invariant var h := Host(virtualFlash[..], extSeg, extLin, minAddress, maxAddress);
                  CopiesFit(l, h, recs[k..]) && HostAll(l, h, recs[k..]) == goal
      {
        assert recs[k..][1..] == recs[k + 1..];
        extSeg, extLin, minAddress, maxAddress := ReadRecord(recs[k], extSeg, extLin, minAddress, maxAddress);
      }
      minAddress := minAddress - minAddress % 4;
      maxAddress := maxAddress + maxAddress % 4;
      progLen := (maxAddress - minAddress) % WORD32;
      startAddress := minAddress;
      crc := CalculateCrcHost(virtualFlash[startAddress - l.base..startAddress - l.base + progLen]);
    }

    /** The body of the record loop. */
    method ReadRecord(r: seq<byte>, seg: nat, lin: nat, min: nat, max: nat)
      returns (extSeg: nat, extLin: nat, minAddress: nat, maxAddress: nat)
      requires virtualFlash.Length == VIRTUAL && Complete(r)
      requires CopyFits(l, Host(virtualFlash[..], seg, lin, min, max), Decode(r))
      modifies virtualFlash
      ensures Host(virtualFlash[..], extSeg, extLin, minAddress, maxAddress)
           == HostRecord(l, Host(old(virtualFlash[..]), seg, lin, min, max), Decode(r))
    {
      hide Decode, Complete;
      extSeg, extLin, minAddress, maxAddress := seg, lin, min, max;
      var rec := Decode(r);
      match rec {
        case DataAt(offset, data) =>
          var progAddress, recDataLen := Kva((offset + extLin + extSeg) % WORD32), |data|;
          if progAddress < BOOT_SECTOR {
            if l.InKept(progAddress) {
            } else {
              if maxAddress < progAddress + recDataLen {
                maxAddress := progAddress + recDataLen;
              }
              if minAddress > progAddress {
                minAddress := progAddress;
              }
              CopyIn(progAddress - l.base, data);
            }
          }
        case Segment(address) =>
          extSeg, extLin := address, 0;
        case Linear(address) =>
          extLin, extSeg := address, 0;
        case Reset =>
          extSeg, extLin := 0, 0;
      }
    }

    method CopyIn(i: nat, data: seq<byte>)
      requires i + |data| <= virtualFlash.Length
      modifies virtualFlash
      ensures virtualFlash[..] == Overwritten(old(virtualFlash[..]), i, data)
    {
      for k := 0 to |data|
        invariant forall j :: 0 <= j < virtualFlash.Length ==>
                    virtualFlash[j] == if i <= j < i + k then data[j - i] else old(virtualFlash[j])
      {
        virtualFlash[i + k] := data[k];
      }
      assert virtualFlash[..] == Overwritten(old(virtualFlash[..]), i, data);
    }
  }

  // ---------------------------------------------------------------- agreement with the device

  /** The addresses of the words that n bytes from p on touch. */
  function Words(p: nat, n: nat): set<nat> {
    set a | p <= a < p + n && a % 4 == 0
  }

  /** A data run that both sides pass over: in the boot sector or above, or inside the preserved area. */
  predicate PassedOver(l: Layout, p: nat, n: nat) {
    (BOOT_SECTOR <= p && p + n <= WORD32) || (l.InKept(p) && p + n <= l.keepEnd + 1)
  }

  /** A record the two sides treat alike: data that both pass over, no data in the application area, or
      data there that is word-aligned, does not straddle the preserved area and lies on words that no
      earlier record wrote. */
  ghost predicate WellPlaced(l: Layout, seg: nat, lin: nat, touched: set<nat>, rec: Rec) {
    match rec
    case DataAt(offset, data) =>
      var p, n := Start(seg, lin, offset), |data|;
      PassedOver(l, p, n) ||
      (l.appBase <= p && p + n <= l.appEnd + 1 &&
       (n == 0 || (p % 4 == 0 && (p + n <= l.keepBase || l.keepEnd < p) && Words(p, n) !! touched)))
    case _ => true
  }

  /** The extended addresses after a record. */
  function Extended(seg: nat, lin: nat, rec: Rec): (nat, nat) {
    match rec
    case DataAt(_, _) => (seg, lin)
    case Segment(address) => (address, 0)
    case Linear(address) => (0, address)
    case Reset => (0, 0)
  }

  ghost function Touched(seg: nat, lin: nat, touched: set<nat>, rec: Rec): set<nat> {
    if rec.DataAt? then touched + Words(Start(seg, lin, rec.offset), |rec.data|) else touched
  }

  ghost predicate WellFormed(l: Layout, seg: nat, lin: nat, touched: set<nat>, recs: seq<seq<byte>>)
    decreases |recs|
  {
    recs == [] ||
    (Complete(recs[0]) && Checksum(recs[0]) == 0 &&
     var rec := Decode(recs[0]);
     WellPlaced(l, seg, lin, touched, rec) &&
     var (seg', lin') := Extended(seg, lin, rec);
     WellFormed(l, seg', lin', Touched(seg, lin, touched, rec), recs[1..]))
  }

  /** Device and host after the same records: equal in the application area outside the preserved area,
      where the words not touched are still erased; the host's preserved area is blank. */
  ghost predicate Agree(l: Layout, d: Image, h: Host, touched: set<nat>) {
    && l.Valid() && |d.flash| == l.size && l.size <= |h.image| == VIRTUAL
    && d.seg == h.seg && d.lin == h.lin
    && (forall k :: 0 <= k < l.size && l.InApp(l.base + k) ==> AgreeAt(l, d.flash, h.image, touched, k))
    && ((h.min == NO_MIN && h.max == 0) || l.appBase <= h.min <= h.max <= l.appEnd + 1)
  }

  ghost predicate AgreeAt(l: Layout, flash: seq<byte>, image: seq<byte>, touched: set<nat>, k: nat)
    requires k < |flash| && k < |image|
  {
    var a := l.base + k;
    if l.InKept(a) then image[k] == 0xFF
    else flash[k] == image[k] && (a - a % 4 !in touched ==> flash[k] == 0xFF)
  }

  /** The words that n bytes from index i on touch are erased. */
  ghost predicate ErasedRun(flash: seq<byte>, i: nat, n: nat) {
    && RoundUp(n) == (n + 3) / 4 * 4
    && i + RoundUp(n) <= |flash|
    && forall k :: i <= k < i + RoundUp(n) ==> flash[k] == 0xFF
  }

  function RoundUp(n: nat): nat {
    if n == 0 then 0 else if n <= 4 then 4 else 4 + RoundUp(n - 4)
  }

  /** Where a data run may lie: on whole words of the application area, outside the preserved area. */
  ghost predicate Placed(l: Layout, a: nat, n: nat) {
    && a < WORD32
    && var p := Kva(a);
    && p % 4 == 0 && l.appBase <= p && p + n <= l.appEnd + 1 && (p + n <= l.keepBase || l.keepEnd < p)
  }

  /** Word by word, a data run on erased writable words is a copy. */
  lemma {:induction false} WriteDataErased(l: Layout, flash: seq<byte>, a: nat, data: seq<byte>)
    requires l.Valid() && |flash| == l.size && Placed(l, a, |data|)
    requires a < WORD32 && Kva(a) >= l.base && Kva(a) - l.base + |data| <= |flash|
    requires ErasedRun(flash, Kva(a) - l.base, |data|)
    ensures WriteData(l, flash, a, data) == Overwritten(flash, Kva(a) - l.base, data)
    decreases |data|
  {
    hide WriteData, WordOf, Placed, ErasedRun, Overwritten, RoundUp, Layout.Valid;
    if data == [] {
      NothingWritten(l, flash, a);
    } else {
      FirstWordWritten(l, flash, a, data);
      if |data| <= 3 {
        LastWordWritten(l, flash, a, data);
      } else {
        var i, flash' := Kva(a) - l.base, Overwritten(flash, Kva(a) - l.base, WordOf(data));
        NextPlaced(l, a, |data|);
        NextErased(flash, flash', i, WordOf(data), |data|);
        WriteDataErased(l, flash', (a + 4) % WORD32, AfterWord(data));
        OverwrittenByWord(flash, flash', i, data);
      }
    }
  }

  lemma NothingWritten(l: Layout, flash: seq<byte>, a: nat)
    requires l.Valid() && |flash| == l.size && a < WORD32 && Kva(a) >= l.base && Kva(a) - l.base <= |flash|
    ensures WriteData(l, flash, a, []) == flash == Overwritten(flash, Kva(a) - l.base, [])
  {
  }

  lemma LastWordWritten(l: Layout, flash: seq<byte>, a: nat, data: seq<byte>)
    requires l.Valid() && |flash| == l.size && a < WORD32 && |data| <= 3 && Kva(a) >= l.base
    requires var i := Kva(a) - l.base;
             && i + 4 <= |flash| && (forall k :: i <= k < i + 4 ==> flash[k] == 0xFF)
             && WriteData(l, flash, a, data)
                == WriteData(l, Overwritten(flash, i, WordOf(data)), (a + 4) % WORD32, AfterWord(data))
    ensures WriteData(l, flash, a, data) == Overwritten(flash, Kva(a) - l.base, data)
  {
    hide WriteData, WordOf, Overwritten;
    var i, flash' := Kva(a) - l.base, Overwritten(flash, Kva(a) - l.base, WordOf(data));
    WriteNothing(l, flash', (a + 4) % WORD32);
    PartialWord(flash, flash', i, data);
  }

  lemma FirstWordWritten(l: Layout, flash: seq<byte>, a: nat, data: seq<byte>)
    requires l.Valid() && |flash| == l.size && Placed(l, a, |data|) && data != []
    requires a < WORD32 && Kva(a) >= l.base
    requires ErasedRun(flash, Kva(a) - l.base, |data|)
    ensures var i := Kva(a) - l.base;
            && i + 4 <= |flash| && (forall k :: i <= k < i + 4 ==> flash[k] == 0xFF)
            && WriteData(l, flash, a, data)
               == WriteData(l, Overwritten(flash, i, WordOf(data)), (a + 4) % WORD32, AfterWord(data))
  {
    hide ErasedRun, WordOf, ProgramWord, Overwritten, OnPage, Layout.Valid, Kva, Layout.Writable, Placed;
    PlacedWritable(l, a, |data|);
    var i, w := Kva(a) - l.base, WordOf(data);
    FirstWord(flash, i, |data|);
    WordProgrammed(flash, i, w);
  }

  /** The first word of a placed run can be written. */
  lemma PlacedWritable(l: Layout, a: nat, n: nat)
    requires l.Valid() && Placed(l, a, n) && n > 0
    ensures l.Writable(Kva(a)) && Kva(a) >= l.base && (Kva(a) - l.base) % 4 == 0 && l.size % 4 == 0
  {
    hide OnPage;
    LayoutWords(l);
    WordsApart(Kva(a), l.base);
  }

  lemma WriteNothing(l: Layout, flash: seq<byte>, a: nat)
    requires l.Valid() && |flash| == l.size && a < WORD32
    ensures WriteData(l, flash, a, []) == flash
  {
  }

  lemma FirstWord(flash: seq<byte>, i: nat, n: nat)
    requires ErasedRun(flash, i, n) && n > 0
    ensures i + 4 <= |flash| && forall k :: i <= k < i + 4 ==> flash[k] == 0xFF
  {
  }

  lemma NextPlaced(l: Layout, a: nat, n: nat)
    requires l.Valid() && Placed(l, a, n) && n > 3
    ensures Placed(l, (a + 4) % WORD32, n - 4) && Kva((a + 4) % WORD32) == Kva(a) + 4
  {
    hide OnPage, Layout.Valid;
    LayoutWords(l);
    NextAddress(a);
    WordsAdd(Kva(a));
  }

  /** Below the boot sector, the next word of a physical address is the next word of its virtual address. */
  lemma NextAddress(a: nat)
    requires a < WORD32 && Kva(a) + 4 <= BOOT_SECTOR
    ensures (a + 4) % WORD32 == a + 4 && Kva(a + 4) == Kva(a) + 4
  {
  }

  lemma WordsAdd(a: nat)
    requires a % 4 == 0
    ensures (a + 4) % 4 == 0
  {
    WordMultiple(a + 4, a / 4 + 1);
  }

  lemma NextErased(flash: seq<byte>, flash': seq<byte>, i: nat, w: seq<byte>, n: nat)
    requires ErasedRun(flash, i, n) && n > 3 && |w| == 4 && i + 4 <= |flash| && flash' == Overwritten(flash, i, w)
    ensures ErasedRun(flash', i + 4, n - 4)
  {
  }

  lemma WordProgrammed(flash: seq<byte>, i: nat, w: seq<byte>)
    requires i % 4 == 0 && i + 4 <= |flash| && |flash| % 4 == 0 && |w| == 4
    requires forall k :: i <= k < i + 4 ==> flash[k] == 0xFF
    ensures ProgramWord(flash, i, w) == Overwritten(flash, i, w)
  {
    AndErased(w[0]);
    AndErased(w[1]);
    AndErased(w[2]);
    AndErased(w[3]);
    hide And;
  }

  lemma OverwrittenByWord(flash: seq<byte>, flash': seq<byte>, i: nat, data: seq<byte>)
    requires i + |data| <= |flash| && |data| > 3 && flash' == Overwritten(flash, i, WordOf(data))
    ensures Overwritten(flash', i + 4, AfterWord(data)) == Overwritten(flash, i, data)
  {
  }

  lemma PartialWord(flash: seq<byte>, flash': seq<byte>, i: nat, data: seq<byte>)
    requires i + 4 <= |flash| && |data| <= 3 && flash' == Overwritten(flash, i, WordOf(data))
    requires forall k :: i <= k < i + 4 ==> flash[k] == 0xFF
    ensures flash' == Overwritten(flash, i, data)
  {
  }

  /** A data run inside the preserved area changes nothing. */
  lemma {:induction false} WriteDataKept(l: Layout, flash: seq<byte>, a: nat, data: seq<byte>)
    requires l.Valid() && |flash| == l.size && a < WORD32
    requires var p := Kva(a); l.keepBase <= p && p + |data| <= l.keepEnd + 1
    ensures WriteData(l, flash, a, data) == flash
    decreases |data|
  {
    hide WordOf, ProgramWord;
    if data != [] {
      if |data| > 3 {
        assert Kva((a + 4) % WORD32) == Kva(a) + 4;
        WriteDataKept(l, flash, (a + 4) % WORD32, AfterWord(data));
      }
    }
  }

  lemma RoundUpIs(n: nat)
    ensures RoundUp(n) == (n + 3) / 4 * 4
  {
  }

  lemma WordInRun(p: nat, n: nat, a: nat)
    requires p % 4 == 0 && p <= a < p + (n + 3) / 4 * 4
    ensures a - a % 4 in Words(p, n)
  {
    var m := (n + 3) / 4;
    assert (a - a % 4) % 4 == 0;
  }

  lemma RunEndsBefore(p: nat, n: nat, end: nat)
    requires p % 4 == 0 && end % 4 == 0 && p + n <= end
    ensures p + (n + 3) / 4 * 4 <= end
  {
  }

  lemma FreshByte(l: Layout, d: Image, h: Host, touched: set<nat>, p: nat, n: nat, k: nat)
    requires Agree(l, d, h, touched) && p % 4 == 0 && l.appBase <= p && p + n <= l.appEnd + 1
    requires p + n <= l.keepBase || l.keepEnd < p
    requires l.base <= p && Words(p, n) !! touched && p - l.base <= k < p - l.base + (n + 3) / 4 * 4
    ensures k < l.size && d.flash[k] == 0xFF
  {
    hide Words, Layout.Valid;
    var a := l.base + k;
    LayoutWords(l);
    WordInRun(p, n, a);
    RunEndsBefore(p, n, l.appEnd + 1);
    if p + n <= l.keepBase {
      RunEndsBefore(p, n, l.keepBase);
    }
    assert l.InApp(a) && !l.InKept(a);
    assert AgreeAt(l, d.flash, h.image, touched, k);
  }

  /** The words of a fresh record are erased on the device. */
  lemma FreshRun(l: Layout, d: Image, h: Host, touched: set<nat>, p: nat, n: nat)
    requires Agree(l, d, h, touched) && p % 4 == 0 && l.appBase <= p && 0 < n && p + n <= l.appEnd + 1
    requires p + n <= l.keepBase || l.keepEnd < p
    requires l.base <= p && Words(p, n) !! touched
    ensures ErasedRun(d.flash, p - l.base, n)
  {
    hide RoundUp, Words, Layout.Valid;
    RoundUpIs(n);
    var i, m := p - l.base, (n + 3) / 4 * 4;
    FreshByte(l, d, h, touched, p, n, i + m - 1);
    forall k | i <= k < i + m ensures d.flash[k] == 0xFF {
      FreshByte(l, d, h, touched, p, n, k);
    }
  }

  /** Copying the same bytes to both sides keeps them in agreement. */
  lemma CopyAgrees(l: Layout, d: Image, h: Host, touched: set<nat>, p: nat, data: seq<byte>)
    requires Agree(l, d, h, touched) && p % 4 == 0 && l.appBase <= p && p + |data| <= l.appEnd + 1
    requires p + |data| <= l.keepBase || l.keepEnd < p
    ensures var flash', image' := Overwritten(d.flash, p - l.base, data), Overwritten(h.image, p - l.base, data);
            forall k :: 0 <= k < l.size && l.InApp(l.base + k)
              ==> AgreeAt(l, flash', image', touched + Words(p, |data|), k)
  {
    hide Overwritten;
    var flash', image' := Overwritten(d.flash, p - l.base, data), Overwritten(h.image, p - l.base, data);
    forall k | 0 <= k < l.size && l.InApp(l.base + k)
      ensures AgreeAt(l, flash', image', touched + Words(p, |data|), k)
    {
      assert AgreeAt(l, d.flash, h.image, touched, k);
      CopiedByte(l, d.flash, h.image, touched, p, data, k);
    }
  }

  lemma CopiedByte(l: Layout, flash: seq<byte>, image: seq<byte>, touched: set<nat>, p: nat, data: seq<byte>, k: nat)
    requires k < |flash| && k < |image| && AgreeAt(l, flash, image, touched, k)
    requires l.base <= p && p % 4 == 0 && p - l.base + |data| <= |flash| && p - l.base + |data| <= |image|
    requires p + |data| <= l.keepBase || l.keepEnd < p
    ensures AgreeAt(l, Overwritten(flash, p - l.base, data), Overwritten(image, p - l.base, data),
                    touched + Words(p, |data|), k)
  {
    hide Overwritten, Words;
    OverwrittenAt(flash, p - l.base, data, k);
    OverwrittenAt(image, p - l.base, data, k);
    var a := l.base + k;
    if p <= a < p + |data| {
      WordTouched(p, |data|, a);
    }
  }

  /** The word of a byte of an aligned run is one of the run's words. */
  lemma WordTouched(p: nat, n: nat, a: nat)
    requires p % 4 == 0 && p <= a < p + n
    ensures a - a % 4 in Words(p, n)
  {
    assert p == 4 * (p / 4) && a == 4 * (a / 4) + a % 4;
    WordMultiple(a - a % 4, a / 4);
  }

  lemma OverwrittenAt(s: seq<byte>, i: nat, data: seq<byte>, k: nat)
    requires i + |data| <= |s| && k < |s|
    ensures Overwritten(s, i, data)[k] == if i <= k < i + |data| then data[k - i] else s[k]
  {
  }

  lemma TouchMore(l: Layout, d: Image, h: Host, touched: set<nat>, more: set<nat>)
    requires Agree(l, d, h, touched)
    ensures Agree(l, d, h, touched + more)
  {
    forall k | 0 <= k < l.size && l.InApp(l.base + k) ensures AgreeAt(l, d.flash, h.image, touched + more, k) {
      assert AgreeAt(l, d.flash, h.image, touched, k);
    }
  }

  lemma RecordAgrees(l: Layout, d: Image, h: Host, touched: set<nat>, rec: Rec)
    requires Agree(l, d, h, touched) && WellPlaced(l, h.seg, h.lin, touched, rec)
    ensures CopyFits(l, h, rec)
    ensures var h' := HostRecord(l, h, rec);
            && Agree(l, Perform(l, d, rec), h', Touched(h.seg, h.lin, touched, rec))
            && (h'.seg, h'.lin) == Extended(h.seg, h.lin, rec)
  {
    hide WriteData, Layout.Valid, Words, Overwritten, AgreeAt;
    if rec.DataAt? {
      if Skipped(l, Start(h.seg, h.lin, rec.offset)) {
        PassedOverAgrees(l, d, h, touched, rec);
      } else if rec.data == [] {
        EmptyAgrees(l, d, h, touched, rec);
      } else {
        DataAgrees(l, d, h, touched, rec);
      }
    }
  }

  lemma PassedOverAgrees(l: Layout, d: Image, h: Host, touched: set<nat>, rec: Rec)
    requires Agree(l, d, h, touched) && rec.DataAt? && WellPlaced(l, h.seg, h.lin, touched, rec)
    requires Skipped(l, Start(h.seg, h.lin, rec.offset))
    ensures CopyFits(l, h, rec) && HostRecord(l, h, rec) == h && Perform(l, d, rec) == d
    ensures Agree(l, d, h, Touched(h.seg, h.lin, touched, rec))
  {
    hide WriteData, Layout.Valid, Words, Overwritten, AgreeAt, Agree;
    AgreeKnows(l, d, h, touched);
    KeptInside(l);
    var a := (rec.offset + h.lin + h.seg) % WORD32;
    var p, n := Kva(a), |rec.data|;
    TouchMore(l, d, h, touched, Words(p, n));
    if rec.data == [] {
      WriteNothing(l, d.flash, a);
    } else if BOOT_SECTOR <= p {
      WriteDataBoot(l, d.flash, a, rec.data);
    } else {
      WriteDataKept(l, d.flash, a, rec.data);
    }
  }

  lemma KeptInside(l: Layout)
    requires l.Valid()
    ensures l.keepEnd <= l.appEnd < BOOT_SECTOR
  {
    hide OnPage;
  }

  /** A data run in the boot sector or above changes nothing. */
  lemma {:induction false} WriteDataBoot(l: Layout, flash: seq<byte>, a: nat, data: seq<byte>)
    requires l.Valid() && |flash| == l.size && a < WORD32
    requires BOOT_SECTOR <= Kva(a) && Kva(a) + |data| <= WORD32
    ensures WriteData(l, flash, a, data) == flash
    decreases |data|
  {
    hide WordOf, ProgramWord, OnPage, Layout.Valid;
    LayoutWords(l);
    if data != [] {
      assert !l.Writable(Kva(a));
      var rest := AfterWord(data);
      if rest == [] {
        WriteNothing(l, flash, (a + 4) % WORD32);
      } else {
        assert (a + 4) % WORD32 == a + 4 && Kva(a + 4) == Kva(a) + 4;
        WriteDataBoot(l, flash, a + 4, rest);
      }
    }
  }

  lemma EmptyAgrees(l: Layout, d: Image, h: Host, touched: set<nat>, rec: Rec)
    requires Agree(l, d, h, touched) && rec.DataAt? && rec.data == [] && WellPlaced(l, h.seg, h.lin, touched, rec)
    requires !Skipped(l, Start(h.seg, h.lin, rec.offset))
    ensures CopyFits(l, h, rec)
    ensures Agree(l, Perform(l, d, rec), HostRecord(l, h, rec), Touched(h.seg, h.lin, touched, rec))
    ensures HostRecord(l, h, rec).seg == h.seg && HostRecord(l, h, rec).lin == h.lin
  {
    hide WriteData, Layout.Valid, Words, AgreeAt;
    AgreeKnows(l, d, h, touched);
    var a := (rec.offset + h.lin + h.seg) % WORD32;
    WriteNothing(l, d.flash, a);
    assert Overwritten(h.image, Kva(a) - l.base, []) == h.image;
    TouchMore(l, d, h, touched, Words(Kva(a), 0));
  }

  lemma AgreeKnows(l: Layout, d: Image, h: Host, touched: set<nat>)
    requires Agree(l, d, h, touched)
    ensures l.Valid() && |d.flash| == l.size <= |h.image| && d.seg == h.seg && d.lin == h.lin
    ensures KVA0 <= l.base <= l.appBase && l.appEnd < l.base + l.size <= BOOT_SECTOR
  {
    hide Layout.Valid;
    LayoutWords(l);
  }

  lemma DataAgrees(l: Layout, d: Image, h: Host, touched: set<nat>, rec: Rec)
    requires Agree(l, d, h, touched) && rec.DataAt? && rec.data != [] && WellPlaced(l, h.seg, h.lin, touched, rec)
    requires !Skipped(l, Start(h.seg, h.lin, rec.offset))
    ensures CopyFits(l, h, rec)
    ensures Agree(l, Perform(l, d, rec), HostRecord(l, h, rec), Touched(h.seg, h.lin, touched, rec))
    ensures HostRecord(l, h, rec).seg == h.seg && HostRecord(l, h, rec).lin == h.lin
  {
    hide WriteData, Layout.Valid, Words, Overwritten, AgreeAt;
    AgreeKnows(l, d, h, touched);
    var a := (rec.offset + h.lin + h.seg) % WORD32;
    var p, n := Kva(a), |rec.data|;
    FreshRun(l, d, h, touched, p, n);
    WriteDataErased(l, d.flash, a, rec.data);
    CopyAgrees(l, d, h, touched, p, rec.data);
  }

  /** The agreement holds after every well-formed sequence of records. */
  lemma {:induction false} AllAgree(l: Layout, d: Image, h: Host, touched: set<nat>, recs: seq<seq<byte>>) returns (touched': set<nat>)
    requires Agree(l, d, h, touched) && WellFormed(l, h.seg, h.lin, touched, recs)
    ensures (forall k :: 0 <= k < |recs| ==> Complete(recs[k])) && CopiesFit(l, h, recs)
    ensures Agree(l, ApplyAll(l, d, recs), HostAll(l, h, recs), touched')
    decreases |recs|
  {
    hide Perform, HostRecord, CopyFits, Decode, Checksum, Complete, WellPlaced, Layout.Valid;
    touched' := touched;
    if recs != [] {
      var rec := Decode(recs[0]);
      RecordAgrees(l, d, h, touched, rec);
      touched' := AllAgree(l, Perform(l, d, rec), HostRecord(l, h, rec), Touched(h.seg, h.lin, touched, rec), recs[1..]);
    }
  }

  /** What the device reads for its CRC: flash, with the preserved area read as erased. */
  function View(l: Layout, flash: seq<byte>, start: nat, len: nat): (r: seq<byte>)
    requires l.base <= start && start + len <= l.base + |flash|
    ensures |r| == len
  {
    seq(len, k requires 0 <= k < len => if l.InKept(start + k) then 0xFF else flash[start + k - l.base])
  }

  /** The reported range stays inside the application area unless the image ends exactly one byte
      short of it: then the rounding of the end overshoots. */
  lemma ReportedRange(l: Layout, h: Host)
    requires l.Valid() && l.appBase <= h.min <= h.max <= l.appEnd + 1
    ensures l.appBase <= ReportStart(h) && ReportStart(h) + ReportLength(h) == h.max + h.max % 4
    ensures h.max + h.max % 4 <= l.appEnd + 1 <==> h.max != l.appEnd
  {
    hide Layout.Valid;
    LayoutWords(l);
    assert ReportStart(h) <= h.max + h.max % 4 < WORD32;
  }

  lemma AgreeAtStart(l: Layout, flash: seq<byte>, seg: nat, lin: nat)
    requires l.Valid() && |flash| == l.size <= VIRTUAL
    ensures Agree(l, Image(Erased(l, flash), seg, lin), HostStart(seg, lin), {})
  {
    var d, h := Image(Erased(l, flash), seg, lin), HostStart(seg, lin);
    forall k | 0 <= k < l.size && l.InApp(l.base + k) ensures AgreeAt(l, d.flash, h.image, {}, k) {
    }
  }

  lemma ViewsAgree(l: Layout, d: Image, h: Host, touched: set<nat>, start: nat, len: nat)
    requires Agree(l, d, h, touched) && l.base <= l.appBase <= start && start + len <= l.appEnd + 1 <= l.base + l.size
    ensures View(l, d.flash, start, len) == h.image[start - l.base..start - l.base + len]
  {
    forall k | 0 <= k < len ensures View(l, d.flash, start, len)[k] == h.image[start - l.base + k] {
      assert l.InApp(l.base + (start - l.base + k));
      assert AgreeAt(l, d.flash, h.image, touched, start - l.base + k);
    }
  }

  /** The end-to-end claim for a hex file: after erasing and programming, what the device reads in the
      range the host reports is what the host computed its CRC over. The extended addresses may differ
      before the first record as long as that record sets them. */
  lemma ImagesAgree(l: Layout, flash: seq<byte>, dSeg: nat, dLin: nat, hSeg: nat, hLin: nat, recs: seq<seq<byte>>)
    requires l.Valid() && |flash| == l.size <= VIRTUAL
    requires recs != [] && WellFormed(l, hSeg, hLin, {}, recs) && !Decode(recs[0]).DataAt?
    ensures (forall k :: 0 <= k < |recs| ==> Complete(recs[k])) && CopiesFit(l, HostStart(hSeg, hLin), recs)
    ensures var h := HostAll(l, HostStart(hSeg, hLin), recs);
            var d := ApplyAll(l, Image(Erased(l, flash), dSeg, dLin), recs);
            h.max != 0 && h.max != l.appEnd ==>
              var start, len := ReportStart(h), ReportLength(h);
              && l.base <= start && start + len <= l.appEnd + 1
              && View(l, d.flash, start, len) == h.image[start - l.base..start - l.base + len]
  {
    hide Decode, Checksum, Complete, Agree, Layout.Valid, WellPlaced, WriteData, Blank, Erased, ApplyAll, HostAll, CopiesFit,
         Perform, HostRecord, WellFormed, View, ReportStart, ReportLength;
    FirstWellFormed(l, hSeg, hLin, recs);
    var rec := Decode(recs[0]);
    var (seg, lin) := Extended(hSeg, hLin, rec);
    var d, h := Image(Erased(l, flash), dSeg, dLin), HostStart(hSeg, hLin);
    var d1, h1 := Image(Erased(l, flash), seg, lin), HostStart(seg, lin);
    AgreeAtStart(l, flash, seg, lin);
    AddressesSet(l, d, h, rec);
    var touched := AllAgree(l, d1, h1, {}, recs[1..]);
    FirstRecordDone(l, d, h, recs);
    FinalAgree(l, ApplyAll(l, d1, recs[1..]), HostAll(l, h1, recs[1..]), touched);
  }

  lemma FirstWellFormed(l: Layout, seg: nat, lin: nat, recs: seq<seq<byte>>)
    requires recs != [] && WellFormed(l, seg, lin, {}, recs) && !Decode(recs[0]).DataAt?
    ensures Complete(recs[0]) && Checksum(recs[0]) == 0
    ensures var (seg', lin') := Extended(seg, lin, Decode(recs[0])); WellFormed(l, seg', lin', {}, recs[1..])
  {
    hide Decode, Checksum, Complete, WellPlaced;
  }

  /** A record without data sets the extended addresses on both sides, and nothing else. */
  lemma AddressesSet(l: Layout, d: Image, h: Host, rec: Rec)
    requires l.Valid() && |d.flash| == l.size && !rec.DataAt?
    ensures var (seg, lin) := Extended(h.seg, h.lin, rec);
            && CopyFits(l, h, rec) && Perform(l, d, rec) == Image(d.flash, seg, lin)
            && HostRecord(l, h, rec) == h.(seg := seg, lin := lin)
  {
    hide Layout.Valid;
  }

  lemma FirstRecordDone(l: Layout, d: Image, h: Host, recs: seq<seq<byte>>)
    requires l.Valid() && |d.flash| == l.size && recs != [] && Complete(recs[0]) && Checksum(recs[0]) == 0
    requires forall k :: 0 <= k < |recs[1..]| ==> Complete(recs[1..][k])
    requires CopyFits(l, h, Decode(recs[0])) && CopiesFit(l, HostRecord(l, h, Decode(recs[0])), recs[1..])
    ensures (forall k :: 0 <= k < |recs| ==> Complete(recs[k])) && CopiesFit(l, h, recs)
    ensures ApplyAll(l, d, recs) == ApplyAll(l, Perform(l, d, Decode(recs[0])), recs[1..])
    ensures HostAll(l, h, recs) == HostAll(l, HostRecord(l, h, Decode(recs[0])), recs[1..])
  {
    hide Layout.Valid, Complete, Checksum, Decode, Perform, HostRecord;
    forall k | 0 <= k < |recs| ensures Complete(recs[k]) {
      if k > 0 {
        assert recs[1..][k - 1] == recs[k];
      }
    }
  }

  lemma FinalAgree(l: Layout, d: Image, h: Host, touched: set<nat>)
    requires l.Valid() && Agree(l, d, h, touched)
    ensures h.max != 0 && h.max != l.appEnd ==>
              var start, len := ReportStart(h), ReportLength(h);
              && l.base <= start && start + len <= l.appEnd + 1 <= l.base + |d.flash|
              && start - l.base + len <= |h.image|
              && View(l, d.flash, start, len) == h.image[start - l.base..start - l.base + len]
  {
    hide Layout.Valid, View, AgreeAt;
    LayoutWords(l);
    if h.max != 0 && h.max != l.appEnd {
      ReportedRange(l, h);
      ViewsAgree(l, d, h, touched, ReportStart(h), ReportLength(h));
    }
  }
}
