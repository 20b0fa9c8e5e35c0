/** Retransmission: what a batch of records does when the device gets it a second time. */
module Replay {
  import opened Crc16
  import opened Flash
  import opened HostImage
  import Commands
  import Update
  import opened Cbc

  /** Programming never sets bits: its effect is a mask. */
  function Masked(flash: seq<byte>, mask: seq<byte>): (r: seq<byte>)
    requires |flash| == |mask|
    ensures |r| == |flash|
  {
    seq(|flash|, k requires 0 <= k < |flash| => And(flash[k], mask[k]))
  }

  lemma AndLaws(a: byte, b: byte, c: byte)
    ensures And(And(a, b), c) == And(a, And(b, c)) && And(a, 0xFF) == a && And(0xFF, a) == a && And(And(a, b), b) == And(a, b)
  {
  }

  lemma MaskedTwice(f: seq<byte>, m: seq<byte>, n: seq<byte>)
    requires |f| == |m| == |n|
    ensures Masked(Masked(f, m), n) == Masked(f, Masked(m, n)) && Masked(Masked(f, m), m) == Masked(f, m)
  {
    hide And;
    forall k | 0 <= k < |f|
      ensures And(And(f[k], m[k]), n[k]) == And(f[k], And(m[k], n[k])) && And(And(f[k], m[k]), m[k]) == And(f[k], m[k])
    {
      AndLaws(f[k], m[k], n[k]);
    }
  }

  lemma MaskedBlank(f: seq<byte>)
    ensures Masked(f, Blank(|f|)) == f
  {
    hide And;
    forall k | 0 <= k < |f| ensures And(f[k], 0xFF) == f[k] {
      AndLaws(f[k], 0, 0);
    }
  }

  lemma WordMask(l: Layout, f: seq<byte>, a: nat, w: seq<byte>)
    requires l.Valid() && |f| == l.size && a < WORD32 && |w| == 4
    ensures WriteWord(l, f, a, w) == Masked(f, WriteWord(l, Blank(l.size), a, w))
  {
    hide And, OnPage;
    LayoutWords(l);
    MaskedBlank(f);
    if l.Writable(Kva(a)) {
      var i := Kva(a) - l.base;
      forall k | 0 <= k < |f| ensures ProgramWord(f, i, w)[k] == And(f[k], ProgramWord(Blank(l.size), i, w)[k]) {
        AndLaws(f[k], 0, 0);
        AndLaws(w[k % 4], 0, 0);
      }
    }
  }

  lemma {:induction false} DataMask(l: Layout, f: seq<byte>, a: nat, data: seq<byte>)
    requires l.Valid() && |f| == l.size && a < WORD32
    ensures WriteData(l, f, a, data) == Masked(f, WriteData(l, Blank(l.size), a, data))
    decreases |data|
  {
    hide WriteWord, Layout.Valid, WordOf, And, Masked, Blank;
    if data == [] {
      MaskedBlank(f);
    } else {
      var a', rest, w := (a + 4) % WORD32, AfterWord(data), WordOf(data);
      var m := WriteWord(l, Blank(l.size), a, w);
      WordMask(l, f, a, w);
      DataMask(l, Masked(f, m), a', rest);
      DataMask(l, m, a', rest);
      MaskedTwice(f, m, WriteData(l, Blank(l.size), a', rest));
    }
  }

  /** What a record would do to erased flash, with the same extended addresses. */
  function OnBlank(l: Layout, d: Image): Image {
    d.(flash := Blank(l.size))
  }

  lemma RecordMask(l: Layout, d: Image, r: seq<byte>)
    requires l.Valid() && |d.flash| == l.size && Complete(r)
    ensures var b := ApplyRecord(l, OnBlank(l, d), r);
            ApplyRecord(l, d, r) == b.(flash := Masked(d.flash, b.flash))
  {
    hide WriteData, Layout.Valid, Decode, Complete, Checksum, Masked, Blank;
    MaskedBlank(d.flash);
    var rec := Decode(r);
    if rec.DataAt? {
      DataMask(l, d.flash, (rec.offset + d.lin + d.seg) % WORD32, rec.data);
    }
  }

  /** Records mask the flash, whatever it holds, by what they would leave on erased flash. */
  lemma {:induction false} RecordsMask(l: Layout, d: Image, recs: seq<seq<byte>>)
    requires l.Valid() && |d.flash| == l.size && forall k :: 0 <= k < |recs| ==> Complete(recs[k])
    ensures var b := ApplyAll(l, OnBlank(l, d), recs);
            ApplyAll(l, d, recs) == b.(flash := Masked(d.flash, b.flash))
    decreases |recs|
  {
    hide ApplyRecord, Layout.Valid, Complete, Masked, Blank;
    if recs == [] {
      MaskedBlank(d.flash);
    } else {
      var b := ApplyRecord(l, OnBlank(l, d), recs[0]);
      RecordMask(l, d, recs[0]);
      RecordsMask(l, b.(flash := Masked(d.flash, b.flash)), recs[1..]);
      RecordsMask(l, b, recs[1..]);
      MaskedTwice(d.flash, b.flash, ApplyAll(l, OnBlank(l, b), recs[1..]).flash);
    }
  }

  // ---------------------------------------------------------------- a batch once more

  /** The record sets the extended addresses: address, end-of-file and unknown records with a right checksum. */
  predicate SetsAddress(r: seq<byte>)
    requires Complete(r)
  {
    Checksum(r) == 0 && !Decode(r).DataAt?
  }

  function FirstAddress(recs: seq<seq<byte>>): (n: nat)
    requires forall k :: 0 <= k < |recs| ==> Complete(recs[k])
    ensures n <= |recs| && (n < |recs| ==> SetsAddress(recs[n])) && forall k :: 0 <= k < n ==> !SetsAddress(recs[k])
  {
    if recs == [] || SetsAddress(recs[0]) then 0 else 1 + FirstAddress(recs[1..])
  }

  /** How many records of a batch may find other extended addresses the second time: those before the
      first that sets them, none if none does. */
  function Lead(recs: seq<seq<byte>>): (n: nat)
    requires forall k :: 0 <= k < |recs| ==> Complete(recs[k])
    ensures n <= |recs| && forall k :: 0 <= k < n ==> !SetsAddress(recs[k])
  {
    if FirstAddress(recs) == |recs| then 0 else FirstAddress(recs)
  }

  lemma {:induction false} DataKeepsAddresses(l: Layout, d: Image, recs: seq<seq<byte>>)
    requires l.Valid() && |d.flash| == l.size
    requires forall k :: 0 <= k < |recs| ==> Complete(recs[k]) && !SetsAddress(recs[k])
    ensures var d' := ApplyAll(l, d, recs); d'.seg == d.seg && d'.lin == d.lin
    decreases |recs|
  {
    hide WriteData, Layout.Valid, Decode, Complete, Checksum;
    if recs != [] {
      DataKeepsAddresses(l, ApplyRecord(l, d, recs[0]), recs[1..]);
    }
  }

  /** A record that sets the extended addresses makes what was set before irrelevant. */
  lemma SameOnBlank(l: Layout, d: Image, d': Image, recs: seq<seq<byte>>)
    requires l.Valid() && |d.flash| == |d'.flash| == l.size && forall k :: 0 <= k < |recs| ==> Complete(recs[k])
    requires (d'.seg == d.seg && d'.lin == d.lin) || (recs != [] && SetsAddress(recs[0]))
    ensures ApplyAll(l, OnBlank(l, d'), recs) == ApplyAll(l, OnBlank(l, d), recs)
  {
    hide WriteData, Layout.Valid, Decode, Complete, Checksum, Blank;
  }

  /** Repeating records that find the same extended addresses, or set them first, changes nothing more. */
  lemma RepeatAbsorbed(l: Layout, d: Image, e: Image, recs: seq<seq<byte>>, mask: seq<byte>)
    requires l.Valid() && |d.flash| == |e.flash| == |mask| == l.size && forall k :: 0 <= k < |recs| ==> Complete(recs[k])
    requires (e.seg == d.seg && e.lin == d.lin) || (recs != [] && SetsAddress(recs[0]))
    requires e.flash == Masked(ApplyAll(l, d, recs).flash, mask)
    ensures ApplyAll(l, e, recs) == ApplyAll(l, d, recs).(flash := e.flash)
  {
    hide ApplyRecord, Layout.Valid, Complete, Masked, Blank, SetsAddress, ApplyAll;
    RecordsMask(l, d, recs);
    RecordsMask(l, e, recs);
    SameOnBlank(l, d, e, recs);
    MaskAbsorbed(d.flash, ApplyAll(l, OnBlank(l, d), recs).flash, mask);
  }

  lemma MaskAbsorbed(f: seq<byte>, m: seq<byte>, n: seq<byte>)
    requires |f| == |m| == |n|
    ensures Masked(Masked(Masked(f, m), n), m) == Masked(Masked(f, m), n)
    ensures Masked(Masked(f, m), n) == f ==> Masked(f, m) == f
  {
    hide And;
    var once := Masked(f, m);
    forall k | 0 <= k < |f| ensures And(And(And(f[k], m[k]), n[k]), m[k]) == And(And(f[k], m[k]), n[k]) {
      AndAbsorbs(f[k], m[k], n[k]);
    }
    if Masked(once, n) == f {
      forall k | 0 <= k < |f| ensures once[k] == f[k] {
        AndAbsorbs(f[k], m[k], n[k]);
        assert Masked(once, n)[k] == f[k];
      }
    }
  }

  lemma AndAbsorbs(a: byte, b: byte, c: byte)
    ensures And(And(And(a, b), c), b) == And(And(a, b), c)
    ensures And(And(a, b), c) == a ==> And(a, b) == a
  {
  }

  /** A batch once more does what its leading records alone do. */
  lemma RepeatIsLead(l: Layout, d: Image, recs: seq<seq<byte>>)
    requires l.Valid() && |d.flash| == l.size && forall k :: 0 <= k < |recs| ==> Complete(recs[k])
    ensures var d' := ApplyAll(l, d, recs); ApplyAll(l, d', recs) == ApplyAll(l, d', recs[..Lead(recs)])
  {
    hide ApplyRecord, Layout.Valid, Complete, Masked, Blank, SetsAddress;
    var n, d' := FirstAddress(recs), ApplyAll(l, d, recs);
    if n == |recs| {
      DataKeepsAddresses(l, d, recs);
      MaskedBlank(d'.flash);
      RepeatAbsorbed(l, d, d', recs, Blank(l.size));
    } else {
      var lead, rest := recs[..n], recs[n..];
      assert recs == lead + rest && rest[0] == recs[n];
      var d1, e1 := ApplyAll(l, d, lead), ApplyAll(l, d', lead);
      ApplyAllConcat(l, d, lead, rest);
      ApplyAllConcat(l, d', lead, rest);
      DataKeepsAddresses(l, d', lead);
      RecordsMask(l, d', lead);
      RepeatAbsorbed(l, d1, e1, rest, ApplyAll(l, OnBlank(l, d'), lead).flash);
    }
  }

  /** Data records together change nothing exactly if none of them does. */
  lemma {:induction false} NothingNew(l: Layout, d: Image, recs: seq<seq<byte>>)
    requires l.Valid() && |d.flash| == l.size
    requires forall k :: 0 <= k < |recs| ==> Complete(recs[k]) && !SetsAddress(recs[k])
    ensures ApplyAll(l, d, recs) == d <==> forall k :: 0 <= k < |recs| ==> ApplyRecord(l, d, recs[k]) == d
    decreases |recs|
  {
    hide ApplyRecord, Layout.Valid, Complete, Masked, Blank, SetsAddress;
    if recs != [] {
      var d1, rest := ApplyRecord(l, d, recs[0]), recs[1..];
      OneAddressKept(l, d, recs[0]);
      RecordMask(l, d, recs[0]);
      RecordsMask(l, d1, rest);
      MaskAbsorbed(d.flash, ApplyRecord(l, OnBlank(l, d), recs[0]).flash, ApplyAll(l, OnBlank(l, d1), rest).flash);
      NothingNew(l, d, rest);
      assert d1 == d ==> ApplyAll(l, d, recs) == ApplyAll(l, d, rest);
      assert forall k :: 0 < k < |recs| ==> recs[k] == rest[k - 1];
      assert ApplyAll(l, d, recs) == d ==> d1 == d;
    }
  }

  lemma OneAddressKept(l: Layout, d: Image, r: seq<byte>)
    requires l.Valid() && |d.flash| == l.size && Complete(r) && !SetsAddress(r)
    ensures var d' := ApplyRecord(l, d, r); d'.seg == d.seg && d'.lin == d.lin
  {
    hide WriteData, Layout.Valid, Decode, Complete, Checksum;
  }

  /** Whether any of the leading records would write something new at the extended addresses of the end. */
  predicate LeadWritten(l: Layout, d: Image, recs: seq<seq<byte>>)
    requires l.Valid() && |d.flash| == l.size && forall k :: 0 <= k < |recs| ==> Complete(recs[k])
  {
    forall k :: 0 <= k < Lead(recs) ==> ApplyRecord(l, d, recs[k]) == d
  }

  /** A batch may be repeated exactly if its leading records find the flash already written at the
      extended addresses that the batch leaves. */
  lemma RepeatHarmless(l: Layout, d: Image, recs: seq<seq<byte>>)
    requires l.Valid() && |d.flash| == l.size && forall k :: 0 <= k < |recs| ==> Complete(recs[k])
    ensures var d' := ApplyAll(l, d, recs); ApplyAll(l, d', recs) == d' <==> LeadWritten(l, d', recs)
  {
    hide ApplyRecord, ApplyAll, Layout.Valid, Complete, SetsAddress;
    var d', lead := ApplyAll(l, d, recs), recs[..Lead(recs)];
    RepeatIsLead(l, d, recs);
    NothingNew(l, d', lead);
    assert forall k :: 0 <= k < Lead(recs) ==> lead[k] == recs[k];
  }

  /** In terms of frames: a repeated PROGRAM_FLASH frame leaves the device as it was under the same condition. */
  lemma RepeatedFrameHarmless(l: Layout, aes: Cipher, s: Commands.Boot, batch: seq<seq<byte>>, stale: seq<byte>, stale': seq<byte>)
    requires Commands.Settled(l, s) && |stale| >= 17 && |stale'| >= 17
    requires forall k :: 0 <= k < |batch| ==> Complete(batch[k])
    ensures var body := Update.ProgramBody(batch);
            && Update.Takes(l, body, stale) && Update.Takes(l, body, stale')
            && var s' := Update.HandleBody(l, aes, s, body, stale).0;
            && Commands.Settled(l, s') && (Update.HandleBody(l, aes, s', body, stale').0 == s' <==> LeadWritten(l, s'.img, batch))
  {
    hide Update.Takes, Update.HandleBody, Update.ProgramBody, Layout.Valid, Complete, ApplyAll, LeadWritten;
    Update.ProgramBatch(l, aes, s, batch, stale);
    var s' := s.(img := ApplyAll(l, s.img, batch));
    Update.ProgramBatch(l, aes, s', batch, stale');
    RepeatHarmless(l, s.img, batch);
  }

  // ---------------------------------------------------------------- a batch that must not be repeated

  /** A data record of one word at a writable address. */
  ghost predicate WordAt(l: Layout, r: seq<byte>, seg: nat, lin: nat, i: nat) {
    && Complete(r) && Checksum(r) == 0 && Decode(r).DataAt? && |Decode(r).data| == 4
    && var p := Start(seg, lin, Decode(r).offset);
    l.Writable(p) && p == l.base + i && i < l.size && i % 4 == 0
  }

  lemma OneWordRecord(l: Layout, d: Image, r: seq<byte>, i: nat)
    requires l.Valid() && |d.flash| == l.size && WordAt(l, r, d.seg, d.lin, i)
    ensures l.size % 4 == 0 && ApplyRecord(l, d, r) == d.(flash := ProgramWord(d.flash, i, Decode(r).data))
  {
    hide ProgramWord, OnPage, Checksum, Complete, Decode;
    var data, a := Decode(r).data, (Decode(r).offset + d.lin + d.seg) % WORD32;
    assert WordOf(data) == data && AfterWord(data) == [];
    var f := ProgramWord(d.flash, i, data);
    assert WriteData(l, d.flash, a, data) == WriteData(l, f, (a + 4) % WORD32, []);
    WriteNothing(l, f, (a + 4) % WORD32);
  }

  lemma AddressRecord(l: Layout, d: Image, r: seq<byte>)
    requires l.Valid() && |d.flash| == l.size && Complete(r) && Checksum(r) == 0 && Decode(r).Linear?
    ensures ApplyRecord(l, d, r) == Image(d.flash, 0, Decode(r).address)
  {
  }

  /** Data, and after it a new extended address, are written at the new address when they are repeated. */
  lemma RepeatWritesElsewhere(l: Layout, d: Image, r: seq<byte>, s: seq<byte>, i: nat, j: nat)
    requires l.Valid() && |d.flash| == l.size && Complete(s) && Checksum(s) == 0 && Decode(s).Linear?
    requires WordAt(l, r, d.seg, d.lin, i) && WordAt(l, r, 0, Decode(s).address, j) && i != j
    requires Decode(r).data[0] == 0 && d.flash[j] == 0xFF
    ensures var d' := ApplyAll(l, d, [r, s]); ApplyAll(l, d', [r, s]) != d'
  {
    hide Layout.Valid, Checksum, Decode, ProgramWord, OnPage, ApplyRecord, ApplyAll;
    var data := Decode(r).data;
    OneWordRecord(l, d, r, i);
    TwoRecords(l, d, r, s);
    var f1 := ProgramWord(d.flash, i, data);
    AddressRecord(l, d.(flash := f1), s);
    var d' := Image(f1, 0, Decode(s).address);
    OneWordRecord(l, d', r, j);
    TwoRecords(l, d', r, s);
    AddressRecord(l, d'.(flash := ProgramWord(f1, j, data)), s);
    FirstByteCleared(d.flash, i, j, data);
  }

  lemma FirstByteCleared(f: seq<byte>, i: nat, j: nat, data: seq<byte>)
    requires i < |f| && j < |f| && |f| % 4 == 0 && |data| == 4 && i % 4 == 0 == j % 4 && i != j
    requires f[j] == 0xFF && data[0] == 0
    ensures var f1 := ProgramWord(f, i, data); f1[j] == 0xFF && ProgramWord(f1, j, data)[j] == 0
  {
    hide And;
    AndErased(data[0]);
    assert j / 4 != i / 4 && j % 4 == 0;
    var f1 := ProgramWord(f, i, data);
    assert f1[j] == f[j];
    assert ProgramWord(f1, j, data)[j] == And(f1[j], data[j % 4]);
  }

  /** Four zero bytes at offset 0x8000, and the extended linear address 0x1D01_0000. */
  const ZEROS: seq<byte> := [4, 0x80, 0, 0, 0, 0, 0, 0, 0x7C]
  const ADDRESS: seq<byte> := [2, 0, 0, 4, 0x1D, 1, 0xDC]

  lemma {:induction false} ChecksumOf(r: seq<byte>, i: nat)
    requires i < |r|
    ensures Checksum(r[i..]) == Add8(r[i], Checksum(r[i + 1..]))
  {
    assert r[i..][1..] == r[i + 1..];
  }

  lemma RecordsRight()
    ensures Complete(ZEROS) && Checksum(ZEROS) == 0 && Decode(ZEROS) == DataAt(0x8000, [0, 0, 0, 0])
    ensures Complete(ADDRESS) && Checksum(ADDRESS) == 0 && Decode(ADDRESS) == Linear(0x1D01_0000)
  {
    ZerosSum();
    AddressSum();
    hide Checksum;
    assert ZEROS[4..8] == [0, 0, 0, 0];
  }

  lemma ZerosSum()
    ensures Checksum(ZEROS) == 0
  {
    hide Checksum;
    assert ZEROS[0..] == ZEROS && ZEROS[9..] == [];
    ChecksumNothing();
    ChecksumOf(ZEROS, 8);
    ChecksumOf(ZEROS, 7);
    ChecksumOf(ZEROS, 6);
    ChecksumOf(ZEROS, 5);
    ChecksumOf(ZEROS, 4);
    ChecksumOf(ZEROS, 3);
    ChecksumOf(ZEROS, 2);
    ChecksumOf(ZEROS, 1);
    ChecksumOf(ZEROS, 0);
  }

  lemma AddressSum()
    ensures Checksum(ADDRESS) == 0
  {
    hide Checksum;
    assert ADDRESS[0..] == ADDRESS && ADDRESS[7..] == [];
    ChecksumNothing();
    ChecksumOf(ADDRESS, 6);
    ChecksumOf(ADDRESS, 5);
    ChecksumOf(ADDRESS, 4);
    ChecksumOf(ADDRESS, 3);
    ChecksumOf(ADDRESS, 2);
    ChecksumOf(ADDRESS, 1);
    ChecksumOf(ADDRESS, 0);
  }

  lemma ChecksumNothing()
    ensures Checksum([]) == 0
  {
  }

  lemma ZerosPlaced(lin: nat, i: nat)
    requires (lin == 0x1D00_0000 && i == 0x8000) || (lin == 0x1D01_0000 && i == 0x1_8000)
    ensures WordAt(PIC32MX440F256H, ZEROS, 0, lin, i)
  {
    hide Checksum, Decode, Complete;
    RecordsRight();
    assert Start(0, lin, 0x8000) == 0x9D00_0000 + i;
  }

  /** On an erased PIC32MX440F256H at the extended address 0x1D00_0000, this batch writes the zeros a second
      time, 64 KB higher, when its frame is repeated. */
  lemma ZerosTwice()
    ensures PIC32MX440F256H.Valid() && Complete(ZEROS) && Complete(ADDRESS)
    ensures var l := PIC32MX440F256H;
            var d := Image(Blank(l.size), 0, 0x1D00_0000);
            var d' := ApplyAll(l, d, [ZEROS, ADDRESS]);
            ApplyAll(l, d', [ZEROS, ADDRESS]) != d'
  {
    hide Checksum, Decode, ApplyAll, Complete, Layout.Valid, WordAt, Blank;
    RecordsRight();
    LayoutIsValid();
    ZerosPlaced(0x1D00_0000, 0x8000);
    ZerosPlaced(0x1D01_0000, 0x1_8000);
    BlankAt(0x4_0000, 0x1_8000);
    RepeatWritesElsewhere(PIC32MX440F256H, Image(Blank(0x4_0000), 0, 0x1D00_0000), ZEROS, ADDRESS, 0x8000, 0x1_8000);
  }

  lemma BlankAt(n: nat, k: nat)
    requires k < n
    ensures Blank(n)[k] == 0xFF
  {
  }
}
