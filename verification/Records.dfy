/** What a hex record does, byte by byte, on the device and in the image of the PC. */
module Records {
  import opened Crc16
  import opened Flash
  import opened HostImage

  // ---------------------------------------------------------------- checksum and addresses

  function Sum(r: seq<byte>): nat {
    if r == [] then 0 else r[0] as nat + Sum(r[1..])
  }

  /** The checksum is right if the bytes of the record, with it, sum up to a multiple of 256. */
  lemma {:induction false} ChecksumIsSum(r: seq<byte>)
    ensures Checksum(r) as nat == Sum(r) % 0x100
  {
    if r != [] {
      ChecksumIsSum(r[1..]);
      AddIsSum(r[0], Checksum(r[1..]));
      SumModulo(r[0] as nat, Sum(r[1..]));
    }
  }

  function Value(b: byte): nat {
    b as nat
  }

  lemma Increment(a: byte)
    ensures Value(Add8(a, 1)) == if Value(a) == 0xFF then 0 else Value(a) + 1
    ensures Value(a) <= 0xFF
  {
  }

  lemma Decrement(a: byte, b: byte) returns (b': byte)
    requires b != 0
    ensures Value(b) == Value(b') + 1 && Add8(a, b) == Add8(Add8(a, b'), 1)
  {
    b' := b - 1;
  }

  lemma {:induction false} AddIsSum(a: byte, b: byte)
    ensures Value(Add8(a, b)) == (Value(a) + Value(b)) % 0x100
    decreases Value(b)
  {
    hide Value, Add8;
    if b == 0 {
      AddZero(a);
    } else {
      var b' := Decrement(a, b);
      AddIsSum(a, b');
      Increment(Add8(a, b'));
      NextModulo(Value(a) + Value(b'));
    }
  }

  lemma NextModulo(n: nat)
    ensures (n + 1) % 0x100 == if n % 0x100 == 0xFF then 0 else n % 0x100 + 1
  {
  }

  lemma AddZero(a: byte)
    ensures Add8(a, 0) == a && Value(a) < 0x100 && Value(0) == 0
  {
  }

  lemma SumModulo(a: nat, n: nat)
    ensures (a + n % 0x100) % 0x100 == (a + n) % 0x100
  {
  }

  /** PA_TO_KVA0 sets the top bit. */
  lemma KvaSetsTopBit(a: bv32)
    ensures Kva(a as nat) == (a | 0x8000_0000) as nat
  {
    hide Kva;
    KvaIs(a as nat);
    if a < 0x8000_0000 {
      TopBitClear(a);
    } else {
      TopBitSet(a);
    }
  }

  lemma KvaIs(a: nat)
    requires a < WORD32
    ensures Kva(a) == if a < KVA0 then a + KVA0 else a
  {
  }

  lemma TopBitSet(a: bv32)
    requires a >= 0x8000_0000
    ensures a as nat >= 0x8000_0000 && a | 0x8000_0000 == a
  {
  }

  lemma TopBitClear(a: bv32)
    requires a < 0x8000_0000
    ensures (a | 0x8000_0000) as nat == a as nat + 0x8000_0000 && a as nat < 0x8000_0000
  {
    assert a | 0x8000_0000 == a + 0x8000_0000;
  }

  // ---------------------------------------------------------------- records

  /** A record as it stands in a file: length, address, type, data, checksum. */
  function Record(hi: byte, lo: byte, kind: byte, data: seq<byte>, checksum: byte): (r: seq<byte>)
    requires |data| < 0x100
  {
    [Byte(|data|), hi, lo, kind] + data + [checksum]
  }

  lemma RecordParts(hi: byte, lo: byte, kind: byte, data: seq<byte>, checksum: byte)
    requires |data| < 0x100
    ensures var r := Record(hi, lo, kind, data, checksum);
            && |r| == |data| + 5 && r[0] as nat == |data| && r[1] == hi && r[2] == lo && r[3] == kind
            && r[4..|r| - 1] == data && (|data| >= 2 ==> r[4] == data[0] && r[5] == data[1])
  {
    DataBetween([Byte(|data|), hi, lo, kind], data, checksum);
  }

  lemma DataBetween(front: seq<byte>, data: seq<byte>, checksum: byte)
    requires |front| == 4
    ensures var r := front + data + [checksum];
            r[4..|r| - 1] == data && r[..4] == front && (|data| >= 2 ==> r[4] == data[0] && r[5] == data[1])
  {
  }

  /** A right data record on erased words of the application area copies its data to the address that its
      own 16 bits, high byte first, and the extended addresses add up to; nothing else changes. The PC
      copies the same bytes to the same place of its image. */
  lemma DataRecordStored(l: Layout, d: Image, hi: byte, lo: byte, data: seq<byte>, checksum: byte)
    requires l.Valid() && |d.flash| == l.size && |data| < 0x100
    requires Sum(Record(hi, lo, 0, data, checksum)) % 0x100 == 0
    requires var a := (0x100 * (hi as nat) + lo as nat + d.lin + d.seg) % WORD32;
             Placed(l, a, |data|) && l.base <= Kva(a) && ErasedRun(d.flash, Kva(a) - l.base, |data|)
    ensures var r, p := Record(hi, lo, 0, data, checksum), Kva((0x100 * (hi as nat) + lo as nat + d.lin + d.seg) % WORD32);
            && Complete(r) && p - l.base + |data| <= l.size
            && ApplyRecord(l, d, r) == d.(flash := Overwritten(d.flash, p - l.base, data))
  {
    hide WriteData, Placed, ErasedRun, Overwritten, Layout.Valid, Checksum, Sum, Kva, Record;
    var r := Record(hi, lo, 0, data, checksum);
    ChecksumIsSum(r);
    RecordParts(hi, lo, 0, data, checksum);
    var a := (0x100 * (hi as nat) + lo as nat + d.lin + d.seg) % WORD32;
    PlacedInside(l, a, |data|);
    WriteDataErased(l, d.flash, a, data);
  }

  lemma PlacedInside(l: Layout, a: nat, n: nat)
    requires l.Valid() && Placed(l, a, n)
    ensures Kva(a) + n <= l.base + l.size
  {
    hide OnPage;
  }

  lemma DataRecordCopied(l: Layout, h: Host, hi: byte, lo: byte, data: seq<byte>, checksum: byte)
    requires |data| < 0x100
    requires var p := Kva((0x100 * (hi as nat) + lo as nat + h.lin + h.seg) % WORD32);
             !Skipped(l, p) && l.base <= p && p + |data| <= l.base + |h.image|
    ensures var r, p := Record(hi, lo, 0, data, checksum), Kva((0x100 * (hi as nat) + lo as nat + h.lin + h.seg) % WORD32);
            && Complete(r) && CopyFits(l, h, Decode(r))
            && HostRecord(l, h, Decode(r)).image == Overwritten(h.image, p - l.base, data)
            && HostRecord(l, h, Decode(r)).seg == h.seg && HostRecord(l, h, Decode(r)).lin == h.lin
  {
    hide Overwritten, Kva, Skipped, Record;
    RecordParts(hi, lo, 0, data, checksum);
  }

  /** The extended addresses that a right record of another type leaves, from its first two data bytes: type 02
      counts them in units of 256, type 04 in units of 65536, and every other type resets both. */
  lemma AddressRecordSets(l: Layout, d: Image, h: Host, hi: byte, lo: byte, kind: byte, data: seq<byte>, checksum: byte)
    requires l.Valid() && |d.flash| == l.size && |data| < 0x100 && kind != 0 && (kind == 2 || kind == 4 ==> |data| >= 2)
    requires Sum(Record(hi, lo, kind, data, checksum)) % 0x100 == 0
    ensures var r := Record(hi, lo, kind, data, checksum);
            var n := if |data| >= 2 then 0x100 * (data[0] as nat) + data[1] as nat else 0;
            var seg, lin := if kind == 2 then 0x100 * n else 0, if kind == 4 then 0x1_0000 * n else 0;
            && Complete(r) && ApplyRecord(l, d, r) == Image(d.flash, seg, lin)
            && CopyFits(l, h, Decode(r)) && HostRecord(l, h, Decode(r)) == h.(seg := seg, lin := lin)
  {
    hide Layout.Valid, Checksum, Sum, Record;
    ChecksumIsSum(Record(hi, lo, kind, data, checksum));
    RecordParts(hi, lo, kind, data, checksum);
  }

  /** A record whose sum is not a multiple of 256 changes nothing on the device. */
  lemma WrongSumDropped(l: Layout, d: Image, r: seq<byte>)
    requires l.Valid() && |d.flash| == l.size && Complete(r) && Sum(r) % 0x100 != 0
    ensures ApplyRecord(l, d, r) == d
  {
    hide Layout.Valid, Checksum, Sum, Complete;
    ChecksumIsSum(r);
  }

  // ---------------------------------------------------------------- any address

  /** The checksum that belongs to the bytes of a record before it. */
  function ChecksumFor(r: seq<byte>): byte {
    Byte((0x100 - Sum(r) % 0x100) % 0x100)
  }

  /** A type 04 record for the upper half of an address, and a data record for its lower half. */
  function AddressRecordOf(a: nat): seq<byte>
    requires a < WORD32
  {
    var data: seq<byte> := [Byte(a / 0x100_0000), Byte(a / 0x1_0000 % 0x100)];
    Record(0, 0, 4, data, ChecksumFor([Byte(2), 0, 0, 4] + data))
  }

  function DataRecordOf(a: nat, data: seq<byte>): seq<byte>
    requires a < WORD32 && |data| < 0x100
  {
    var hi: byte, lo: byte := Byte(a / 0x100 % 0x100), Byte(a % 0x100);
    Record(hi, lo, 0, data, ChecksumFor([Byte(|data|), hi, lo, 0] + data))
  }

  lemma {:induction false} SumConcat(r: seq<byte>, c: byte)
    ensures Sum(r + [c]) == Sum(r) + c as nat
  {
    if r == [] {
      assert [c][1..] == [];
      assert Sum([c][1..]) == 0;
    } else {
      assert (r + [c])[1..] == r[1..] + [c];
      SumConcat(r[1..], c);
    }
  }

  lemma ChecksumFits(r: seq<byte>)
    ensures Sum(r + [ChecksumFor(r)]) % 0x100 == 0
  {
    hide Sum, Byte;
    SumConcat(r, ChecksumFor(r));
    var n, q := Sum(r) % 0x100, Sum(r) / 0x100;
    assert Sum(r) == 0x100 * q + n;
    if n != 0 {
      MultipleOf(Sum(r) + (0x100 - n), q + 1);
    }
  }

  lemma MultipleOf(x: nat, q: nat)
    requires x == 0x100 * q
    ensures x % 0x100 == 0
  {
  }

  lemma UpperDigits(a: nat)
    requires a < WORD32
    ensures 0x100 * (a / 0x100_0000) + a / 0x1_0000 % 0x100 == a / 0x1_0000 && a / 0x100_0000 < 0x100
  {
    assert a / 0x1_0000 / 0x100 == a / 0x100_0000;
  }

  lemma LowerDigits(a: nat)
    ensures 0x1_0000 * (a / 0x1_0000) + 0x100 * (a / 0x100 % 0x100) + a % 0x100 == a
  {
    assert a / 0x100 / 0x100 == a / 0x1_0000;
  }

  lemma UpperHalfSet(l: Layout, d: Image, a: nat)
    requires l.Valid() && |d.flash| == l.size && a < WORD32
    ensures var r := AddressRecordOf(a); Complete(r) && ApplyRecord(l, d, r) == Image(d.flash, 0, 0x1_0000 * (a / 0x1_0000))
  {
    hide Layout.Valid, Sum, ChecksumFor, Complete, ApplyRecord, Record, Byte, CopyFits, HostRecord, Decode;
    UpperDigits(a);
    var data: seq<byte> := [Byte(a / 0x100_0000), Byte(a / 0x1_0000 % 0x100)];
    RecordIs(0, 0, 4, data);
    ChecksumFits([Byte(2), 0, 0, 4] + data);
    AddressRecordSets(l, d, HostStart(0, 0), 0, 0, 4, data, ChecksumFor([Byte(2), 0, 0, 4] + data));
  }

  lemma LowerHalfStored(l: Layout, d: Image, a: nat, data: seq<byte>)
    requires l.Valid() && |d.flash| == l.size && |data| < 0x100 && a < WORD32 && d.lin + d.seg == 0x1_0000 * (a / 0x1_0000)
    requires Placed(l, a, |data|) && l.base <= Kva(a) && ErasedRun(d.flash, Kva(a) - l.base, |data|)
    ensures var r := DataRecordOf(a, data);
            && Complete(r) && Kva(a) - l.base + |data| <= l.size
            && ApplyRecord(l, d, r) == d.(flash := Overwritten(d.flash, Kva(a) - l.base, data))
  {
    hide Layout.Valid, Placed, ErasedRun, Overwritten, Kva, Sum, ChecksumFor, Complete, ApplyRecord, Record, Byte;
    LowerDigits(a);
    var hi: byte, lo: byte := Byte(a / 0x100 % 0x100), Byte(a % 0x100);
    var b := [Byte(|data|), hi, lo, 0] + data;
    RecordIs(hi, lo, 0, data);
    ChecksumFits(b);
    DataRecordStored(l, d, hi, lo, data, ChecksumFor(b));
  }

  /** So every physical address is reached by a pair of records, whatever extended addresses were set before. */
  lemma AnyAddressStored(l: Layout, d: Image, a: nat, data: seq<byte>)
    requires l.Valid() && |d.flash| == l.size && |data| < 0x100 && a < WORD32
    requires Placed(l, a, |data|) && l.base <= Kva(a) && ErasedRun(d.flash, Kva(a) - l.base, |data|)
    ensures var r, s := AddressRecordOf(a), DataRecordOf(a, data);
            && Complete(r) && Complete(s) && Kva(a) - l.base + |data| <= l.size
            && ApplyAll(l, d, [r, s]).flash == Overwritten(d.flash, Kva(a) - l.base, data)
  {
    hide Layout.Valid, Placed, ErasedRun, Overwritten, Kva, Complete, ApplyRecord, ApplyAll, AddressRecordOf, DataRecordOf;
    UpperHalfSet(l, d, a);
    LowerHalfStored(l, ApplyRecord(l, d, AddressRecordOf(a)), a, data);
    TwoRecords(l, d, AddressRecordOf(a), DataRecordOf(a, data));
  }

  lemma RecordIs(hi: byte, lo: byte, kind: byte, data: seq<byte>)
    requires |data| < 0x100
    ensures var b := [Byte(|data|), hi, lo, kind] + data;
            Record(hi, lo, kind, data, ChecksumFor(b)) == b + [ChecksumFor(b)]
  {
    hide ChecksumFor;
  }
}
