/** The DLE-stuffed frames between the PC and the device: the transmitters, the receivers, and what
    a stream of bytes delivers. */
module Framing {
  import opened Crc16

  const SOH: byte := 1
  const EOT: byte := 4
  const DLE: byte := 16

  predicate IsControl(b: byte) {
    b == EOT || b == SOH || b == DLE
  }

  function StuffByte(b: byte): seq<byte> {
    if IsControl(b) then [DLE, b] else [b]
  }

  function Stuff(data: seq<byte>): seq<byte> {
    if data == [] then [] else StuffByte(data[0]) + Stuff(data[1..])
  }

  function LowByte(w: bv16): byte {
    (w & 0xFF) as byte
  }

  function HighByte(w: bv16): byte {
    (w >> 8) as byte
  }

  function Word(lo: byte, hi: byte): bv16 {
    lo as bv16 | ((hi as bv16) << 8)
  }

  lemma BytesOfWord(lo: byte, hi: byte)
    ensures LowByte(Word(lo, hi)) == lo && HighByte(Word(lo, hi)) == hi
  {
  }

  lemma WordOfItsBytes(w: bv16)
    ensures Word(LowByte(w), HighByte(w)) == w
  {
  }

  /** The CRC of a body as it is appended: low byte first. */
  function CrcBytes(body: seq<byte>): seq<byte> {
    [LowByte(Crc(body)), HighByte(Crc(body))]
  }

  function Frame(body: seq<byte>): seq<byte> {
    [SOH] + Stuff(body + CrcBytes(body)) + [EOT]
  }

  /** The frame of the shortest command: 1 and its CRC 0x1021, low byte first, in which 0x01 and 0x10 are escaped. */
  lemma ShortestFrame()
    ensures Crc([1]) == 0x1021
    ensures Frame([1]) == [0x01, 0x10, 0x01, 0x21, 0x10, 0x10, 0x04]
  {
    assert [1 as byte][1..] == [];
    assert NibbleStep(0, 0) == 0 && NibbleStep(0, 1) == 0x1021;
    assert Crc([1]) == CrcFrom(ByteStep(0, 1), []) == 0x1021;
    assert LowByte(0x1021) == 0x21 && HighByte(0x1021) == 0x10;
    hide Crc, LowByte, HighByte;
    assert [1 as byte] + CrcBytes([1]) == [0x01, 0x21, 0x10];
    StuffThree(0x01, 0x21, 0x10);
  }

  lemma StuffThree(a: byte, b: byte, c: byte)
    ensures Stuff([a, b, c]) == StuffByte(a) + StuffByte(b) + StuffByte(c)
  {
    hide StuffByte;
    assert [a, b, c][1..] == [b, c] && [b, c][1..] == [c] && [c][1..] == [];
    assert Stuff([c]) == StuffByte(c) + Stuff([]) == StuffByte(c);
    assert Stuff([b, c]) == StuffByte(b) + Stuff([c]);
  }

  // ---------------------------------------------------------------- receiver

  /** The receive buffer up to its length, the escape flag and the frame-valid flag. */
  datatype Rx = Rx(data: seq<byte>, escape: bool, valid: bool)

  /** The buffer holds more than a CRC, and the last two bytes are the CRC of what precedes them. */
  predicate Accepts(data: seq<byte>) {
    |data| > 2 && data[|data| - 2..] == CrcBytes(data[..|data| - 2])
  }

  function Body(data: seq<byte>): seq<byte>
    requires |data| > 2
  {
    data[..|data| - 2]
  }

  /** One received byte; the buffer starts over once it holds `cap` bytes. */
  function RxStep(s: Rx, b: byte, cap: nat): Rx {
    var data := if |s.data| >= cap then [] else s.data;
    if s.escape || !IsControl(b) then Rx(data + [b], false, s.valid)
    else if b == SOH then Rx([], false, s.valid)
    else if b == DLE then Rx(data, true, s.valid)
    else Rx(data, false, s.valid || Accepts(data))
  }

  /** A chunk of bytes: those after a completed frame are ignored. */
  function Feed(s: Rx, bytes: seq<byte>, cap: nat): Rx
    decreases |bytes|
  {
    if bytes == [] || s.valid then s else Feed(RxStep(s, bytes[0], cap), bytes[1..], cap)
  }

  lemma AcceptsByWord(data: seq<byte>)
    requires |data| > 1
    ensures var n := |data|; Accepts(data) <==> n > 2 && Crc(data[..n - 2]) == Word(data[n - 2], data[n - 1])
  {
    hide Crc, Word, LowByte, HighByte;
    var n := |data|;
    assert data[n - 2..] == [data[n - 2], data[n - 1]];
    BytesOfWord(data[n - 2], data[n - 1]);
    WordOfItsBytes(Crc(data[..n - 2]));
  }

  /** BuildRxFrame of the device (a buffer of 1000 bytes that wraps when full) and of the host
      (a buffer of 255 bytes that wraps two bytes earlier). */
  class Receiver {
    const data: array<byte>
    const cap: nat
    var len: nat
    var escape: bool
    var frameValid: bool

    constructor (size: nat, cap: nat)
      requires 0 < cap <= size
      ensures fresh(data) && data.Length == size && this.cap == cap
      ensures Fits() && State() == Rx([], false, false)
    {
      data := new byte[size];
      this.cap := cap;
      len, escape, frameValid := 0, false, false;
    }

    ghost predicate Fits()
      reads this
    {
      len <= cap <= data.Length && 0 < cap
    }

    ghost function State(): Rx
      requires Fits()
      reads this, data
    {
      Rx(data[..len], escape, frameValid)
    }

    method BuildRxFrame(bytes: seq<byte>)
      requires Fits()
      modifies this, data
      ensures Fits() && State() == Feed(old(State()), bytes, cap)
    {
      var k := 0;
      while k < |bytes| && !frameValid
        invariant Fits() && k <= |bytes|
        invariant Feed(State(), bytes[k..], cap) == Feed(old(State()), bytes, cap)
      {
        assert bytes[k..][1..] == bytes[k + 1..];
        ReceiveByte(bytes[k]);
        k := k + 1;
      }
    }

    /** The body of the loop of BuildRxFrame. */
    method ReceiveByte(b: byte)
      requires Fits()
      modifies this, data
      ensures Fits() && State() == RxStep(old(State()), b, cap)
    {
      hide CrcBytes;
      if len >= cap {
        len := 0;
      }
      if b == SOH {
        if escape {
          Append(b);
          escape := false;
        } else {
          len := 0;
        }
      } else if b == EOT {
        if escape {
          Append(b);
          escape := false;
        } else if len > 1 {
          var complete := CrcMatches();
          if complete {
            frameValid := true;
          }
        }
      } else if b == DLE {
        if escape {
          Append(b);
          escape := false;
        } else {
          escape := true;
        }
      } else {
        Append(b);
        escape := false;
      }
    }

    method CrcMatches() returns (complete: bool)
      requires 1 < len <= data.Length
      ensures complete == Accepts(data[..len])
    {
      hide Crc, Word;
      var crc := Word(data[len - 2], data[len - 1]);
      var calculated := CalculateCrc(data[..len - 2]);
      AcceptsByWord(data[..len]);
      assert data[..len][..len - 2] == data[..len - 2];
      complete := calculated == crc && len > 2;
    }

    method Append(b: byte)
      requires len < data.Length
      modifies data, this`len
      ensures len == old(len) + 1 && data[..len] == old(data[..len]) + [b]
    {
      data[len] := b;
      len := len + 1;
    }
  }

  // ---------------------------------------------------------------- transmitters

  /** GetTransmitFrame of the device. The loop counter is a UINT8, so the loop ends only if the
      length with the CRC fits in a byte. */
  method GetTransmitFrame(tx: array<byte>, len: nat, buff: array<byte>) returns (buffLen: nat, newLen: nat)
    requires len + 2 <= 255 && len + 2 <= tx.Length && 2 * (len + 2) + 2 <= buff.Length && tx != buff
    modifies tx, buff
    ensures newLen == 0 && buffLen <= buff.Length
    ensures buff[..buffLen] == if len == 0 then [] else Frame(old(tx[..len]))
  {
    hide Stuff, CrcBytes;
    buffLen, newLen := 0, len;
    if newLen > 0 {
      ghost var body := tx[..len];
      AppendCrc(tx, len);
      newLen := len + 2;
      Put(buff, 0, SOH);
      buffLen := StuffPacket(tx, newLen, buff, 256);
      Put(buff, buffLen, EOT);
      buffLen := buffLen + 1;
      newLen := 0;
    }
  }

  /** The end of the host's SendCommand: frame the command in buff[..len] for transmission. */
  method SendFrame(buff: array<byte>, len: nat, txPacket: array<byte>) returns (txPacketLen: nat)
    requires len + 2 <= buff.Length && 2 * (len + 2) + 2 <= txPacket.Length && buff != txPacket
    modifies buff, txPacket
    ensures txPacketLen <= txPacket.Length
    ensures txPacket[..txPacketLen] == Frame(old(buff[..len]))
  {
    hide Stuff, CrcBytes;
    ghost var body := buff[..len];
    AppendCrc(buff, len);
    Put(txPacket, 0, SOH);
    txPacketLen := StuffPacket(buff, len + 2, txPacket, len + 3);
    Put(txPacket, txPacketLen, EOT);
    txPacketLen := txPacketLen + 1;
  }

  method AppendCrc(buff: array<byte>, len: nat)
    requires len + 2 <= buff.Length
    modifies buff
    ensures buff[..len + 2] == old(buff[..len]) + CrcBytes(old(buff[..len]))
  {
    hide Crc, LowByte, HighByte;
    ghost var body := buff[..len];
    var crc := CalculateCrc(buff[..len]);
    Put(buff, len, LowByte(crc));
    Put(buff, len + 1, HighByte(crc));
    assert body + [LowByte(crc)] + [HighByte(crc)] == body + CrcBytes(body);
  }

  /** The stuffing loop: append packet[..n] to the SOH in out, each control byte after a DLE. The
      loop counter wraps at `wrap`. */
  method StuffPacket(packet: array<byte>, n: nat, out: array<byte>, wrap: nat) returns (outLen: nat)
    requires n < wrap && n <= packet.Length && 1 + 2 * n <= out.Length && packet != out
    modifies out
    ensures outLen <= 1 + 2 * n && out[..outLen] == old(out[..1]) + Stuff(packet[..n])
  {
    ghost var data, head, stuffed := packet[..n], out[..1], [];
    outLen := 1;
    var i := 0;
    while i < n
      invariant i <= n && |stuffed| <= 2 * i && outLen == 1 + |stuffed|
      invariant stuffed == Stuff(data[..i])
      invariant out[..outLen] == head + stuffed
    {
      StuffOneMore(data, i);
      hide Stuff;
      var b := packet[i];
      outLen := PutStuffed(out, outLen, b);
      stuffed := stuffed + StuffByte(b);
      assert out[..outLen] == head + stuffed;
      i := if i + 1 == wrap then 0 else i + 1;
    }
    assert data[..n] == data;
  }

  method PutStuffed(out: array<byte>, at: nat, b: byte) returns (next: nat)
    requires at + 2 <= out.Length
    modifies out
    ensures next == at + |StuffByte(b)| && out[..next] == old(out[..at]) + StuffByte(b)
  {
    next := at;
    if IsControl(b) {
      Put(out, next, DLE);
      next := next + 1;
    }
    Put(out, next, b);
    next := next + 1;
  }

  method Put(buff: array<byte>, at: nat, b: byte)
    requires at < buff.Length
    modifies buff
    ensures buff[..at + 1] == old(buff[..at]) + [b]
  {
    buff[at] := b;
  }

  lemma {:induction false} StuffConcat(a: seq<byte>, b: seq<byte>)
    ensures Stuff(a + b) == Stuff(a) + Stuff(b)
  {
    if a == [] {
      assert a + b == b;
    } else {
      assert (a + b)[1..] == a[1..] + b;
      StuffConcat(a[1..], b);
    }
  }

  lemma StuffOneMore(data: seq<byte>, i: nat)
    requires i < |data|
    ensures Stuff(data[..i + 1]) == Stuff(data[..i]) + StuffByte(data[i])
  {
    assert data[..i + 1] == data[..i] + [data[i]];
    StuffConcat(data[..i], [data[i]]);
  }

  // ---------------------------------------------------------------- stuffing and unstuffing

  /** The data bytes of a stuffed run, if it holds no frame boundary and no dangling escape. */
  function Unstuff(wire: seq<byte>): Option<seq<byte>> {
    if wire == [] then Some([])
    else if wire[0] == DLE then
      if |wire| == 1 then None else Cons(wire[1], Unstuff(wire[2..]))
    else if IsControl(wire[0]) then None
    else Cons(wire[0], Unstuff(wire[1..]))
  }

  datatype Option<+T> = None | Some(value: T)

  function Cons(b: byte, rest: Option<seq<byte>>): Option<seq<byte>> {
    if rest.None? then None else Some([b] + rest.value)
  }

  /** Only control bytes are escaped. */
  predicate Canonical(wire: seq<byte>) {
    if wire == [] then true
    else if wire[0] == DLE then |wire| > 1 && IsControl(wire[1]) && Canonical(wire[2..])
    else Canonical(wire[1..])
  }

  /** Stuffing and unstuffing undo each other, in both directions, on the canonical runs. */
  lemma {:induction false} UnstuffInverse(wire: seq<byte>, data: seq<byte>)
    ensures wire == Stuff(data) <==> Canonical(wire) && Unstuff(wire) == Some(data)
    decreases |wire| + |data|
  {
    if data == [] {
    } else if wire != [] {
      var n := |StuffByte(data[0])|;
      if wire[0] == DLE && |wire| > 1 {
        assert wire == [wire[0], wire[1]] + wire[2..];
        UnstuffInverse(wire[2..], data[1..]);
        assert data == [data[0]] + data[1..];
        assert Stuff(data)[n..] == Stuff(data[1..]);
      } else {
        assert wire == [wire[0]] + wire[1..];
        UnstuffInverse(wire[1..], data[1..]);
        assert data == [data[0]] + data[1..];
        assert Stuff(data)[n..] == Stuff(data[1..]);
      }
    }
  }

  // ---------------------------------------------------------------- what a receiver delivers

  /** Feeding bytes in chunks gives the same as feeding them at once. */
  lemma {:induction false} FeedChunks(s: Rx, a: seq<byte>, b: seq<byte>, cap: nat)
    ensures Feed(s, a + b, cap) == Feed(Feed(s, a, cap), b, cap)
    decreases |a|
  {
    hide RxStep;
    if a == [] {
      assert a + b == b;
    } else if !s.valid {
      assert (a + b)[1..] == a[1..] + b;
      FeedChunks(RxStep(s, a[0], cap), a[1..], b, cap);
    }
  }

  /** How many bytes the buffer holds after n more, when at most one wrap can happen. */
  function Filled(have: nat, n: nat, cap: nat): nat {
    if have + n <= cap then have + n else have + n - cap
  }

  /** In step with the escapes, a run without frame boundaries only adds its data to the buffer, also
      where it escapes bytes that need no escape. */
  lemma {:induction false} FeedUnstuffed(s: Rx, wire: seq<byte>, cap: nat)
    requires !s.valid && !s.escape && |s.data| <= cap && Unstuff(wire).Some? && |Unstuff(wire).value| < cap
    ensures var t, data := Feed(s, wire, cap), Unstuff(wire).value;
            && !t.valid && !t.escape && |t.data| == Filled(|s.data|, |data|, cap)
            && (|s.data| + |data| <= cap ==> t.data == s.data + data)
            && (|s.data| == cap && data != [] ==> t.data == data)
    decreases |wire|
  {
    hide Unstuff, Feed;
    if wire == [] {
      FeedNone(s, cap);
    } else {
      var data, n := Unstuff(wire).value, if wire[0] == DLE then 2 else 1;
      FeedOne(s, wire, cap);
      FeedUnstuffed(Rx(Kept(s, cap) + [data[0]], false, false), wire[n..], cap);
      assert s.data + data == s.data + [data[0]] + data[1..] && data == [data[0]] + data[1..];
    }
  }

  lemma FeedNone(s: Rx, cap: nat)
    ensures Feed(s, [], cap) == s && Unstuff([]) == Some([])
  {
  }

  function Kept(s: Rx, cap: nat): seq<byte> {
    if |s.data| >= cap then [] else s.data
  }

  /** The first data byte of such a run. */
  lemma FeedOne(s: Rx, wire: seq<byte>, cap: nat)
    requires !s.valid && !s.escape && 0 < cap && wire != [] && Unstuff(wire).Some?
    ensures var n := if wire[0] == DLE then 2 else 1;
            && n <= |wire| && Unstuff(wire).value != [] && Unstuff(wire[n..]) == Some(Unstuff(wire).value[1..])
            && Feed(s, wire, cap) == Feed(Rx(Kept(s, cap) + [Unstuff(wire).value[0]], false, false), wire[n..], cap)
  {
    hide CrcBytes;
    if wire[0] == DLE {
      assert RxStep(s, DLE, cap) == Rx(Kept(s, cap), true, false);
      assert wire[1..][1..] == wire[2..] && wire[1..][0] == wire[1];
      assert RxStep(Rx(Kept(s, cap), true, false), wire[1], cap) == Rx(Kept(s, cap) + [wire[1]], false, false);
    } else {
      assert RxStep(s, wire[0], cap) == Rx(Kept(s, cap) + [wire[0]], false, false);
    }
  }

  /** In particular a stuffed run. */
  lemma FeedStuffed(s: Rx, data: seq<byte>, cap: nat)
    requires !s.valid && !s.escape && |s.data| <= cap && |data| < cap
    ensures var t := Feed(s, Stuff(data), cap);
            && !t.valid && !t.escape && |t.data| == Filled(|s.data|, |data|, cap)
            && (|s.data| + |data| <= cap ==> t.data == s.data + data)
            && (|s.data| == cap && data != [] ==> t.data == data)
  {
    hide Feed, Unstuff, Stuff;
    UnstuffInverse(Stuff(data), data);
    FeedUnstuffed(s, Stuff(data), cap);
  }

  lemma FeedByte(s: Rx, b: byte, cap: nat)
    requires !s.valid && !s.escape && 0 < cap
    ensures Feed(s, StuffByte(b), cap) == Rx((if |s.data| >= cap then [] else s.data) + [b], false, false)
  {
    var kept := if |s.data| >= cap then [] else s.data;
    if IsControl(b) {
      assert StuffByte(b)[1..] == [b] && [b][1..] == [];
      assert RxStep(s, DLE, cap) == Rx(kept, true, false);
      assert Feed(Rx(kept, true, false), [b], cap) == Feed(Rx(kept + [b], false, false), [], cap);
    } else {
      assert StuffByte(b)[1..] == [];
      assert RxStep(s, b, cap) == Rx(kept + [b], false, false);
    }
  }

  /** The receive state once `bytes` are in, if the consumer takes each completed frame and clears
      the valid flag before the next byte; and the bodies it took. */
  function Deliver(s: Rx, bytes: seq<byte>, cap: nat): (Rx, seq<seq<byte>>)
    requires !s.valid
    decreases |bytes|
  {
    if bytes == [] then (s, [])
    else
      var t := RxStep(s, bytes[0], cap);
      var (u, more) := Deliver(t.(valid := false), bytes[1..], cap);
      (u, (if t.valid then [Body(t.data)] else []) + more)
  }

  lemma {:induction false} DeliverChunks(s: Rx, a: seq<byte>, b: seq<byte>, cap: nat)
    requires !s.valid
    ensures var (t, first) := Deliver(s, a, cap);
            && !t.valid
            && var (u, second) := Deliver(t, b, cap); Deliver(s, a + b, cap) == (u, first + second)
    decreases |a|
  {
    if a == [] {
      assert a + b == b && [] + Deliver(s, b, cap).1 == Deliver(s, b, cap).1;
    } else {
      assert (a + b)[1..] == a[1..] + b;
      var t := RxStep(s, a[0], cap);
      var out := if t.valid then [Body(t.data)] else [];
      hide RxStep;
      DeliverChunks(t.(valid := false), a[1..], b, cap);
      var (u, rest) := Deliver(t.(valid := false), a[1..], cap);
      assert out + (rest + Deliver(u, b, cap).1) == out + rest + Deliver(u, b, cap).1;
    }
  }

  /** Bytes that complete no frame deliver nothing. */
  lemma {:induction false} DeliverNothing(s: Rx, bytes: seq<byte>, cap: nat)
    requires !s.valid && !Feed(s, bytes, cap).valid
    ensures Deliver(s, bytes, cap) == (Feed(s, bytes, cap), [])
    decreases |bytes|
  {
    hide RxStep, Feed, Deliver, Body;
    if bytes == [] {
      NothingFed(s, cap);
    } else {
      var t := RxStep(s, bytes[0], cap);
      OneFed(s, bytes, cap);
      assert t.(valid := t.valid) == t;
      DeliverNothing(t, bytes[1..], cap);
    }
  }

  lemma NothingFed(s: Rx, cap: nat)
    requires !s.valid
    ensures Feed(s, [], cap) == s && Deliver(s, [], cap) == (s, [])
  {
  }

  lemma FeedDone(s: Rx, bytes: seq<byte>, cap: nat)
    ensures s.valid ==> Feed(s, bytes, cap) == s
  {
  }

  lemma OneFed(s: Rx, bytes: seq<byte>, cap: nat)
    requires !s.valid && bytes != [] && !Feed(s, bytes, cap).valid
    ensures var t := RxStep(s, bytes[0], cap);
            !t.valid && Feed(s, bytes, cap) == Feed(t, bytes[1..], cap)
            && Deliver(s, bytes, cap) == Deliver(t, bytes[1..], cap)
  {
    hide RxStep;
    var t := RxStep(s, bytes[0], cap);
    assert Feed(s, bytes, cap) == Feed(t, bytes[1..], cap);
    FeedDone(t, bytes[1..], cap);
    assert t.(valid := false) == t;
    var rest := Deliver(t, bytes[1..], cap);
    assert [] + rest.1 == rest.1;
  }

  /** Whatever the buffer holds, a stuffed run leaves the escapes in step. */
  lemma {:induction false} StuffedKeepsStep(s: Rx, data: seq<byte>, cap: nat)
    requires !s.valid && !s.escape && 0 < cap
    ensures var t := Feed(s, Stuff(data), cap); !t.valid && !t.escape
    decreases |data|
  {
    if data != [] {
      var kept := if |s.data| >= cap then [] else s.data;
      FeedByte(s, data[0], cap);
      FeedChunks(s, StuffByte(data[0]), Stuff(data[1..]), cap);
      StuffedKeepsStep(Rx(kept + [data[0]], false, false), data[1..], cap);
    }
  }

  lemma BufferBounded(s: Rx, b: byte, cap: nat)
    requires |s.data| <= cap && 0 < cap
    ensures |RxStep(s, b, cap).data| <= cap
  {
  }

  lemma {:induction false} DeliverBounded(s: Rx, bytes: seq<byte>, cap: nat)
    requires !s.valid && |s.data| <= cap && 0 < cap
    ensures |Deliver(s, bytes, cap).0.data| <= cap
    decreases |bytes|
  {
    if bytes != [] {
      BufferBounded(s, bytes[0], cap);
      var t := RxStep(s, bytes[0], cap);
      hide RxStep;
      DeliverBounded(t.(valid := false), bytes[1..], cap);
    }
  }

  /** The three parts of a frame: the SOH (data if it is escaped), the stuffed packet, the EOT. */
  lemma DeliverParts(s: Rx, body: seq<byte>, cap: nat)
    requires !s.valid && |s.data| <= cap && 1 < cap
    ensures var kept := if |s.data| >= cap then [] else s.data;
            var s1 := Rx(if s.escape then kept + [SOH] else [], false, false);
            var s2 := Feed(s1, Stuff(body + CrcBytes(body)), cap);
            var last := if |s2.data| >= cap then [] else s2.data;
            Deliver(s, Frame(body), cap) == (Rx(last, false, false), if Accepts(last) then [Body(last)] else [])
  {
    var packet := Stuff(body + CrcBytes(body));
    var s1 := RxStep(s, SOH, cap);
    var s2 := Feed(s1, packet, cap);
    StuffedKeepsStep(s1, body + CrcBytes(body), cap);
    DeliverByte(s, SOH, cap);
    DeliverByte(s2, EOT, cap);
    hide Stuff, CrcBytes, Accepts, Deliver, Feed;
    assert Frame(body) == [SOH] + packet + [EOT];
    DeliverNothing(s1, packet, cap);
    DeliverChunks(s, [SOH], packet, cap);
    DeliverChunks(s, [SOH] + packet, [EOT], cap);
    var last := if |s2.data| >= cap then [] else s2.data;
    var out := if Accepts(last) then [Body(last)] else [];
    assert [] + [] + out == out;
  }

  lemma DeliverByte(s: Rx, b: byte, cap: nat)
    requires !s.valid
    ensures var t := RxStep(s, b, cap);
            Deliver(s, [b], cap) == (t.(valid := false), if t.valid then [Body(t.data)] else [])
  {
    hide CrcBytes;
    var t := RxStep(s, b, cap);
    var rest := Deliver(t.(valid := false), [b][1..], cap);
    assert [b][1..] == [] && rest == (t.(valid := false), []);
    var out := if t.valid then [Body(t.data)] else [];
    assert Deliver(s, [b], cap).0 == rest.0 && Deliver(s, [b], cap).1 == out + rest.1 == out;
  }

  /** A frame that fits the buffer is delivered exactly when the receiver is not waiting for an escaped
      byte (which would swallow the SOH) or the buffer starts over just after swallowing it. */
  lemma FrameDelivered(s: Rx, body: seq<byte>, cap: nat)
    requires !s.valid && |s.data| <= cap
    requires 1 <= |body| && |body| + 2 < cap
    ensures Deliver(s, Frame(body), cap).1 == [body] <==> !s.escape || |s.data| == cap - 1
  {
    var packet := body + CrcBytes(body);
    var kept := if |s.data| >= cap then [] else s.data;
    var s1 := Rx(if s.escape then kept + [SOH] else [], false, false);
    DeliverParts(s, body, cap);
    FeedStuffed(s1, packet, cap);
    assert packet[..|packet| - 2] == body && packet[|packet| - 2..] == CrcBytes(body);
    hide Stuff, Feed, CrcBytes;
    assert s1.data + packet == packet || s1.data != [];
  }

  /** A receiver in step takes a frame exactly when the packet is shorter than its buffer limit. */
  lemma FrameFits(s: Rx, body: seq<byte>, cap: nat)
    requires !s.valid && !s.escape && |s.data| <= cap && 1 < cap && 1 <= |body|
    ensures Deliver(s, Frame(body), cap).1 == [body] <==> |body| + 2 < cap
  {
    if |body| + 2 < cap {
      FrameDelivered(s, body, cap);
    } else {
      DeliverParts(s, body, cap);
      hide Stuff, Feed, CrcBytes;
    }
  }

  /** After any garbage whatever, the second of two frames in a row is delivered. */
  lemma SecondFrameDelivered(s: Rx, garbage: seq<byte>, first: seq<byte>, second: seq<byte>, cap: nat)
    requires !s.valid && |s.data| <= cap
    requires 1 <= |second| && |second| + 2 < cap
    ensures Deliver(s, garbage + Frame(first) + Frame(second), cap).1
         == Deliver(s, garbage + Frame(first), cap).1 + [second]
  {
    hide Frame;
    DeliverBounded(s, garbage, cap);
    DeliverChunks(s, garbage, Frame(first), cap);
    var t := Deliver(s, garbage, cap).0;
    DeliverParts(t, first, cap);
    DeliverBounded(t, Frame(first), cap);
    var u := Deliver(t, Frame(first), cap).0;
    DeliverChunks(s, garbage + Frame(first), Frame(second), cap);
    FrameDelivered(u, second, cap);
  }

  /** A packet whose CRC belongs to a body that differs in one or two adjacent bytes is rejected. */
  lemma CorruptedBodyRejected(before: seq<byte>, u: seq<byte>, v: seq<byte>, after: seq<byte>)
    requires |u| == |v| <= 2 && u != v
    ensures !Accepts(before + v + after + CrcBytes(before + u + after))
  {
    var sent, got := before + u + after, before + v + after;
    AdjacentBytesDetected(before, u, v, after);
    var packet := got + CrcBytes(sent);
    assert packet[..|packet| - 2] == got && packet[|packet| - 2..] == CrcBytes(sent);
    WordOfItsBytes(Crc(sent));
    WordOfItsBytes(Crc(got));
    hide Crc, Word, LowByte, HighByte;
  }
}
