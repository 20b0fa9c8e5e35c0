/** The receive ring of the ENC28J60: how packets get in and out, seeking inside a packet, and the two
    ways of copying bytes inside the controller's memory. */
module RxRing {
  import opened Checksum

  /** The ring is memory 0 to RXSTOP, an odd address; the rest is for transmission. */
  const RAM: nat := 8192
  const RXSTART: nat := 0
  const RXSTOP: nat := 6665
  const RXSIZE: nat := 6666
  /** The next-packet pointer, the status vector and the Ethernet header. */
  const PREAMBLE: nat := 20

  const MAC_IP: Octet := 0
  const MAC_ARP: Octet := 6
  const MAC_UNKNOWN: Octet := 0xFF

  // ---------------------------------------------------------------- addresses

  function Wrap(x: nat): nat {
    if x > RXSTOP then x - RXSIZE else x
  }

  /** The read pointer after one byte. */
  function Next(a: nat): nat {
    if a == RXSTOP then RXSTART else (a + 1) % RAM
  }

  /** A run of the ring, and reading it from memory. */
  function Slice(mem: seq<Octet>, a: nat, n: nat): (r: seq<Octet>)
    requires |mem| == RAM && a <= RXSTOP && n <= RXSIZE
    ensures |r| == n
  {
    seq(n, k requires 0 <= k < n => mem[Wrap(a + k)])
  }

  lemma SliceParts(mem: seq<Octet>, a: nat, m: nat, n: nat)
    requires |mem| == RAM && a <= RXSTOP && m + n <= RXSIZE
    ensures Wrap(a + m) <= RXSTOP
    ensures Slice(mem, a, m + n) == Slice(mem, a, m) + Slice(mem, Wrap(a + m), n)
    ensures Slice(mem, a, m + n)[m..] == Slice(mem, Wrap(a + m), n)
  {
    var whole, left, right := Slice(mem, a, m + n), Slice(mem, a, m), Slice(mem, Wrap(a + m), n);
    forall k | 0 <= k < m + n ensures whole[k] == (left + right)[k] {
      SliceAt(mem, a, m + n, k);
      if k < m {
        SliceAt(mem, a, m, k);
      } else {
        SliceAt(mem, Wrap(a + m), n, k - m);
      }
    }
    assert whole == left + right;
  }

  lemma SlicePart(mem: seq<Octet>, a: nat, size: nat, i: nat, n: nat)
    requires |mem| == RAM && a <= RXSTOP && i + n <= size <= RXSIZE
    ensures Wrap(a + i) <= RXSTOP && Slice(mem, a, size)[i..i + n] == Slice(mem, Wrap(a + i), n)
  {
    SliceParts(mem, a, i, size - i);
    SliceParts(mem, Wrap(a + i), n, size - i - n);
    hide Slice, Wrap;
    assert Slice(mem, a, size)[i..i + n] == Slice(mem, a, size)[i..][..n];
  }

  lemma SliceAt(mem: seq<Octet>, a: nat, n: nat, k: nat)
    requires |mem| == RAM && a <= RXSTOP && k < n <= RXSIZE
    ensures Wrap(a + k) <= RXSTOP && Slice(mem, a, n)[k] == mem[Wrap(a + k)]
  {
  }

  lemma WrapSmall(x: nat)
    requires x <= RXSTOP + RXSIZE
    ensures Wrap(x) <= RXSTOP
  {
  }

  /** How far an address of the ring lies behind another. */
  function Offset(a: nat, i: nat): nat
    requires a <= RXSTOP && i <= RXSTOP
  {
    if i >= a then i - a else i + RXSIZE - a
  }

  /** Memory after the hardware has put n bytes into the ring from a on. */
  predicate Deposited(was: seq<Octet>, now: seq<Octet>, a: nat, raw: seq<Octet>) {
    && |was| == |now| == RAM && a <= RXSTOP && |raw| <= RXSIZE
    && forall i :: 0 <= i < RAM ==> now[i] == if i <= RXSTOP && Offset(a, i) < |raw| then raw[Offset(a, i)] else was[i]
  }

  lemma DepositedSlices(was: seq<Octet>, now: seq<Octet>, first: nat, total: nat, raw: seq<Octet>)
    requires first <= RXSTOP && total + |raw| <= RXSIZE && Deposited(was, now, Wrap(first + total), raw)
    ensures Slice(now, first, total) == Slice(was, first, total)
    ensures Slice(now, Wrap(first + total), |raw|) == raw
  {
    hide Slice;
    var a := Wrap(first + total);
    forall k | 0 <= k < total ensures Slice(now, first, total)[k] == Slice(was, first, total)[k] {
      SliceAt(now, first, total, k);
      SliceAt(was, first, total, k);
      OffsetApart(first, total, k);
    }
    forall k | 0 <= k < |raw| ensures Slice(now, a, |raw|)[k] == raw[k] {
      SliceAt(now, a, |raw|, k);
      OffsetOf(a, k);
    }
  }

  /** The address k bytes into a run lies at offset k, and outside the run that follows it. */
  lemma OffsetOf(a: nat, k: nat)
    requires a <= RXSTOP && k < RXSIZE
    ensures Wrap(a + k) <= RXSTOP && Offset(a, Wrap(a + k)) == k
  {
  }

  lemma OffsetApart(first: nat, total: nat, k: nat)
    requires first <= RXSTOP && k < total <= RXSIZE
    ensures Wrap(first + total) <= RXSTOP && Wrap(first + k) <= RXSTOP
    ensures Offset(Wrap(first + total), Wrap(first + k)) >= RXSIZE - total
  {
  }

  // ---------------------------------------------------------------- packets

  /** A packet as it lies in the ring: pointer to the next one, status vector, frame, filled up to an
      even length. */
  datatype Packet = Packet(start: nat, raw: seq<Octet>)

  /** Zero bit clear, no CRC error, at most 1518 bytes, received well. */
  predicate GoodStatus(status: seq<Octet>)
    requires |status| == 4
  {
    && status[3] / 0x80 == 0 && status[2] / 0x10 % 2 == 0
    && Pair(status[1], status[0]) <= 1518 && status[2] / 0x80 == 1
  }

  /** The simplified type field. */
  function KindOf(raw: seq<Octet>): Octet
    requires PREAMBLE <= |raw|
  {
    if raw[18] == 8 && (raw[19] == MAC_IP || raw[19] == MAC_ARP) then raw[19] else MAC_UNKNOWN
  }

  lemma KindFromHeader(raw: seq<Octet>, header: seq<Octet>)
    requires PREAMBLE <= |raw| && header == raw[..PREAMBLE]
    ensures KindOf(raw) == KindOf(header) && raw[12..18] == header[12..18]
  {
  }

  /** The fields of a frame as they lie in the ring: the sender, and the type, high byte first, of which IP and ARP
      are known. */
  lemma FrameFields(pointer: seq<Octet>, status: seq<Octet>, destination: seq<Octet>, source: seq<Octet>, kind: nat, payload: seq<Octet>)
    requires |pointer| == 2 && |status| == 4 && |destination| == 6 == |source| && kind < 0x1_0000
    ensures var hi: Octet, lo: Octet := kind / 0x100, kind % 0x100;
            var raw: seq<Octet> := pointer + status + destination + source + [hi, lo] + payload;
            && raw[2..6] == status && raw[12..18] == source
            && KindOf(raw) == if kind == 0x0800 then MAC_IP else if kind == 0x0806 then MAC_ARP else MAC_UNKNOWN
  {
    var hi: Octet, lo: Octet := kind / 0x100, kind % 0x100;
    assert kind == 0x100 * hi + lo;
    var raw: seq<Octet> := pointer + status + destination + source + [hi, lo] + payload;
    assert raw[18] == hi && raw[19] == lo;
  }

  /** The bits of the status vector that count: no zero bit, no CRC error, received well; the others are free. */
  lemma StatusFields(count: nat, low: nat, crcError: bool, middle: nat, ok: bool, rest: nat, zero: bool)
    requires count < 0x1_0000 && low < 0x10 && middle < 4 && rest < 0x80
    ensures var b0: Octet, b1: Octet := count % 0x100, count / 0x100;
            var b2: Octet := low + (if crcError then 0x10 else 0) + 0x20 * middle + if ok then 0x80 else 0;
            var b3: Octet := rest + if zero then 0x80 else 0;
            GoodStatus([b0, b1, b2, b3]) <==> !zero && !crcError && ok && count <= 1518
  {
    var b2: Octet := low + (if crcError then 0x10 else 0) + 0x20 * middle + if ok then 0x80 else 0;
    assert count == 0x100 * (count / 0x100) + count % 0x100;
    assert b2 / 0x10 == (if crcError then 1 else 0) + 2 * middle + if ok then 8 else 0;
  }

  function After(p: Packet): nat {
    Wrap(p.start + |p.raw|)
  }

  predicate GoodPacket(p: Packet) {
    && p.start <= RXSTOP && p.start % 2 == 0 && |p.raw| % 2 == 0 && PREAMBLE <= |p.raw| <= RXSIZE - 2
    && Pair(p.raw[1], p.raw[0]) == After(p) && GoodStatus(p.raw[2..6])
  }

  lemma EvenNumber(x: nat, q: nat)
    requires x == 2 * q
    ensures x % 2 == 0
  {
  }

  lemma EvenSum(a: nat, b: nat)
    requires a % 2 == 0 && b % 2 == 0
    ensures (a + b) % 2 == 0 && (a + b >= RXSIZE ==> (a + b - RXSIZE) % 2 == 0)
  {
    assert a == 2 * (a / 2) && b == 2 * (b / 2);
    EvenNumber(a + b, a / 2 + b / 2);
    if a + b >= RXSIZE {
      EvenNumber(a + b - RXSIZE, a / 2 + b / 2 - RXSIZE / 2);
    }
  }

  lemma AfterIsEven(p: Packet)
    requires GoodPacket(p)
    ensures After(p) % 2 == 0 && After(p) <= RXSTOP
  {
    hide GoodStatus, Pair;
    EvenSum(p.start, |p.raw|);
  }

  /** The packets follow one another from a to b. */
  predicate Linked(ps: seq<Packet>, a: nat, b: nat) {
    if ps == [] then a == b
    else ps[0].start == a && GoodPacket(ps[0]) && Linked(ps[1..], After(ps[0]), b)
  }

  function Bytes(ps: seq<Packet>): seq<Octet> {
    if ps == [] then [] else ps[0].raw + Bytes(ps[1..])
  }

  lemma {:induction false} LinkedMore(ps: seq<Packet>, a: nat, b: nat, p: Packet)
    requires Linked(ps, a, b) && p.start == b && GoodPacket(p)
    ensures Linked(ps + [p], a, After(p)) && Bytes(ps + [p]) == Bytes(ps) + p.raw
    decreases |ps|
  {
    hide GoodPacket;
    if ps == [] {
      assert ps + [p] == [p] && [p][1..] == [];
      assert Bytes([p]) == p.raw + Bytes([]) == p.raw;
    } else {
      assert (ps + [p])[1..] == ps[1..] + [p];
      LinkedMore(ps[1..], After(ps[0]), b, p);
      assert ps[0].raw + (Bytes(ps[1..]) + p.raw) == ps[0].raw + Bytes(ps[1..]) + p.raw;
    }
  }

  /** Linked packets of less than a ring end where their bytes end. */
  lemma {:induction false} LinkedEnd(ps: seq<Packet>, a: nat, b: nat)
    requires Linked(ps, a, b) && a <= RXSTOP && a % 2 == 0 && |Bytes(ps)| <= RXSIZE
    ensures b == Ahead(a, |Bytes(ps)|) <= RXSTOP && |Bytes(ps)| % 2 == 0 && b % 2 == 0
    decreases |ps|
  {
    hide GoodPacket, Ahead;
    if ps == [] {
      AheadNone(a);
    } else {
      var n := |Bytes(ps[1..])|;
      FirstInRing(ps[0]);
      AfterIsEven(ps[0]);
      LinkedEnd(ps[1..], After(ps[0]), b);
      AheadTwice(a, |ps[0].raw|, n);
      EvenSum(|ps[0].raw|, n);
    }
  }

  lemma FirstInRing(p: Packet)
    requires GoodPacket(p)
    ensures p.start <= RXSTOP && PREAMBLE <= |p.raw| <= RXSIZE - 2 && |p.raw| % 2 == 0
  {
  }

  lemma AheadNone(a: nat)
    requires a <= RXSTOP
    ensures Ahead(a, 0) == a
  {
  }

  lemma AheadTwice(a: nat, m: nat, n: nat)
    requires a <= RXSTOP && 0 < m && m + n <= RXSIZE
    ensures Ahead(Wrap(a + m), n) == Ahead(a, m + n)
  {
  }

  // ---------------------------------------------------------------- the controller and its driver

  class Controller {
    const mem: array<Octet>
    /** The registers ERDPT, EWRPT, ERXRDPT, ERXWRPT and EPKTCNT. */
    var readPtr: nat
    var writePtr: nat
    var rxReadPtr: nat
    var rxWritePtr: nat
    var packetCount: nat
    /** The driver's variables. */
    var nextPacketLocation: nat
    var currentPacketLocation: nat
    var wasDiscarded: bool
    /** The packet that was delivered last, those that wait, and how often packets were delivered and the
        counter was decremented. */
    ghost var current: Packet
    ghost var pending: seq<Packet>
    ghost var delivered: nat
    ghost var decremented: nat

    /** What MACInit sets up. */
    constructor ()
      ensures Valid() && fresh(mem) && pending == [] && wasDiscarded && delivered == 0
    {
      mem := new Octet[RAM](_ => 0);
      readPtr, writePtr, rxReadPtr, rxWritePtr, packetCount := 0, 0, RXSTOP, RXSTART, 0;
      nextPacketLocation, currentPacketLocation, wasDiscarded := RXSTART, RXSTART, true;
      current, pending, delivered, decremented := Packet(0, []), [], 0, 0;
    }

    /** The packets whose memory is not free. */
    ghost function Held(): seq<Packet>
      reads this
    {
      if wasDiscarded then pending else [current] + pending
    }

    ghost function First(): nat
      reads this
    {
      if wasDiscarded then nextPacketLocation else currentPacketLocation
    }

    /** What holds in every run. */
    ghost predicate Valid()
      reads this, mem
    {
      && mem.Length == RAM && readPtr < RAM && writePtr < RAM
      && Rings(mem[..], Held(), First(), rxWritePtr)
      && packetCount == |Held()| && rxReadPtr == Before(First())
      && (!wasDiscarded ==> nextPacketLocation == After(current))
      && delivered == decremented + (if wasDiscarded then 0 else 1)
    }

    // -------------------------------------------------------------- hardware

    /** A frame arrives that fits the free memory: the hardware writes it with its pointer and status. */
    method Arrive(rest: seq<Octet>) returns (ghost p: Packet)
      requires Valid() && packetCount < 0xFF && |rest| % 2 == 0 && 18 <= |rest| && GoodStatus(rest[..4])
      requires |rest| + 2 + |Bytes(Held())| <= RXSIZE - 2
      modifies mem, this`rxWritePtr, this`packetCount, this`pending
      ensures Valid() && pending == old(pending) + [p] && |p.raw| == |rest| + 2 && p.raw[2..] == rest
    {
      hide Rings, Deposited, Linked, GoodPacket, After, Slice, Wrap, Before, GoodStatus;
      RingsFacts(mem[..], Held(), First(), rxWritePtr);
      WrapSmall(rxWritePtr + 2 + |rest|);
      var next := Wrap(rxWritePtr + 2 + |rest|);
      var lo: Octet, hi: Octet := next % 0x100, next / 0x100;
      var raw: seq<Octet> := [lo, hi] + rest;
      p := Packet(rxWritePtr, raw);
      ghost var held, was := Held(), mem[..];
      NewPacket(p, rest);
      Deposit(raw);
      RingsMore(was, mem[..], held, First(), p);
      rxWritePtr := next;
      packetCount := packetCount + 1;
      pending := pending + [p];
      assert Held() == held + [p];
    }

    method Deposit(raw: seq<Octet>)
      requires mem.Length == RAM && rxWritePtr <= RXSTOP && |raw| <= RXSIZE
      modifies mem
      ensures Deposited(old(mem[..]), mem[..], rxWritePtr, raw)
    {
      for k := 0 to |raw|
        invariant forall i :: 0 <= i < RAM ==>
                    mem[i] == if i <= RXSTOP && Offset(rxWritePtr, i) < k then raw[Offset(rxWritePtr, i)] else old(mem[i])
      {
        assert Offset(rxWritePtr, Wrap(rxWritePtr + k)) == k;
        mem[Wrap(rxWritePtr + k)] := raw[k];
      }
    }

    // -------------------------------------------------------------- reception

    /** MACDiscardRx: the first call after a delivery frees the packet, more calls do nothing. */
    method MACDiscardRx()
      requires Valid()
      modifies this`wasDiscarded, this`packetCount, this`rxReadPtr, this`decremented
      ensures Valid() && wasDiscarded
      ensures decremented == delivered && packetCount == |pending|
    {
      hide Rings;
      if wasDiscarded {
        return;
      }
      RingsDrop(mem[..], current, pending, First(), rxWritePtr);
      wasDiscarded := true;
      var newLocation := (nextPacketLocation + W - 1) % W;
      if newLocation > RXSTOP {
        newLocation := RXSTOP;
      }
      packetCount := packetCount - 1;
      decremented := decremented + 1;
      rxReadPtr := newLocation;
    }

    /** MACGetFreeRxSize, with no packet arriving meanwhile: the ring but for the bytes that are held
        and a gap of two. */
    method MACGetFreeRxSize() returns (size: int)
      requires Valid()
      ensures size == RXSIZE - 2 - |Bytes(Held())|
      ensures (size + rxWritePtr + 1) % RXSIZE == rxReadPtr
    {
      hide Rings;
      RingsFacts(mem[..], Held(), First(), rxWritePtr);
      if rxWritePtr > rxReadPtr {
        size := (RXSTOP - RXSTART) - (rxWritePtr - rxReadPtr);
      } else if rxWritePtr == rxReadPtr {
        assert false;
        size := RXSIZE - 1;
      } else {
        size := rxReadPtr - rxWritePtr - 1;
      }
    }

    /** MACGetHeader: packets come out in the order in which they came in; a packet that was not
        discarded is discarded instead. */
    method MACGetHeader() returns (ok: bool, remote: seq<Octet>, kind: Octet)
      requires Valid()
      modifies this
      ensures Valid()
      ensures ok <==> old(pending) != [] && old(wasDiscarded)
      ensures ok ==>
                && old(pending) == [current] + pending && delivered == old(delivered) + 1 && !wasDiscarded
                && old(decremented) == old(delivered)
                && PREAMBLE <= |current.raw| && remote == current.raw[12..18] && kind == KindOf(current.raw)
                && readPtr == Ahead(current.start, PREAMBLE)
      ensures !ok ==> pending == old(pending) && delivered == old(delivered) && wasDiscarded
    {
      hide Rings, GoodPacket, Slice, After, GoodStatus, Before, Ahead, KindOf;
      ok, remote, kind := false, [], MAC_UNKNOWN;
      if packetCount == 0 {
        return;
      }
      if !wasDiscarded {
        MACDiscardRx();
        return;
      }
      remote, kind := Deliver();
      ok := true;
    }

    /** The part of MACGetHeader that takes the next packet. */
    method Deliver() returns (remote: seq<Octet>, kind: Octet)
      requires Valid() && wasDiscarded && pending != []
      modifies this
      ensures Valid() && old(pending) == [current] + pending && delivered == old(delivered) + 1 && !wasDiscarded
      ensures decremented == old(decremented)
      ensures PREAMBLE <= |current.raw| && remote == current.raw[12..18] && kind == KindOf(current.raw)
      ensures readPtr == Ahead(current.start, PREAMBLE)
    {
      hide Rings, GoodPacket, Slice, After, GoodStatus, Before, Ahead, Pair, KindOf;
      RingsHead(mem[..], pending, nextPacketLocation, rxWritePtr);
      ghost var p := pending[0];
      HeaderPasses(p);
      currentPacketLocation := nextPacketLocation;
      readPtr := currentPacketLocation;
      var header := MACGetArray(PREAMBLE);
      assert header == p.raw[..PREAMBLE];
      var nextPacketPointer := Pair(header[1], header[0]);
      ghost var reset := nextPacketPointer > RXSTOP || nextPacketPointer % 2 == 1 || !GoodStatus(header[2..6]);
      assert !reset;
      nextPacketLocation := nextPacketPointer;
      remote := header[12..18];
      kind := KindOf(header);
      KindFromHeader(p.raw, header);
      wasDiscarded := false;
      current, pending, delivered := p, pending[1..], delivered + 1;
      assert [current] + pending == old(pending);
    }

    method MACGet() returns (b: Octet)
      requires mem.Length == RAM && readPtr < RAM
      modifies this`readPtr
      ensures b == mem[old(readPtr)] && readPtr == Next(old(readPtr))
    {
      b := mem[readPtr];
      readPtr := Next(readPtr);
    }

    method MACPut(b: Octet)
      requires mem.Length == RAM && writePtr < RAM
      modifies this`writePtr, mem
      ensures mem[..] == old(mem[..])[old(writePtr) := b] && writePtr == (old(writePtr) + 1) % RAM
    {
      mem[writePtr] := b;
      writePtr := (writePtr + 1) % RAM;
    }

    /** MACGetArray inside the ring. */
    method MACGetArray(n: nat) returns (val: seq<Octet>)
      requires mem.Length == RAM && readPtr <= RXSTOP && n <= RXSIZE
      modifies this`readPtr
      ensures readPtr <= RXSTOP && readPtr == Ahead(old(readPtr), n) && val == Slice(mem[..], old(readPtr), n)
    {
      val := [];
      for k := 0 to n
        invariant |val| == k && readPtr == Ahead(old(readPtr), k) <= RXSTOP
        invariant forall j :: 0 <= j < k ==> val[j] == mem[Wrap(old(readPtr) + j)]
      {
        var b := MACGet();
        val := val + [b];
      }
    }

    /** MACSetReadPtrInRx: seek to an offset beyond the Ethernet header of the delivered packet. */
    method MACSetReadPtrInRx(offset: nat)
      requires Valid() && !wasDiscarded && PREAMBLE + offset <= RXSIZE
      modifies this`readPtr
      ensures Valid() && readPtr == Wrap(current.start + PREAMBLE + offset) <= RXSTOP
    {
      hide Rings, GoodPacket, Slice, After, Before;
      RingsFacts(mem[..], Held(), First(), rxWritePtr);
      RingsHead(mem[..], Held(), First(), rxWritePtr);
      var readPT := currentPacketLocation + PREAMBLE + offset;
      if readPT > RXSTOP {
        readPT := readPT - RXSIZE;
      }
      readPtr := readPT;
    }

    /** Seeking and then reading gives the packet's bytes from there on, also across the end of the ring. */
    method SeekAndRead(offset: nat, n: nat) returns (val: seq<Octet>)
      requires Valid() && !wasDiscarded && PREAMBLE + offset + n <= |current.raw|
      modifies this`readPtr
      ensures Valid() && val == current.raw[PREAMBLE + offset..PREAMBLE + offset + n]
    {
      hide Rings, GoodPacket, Slice, After, Wrap, Before, Ahead;
      RingsHead(mem[..], Held(), First(), rxWritePtr);
      SlicePart(mem[..], current.start, |current.raw|, PREAMBLE + offset, n);
      WrapSmall(current.start + PREAMBLE + offset);
      MACSetReadPtrInRx(offset);
      val := MACGetArray(n);
    }

    // -------------------------------------------------------------- copying

    /** The controller's DMA: from st to nd inclusive, wrapping at the end of the ring. */
    method Dma(st: nat, nd: nat, dst: nat, ghost n: nat)
      requires mem.Length == RAM && st < RAM && 1 <= n && dst + n <= RAM && Reaches(st, n) && nd == Steps(st, n - 1)
      modifies mem
      ensures mem[..] == Copied(old(mem[..]), st, dst, n)
    {
      var from, to := st, dst;
      ghost var k := 0;
      ghost var goal := Copied(mem[..], st, dst, n);
      while true
        invariant 0 <= k < n && from == Steps(st, k) && from < RAM && to == dst + k
        invariant Copied(mem[..], from, to, n - k) == goal
        decreases n - k
      {
        StepsApart(st, k, n - 1);
        mem[to] := mem[from];
        if from == nd {
          break;
        }
        StepsNext(st, k);
        from, to, k := Next(from), to + 1, k + 1;
      }
    }

    /** MACMemCopyAsync, with 0xFFFF for the current value of a pointer, once the copy is done. */
    method MACMemCopyAsync(destAddr: nat, sourceAddr: nat, len: nat)
      requires mem.Length == RAM && readPtr < RAM && writePtr < RAM
      requires sourceAddr < RAM || sourceAddr == 0xFFFF
      requires var src := if sourceAddr == 0xFFFF then readPtr else sourceAddr; Reaches(src, len)
      requires destAddr < RAM || destAddr == 0xFFFF
      requires var dst := if destAddr == 0xFFFF then writePtr else destAddr; dst + len < RAM
      modifies this`readPtr, this`writePtr, mem
      ensures var src := if sourceAddr == 0xFFFF then old(readPtr) else sourceAddr;
              var dst := if destAddr == 0xFFFF then old(writePtr) else destAddr;
              && mem[..] == Copied(old(mem[..]), src, dst, len)
              && readPtr == (if sourceAddr == 0xFFFF then Steps(src, len) else old(readPtr))
              && writePtr == if destAddr == 0xFFFF then dst + len else old(writePtr)
    {
      var src, dst, updateWritePointer, updateReadPointer := sourceAddr, destAddr, false, false;
      if dst == 0xFFFF {
        updateWritePointer, dst := true, writePtr;
      }
      if src == 0xFFFF {
        updateReadPointer, src := true, readPtr;
      }
      if len <= 1 {
        CopyBytes(src, dst, len, updateReadPointer, updateWritePointer);
      } else {
        if updateWritePointer {
          writePtr := dst + len;
        }
        var end := len + src - 1;
        if src <= RXSTOP && end > RXSTOP {
          end := end - RXSIZE;
        }
        StepsTo(src, len - 1);
        StepsTo(src, len);
        Dma(src, end, dst, len);
        if updateReadPointer {
          end := end + 1;
          if src <= RXSTOP && end > RXSTOP {
            end := end - RXSIZE;
          }
          readPtr := end;
        }
      }
    }

    /** The path for no byte or one byte, which the DMA cannot copy. */
    method CopyBytes(src: nat, dst: nat, len: nat, updateReadPointer: bool, updateWritePointer: bool)
      requires mem.Length == RAM && readPtr < RAM && writePtr < RAM && src < RAM && dst + len < RAM && len <= 1
      modifies this`readPtr, this`writePtr, mem
      ensures mem[..] == Copied(old(mem[..]), src, dst, len)
      ensures readPtr == if updateReadPointer then Steps(src, len) else old(readPtr)
      ensures writePtr == if updateWritePointer then dst + len else old(writePtr)
    {
      var readSave, writeSave := readPtr, writePtr;
      readPtr, writePtr := src, dst;
      var left := len;
      if left > 0 {
        var b := MACGet();
        MACPut(b);
        left := left - 1;
      }
      if !updateReadPointer {
        readPtr := readSave;
      }
      if !updateWritePointer {
        writePtr := writeSave;
      }
    }
  }

  // ---------------------------------------------------------------- copying, one byte after the other

  /** The read pointer after n bytes. */
  function Steps(a: nat, n: nat): (r: nat)
    requires a < RAM
    ensures r < RAM
    decreases n
  {
    if n == 0 then a else Steps(Next(a), n - 1)
  }

  /** From the ring no more than the ring, from the rest of memory no further than its end. */
  predicate Reaches(src: nat, n: nat) {
    if src <= RXSTOP then n <= RXSIZE else src + n < RAM
  }

  function Copied(mem: seq<Octet>, src: nat, dst: nat, n: nat): (r: seq<Octet>)
    requires |mem| == RAM && src < RAM && dst + n <= RAM
    ensures |r| == RAM
    decreases n
  {
    if n == 0 then mem else Copied(mem[dst := mem[src]], Next(src), dst + 1, n - 1)
  }

  lemma {:induction false} StepsNext(a: nat, n: nat)
    requires a < RAM
    ensures Steps(a, n + 1) == Next(Steps(a, n))
    decreases n
  {
    if n > 0 {
      StepsNext(Next(a), n - 1);
    }
  }

  /** Where n bytes lead. */
  lemma {:induction false} StepsTo(a: nat, n: nat)
    requires a < RAM && Reaches(a, n)
    ensures Steps(a, n) == if a <= RXSTOP then (if n == RXSIZE then a else Wrap(a + n)) else a + n
    decreases n
  {
    hide Next, Wrap;
    WrapNext(a, n);
    if n > 0 {
      StepsTo(a, n - 1);
      StepsNext(a, n - 1);
    }
  }

  lemma WrapNext(a: nat, n: nat)
    requires a < RAM && Reaches(a, n)
    ensures a <= RXSTOP ==> Wrap(a) == a
    ensures a <= RXSTOP && n > 0 ==> Next(Wrap(a + (n - 1))) == if n == RXSIZE then a else Wrap(a + n)
    ensures a > RXSTOP && n > 0 ==> Next(a + (n - 1)) == a + n
  {
  }

  /** The end of a run is not met before its end. */
  lemma StepsApart(a: nat, k: nat, m: nat)
    requires a < RAM && k <= m && Reaches(a, m + 1)
    ensures Steps(a, k) == Steps(a, m) <==> k == m
  {
    StepsTo(a, k);
    StepsTo(a, m);
  }

  /** Copying to memory outside the run that is read is a ring-to-linear move of its bytes. */
  lemma {:induction false} CopiedIsMove(mem: seq<Octet>, src: nat, dst: nat, n: nat)
    requires |mem| == RAM && src <= RXSTOP && n <= RXSIZE && RXSTOP < dst && dst + n <= RAM
    ensures Copied(mem, src, dst, n) == mem[..dst] + Slice(mem, src, n) + mem[dst + n..]
    decreases n
  {
    hide Slice, Wrap;
    if n == 0 {
      SliceFirst(mem, src, 0);
      assert mem == mem[..dst] + [] + mem[dst..];
    } else {
      var mem' := mem[dst := mem[src]];
      RingNext(src, mem);
      CopiedIsMove(mem', Next(src), dst + 1, n - 1);
      SliceFirst(mem, src, n);
      SliceElsewhere(mem, dst, mem[src], Next(src), n - 1);
      assert mem'[..dst + 1] == mem[..dst] + [mem[src]] && mem'[dst + n..] == mem[dst + n..];
      var rest := Slice(mem, Next(src), n - 1);
      assert mem[..dst] + [mem[src]] + rest == mem[..dst] + ([mem[src]] + rest);
    }
  }

  lemma RingNext(src: nat, mem: seq<Octet>)
    requires src <= RXSTOP
    ensures Next(src) <= RXSTOP && Next(src) == Wrap(src + 1)
  {
  }

  lemma SliceFirst(mem: seq<Octet>, a: nat, n: nat)
    requires |mem| == RAM && a <= RXSTOP && n <= RXSIZE
    ensures n == 0 ==> Slice(mem, a, n) == []
    ensures n > 0 ==> Next(a) <= RXSTOP && Slice(mem, a, n) == [mem[a]] + Slice(mem, Next(a), n - 1)
  {
    if n > 0 {
      SliceParts(mem, a, 1, n - 1);
      assert Slice(mem, a, 1)[0] == mem[Wrap(a + 0)] == mem[a];
      assert Next(a) == Wrap(a + 1);
    }
  }

  lemma SliceElsewhere(mem: seq<Octet>, i: nat, b: Octet, a: nat, n: nat)
    requires |mem| == RAM && RXSTOP < i < RAM && a <= RXSTOP && n <= RXSIZE
    ensures Slice(mem[i := b], a, n) == Slice(mem, a, n)
  {
    hide Slice;
    forall k | 0 <= k < n ensures Slice(mem[i := b], a, n)[k] == Slice(mem, a, n)[k] {
      SliceAt(mem, a, n, k);
      SliceAt(mem[i := b], a, n, k);
    }
  }

  // ---------------------------------------------------------------- what the ring holds

  /** The register one behind an even address. */
  function Before(a: nat): nat {
    if a == 0 then RXSTOP else a - 1
  }

  function Ahead(a: nat, n: nat): nat {
    if n == RXSIZE then a else Wrap(a + n)
  }

  /** The ring holds these packets, from `first` to the hardware's write pointer, and a gap. */
  ghost predicate Rings(mem: seq<Octet>, held: seq<Packet>, first: nat, end: nat) {
    && |mem| == RAM && first <= RXSTOP && first % 2 == 0
    && Linked(held, first, end) && |Bytes(held)| <= RXSIZE - 2
    && Slice(mem, first, |Bytes(held)|) == Bytes(held)
  }

  lemma RingsFacts(mem: seq<Octet>, held: seq<Packet>, first: nat, end: nat)
    requires Rings(mem, held, first, end)
    ensures |mem| == RAM && first <= RXSTOP && first % 2 == 0 && |Bytes(held)| <= RXSIZE - 2
    ensures end <= RXSTOP && end % 2 == 0 && end == Wrap(first + |Bytes(held)|) && |Bytes(held)| % 2 == 0
  {
    LinkedEnd(held, first, end);
  }

  lemma RingsHead(mem: seq<Octet>, held: seq<Packet>, first: nat, end: nat)
    requires Rings(mem, held, first, end) && held != []
    ensures var p := held[0];
            && p.start == first <= RXSTOP && PREAMBLE <= |p.raw| <= RXSIZE - 2 && GoodPacket(p)
            && Slice(mem, first, |p.raw|) == p.raw && Slice(mem, first, PREAMBLE) == p.raw[..PREAMBLE]
    ensures Rings(mem, held[1..], After(held[0]), end)
  {
    var p, rest := held[0], Bytes(held[1..]);
    AfterIsEven(p);
    SliceParts(mem, first, |p.raw|, |rest|);
    SliceParts(mem, first, PREAMBLE, |p.raw| - PREAMBLE);
    hide GoodPacket, Slice, After;
    assert Bytes(held)[..|p.raw|] == p.raw && Bytes(held)[|p.raw|..] == rest;
    assert (Slice(mem, first, |p.raw|) + Slice(mem, Wrap(first + |p.raw|), |rest|))[..|p.raw|] == Slice(mem, first, |p.raw|);
  }

  lemma RingsDrop(mem: seq<Octet>, p: Packet, rest: seq<Packet>, first: nat, end: nat)
    requires Rings(mem, [p] + rest, first, end)
    ensures Rings(mem, rest, After(p), end) && After(p) % 2 == 0 && After(p) <= RXSTOP
  {
    hide Rings;
    RingsHead(mem, [p] + rest, first, end);
    AfterIsEven(p);
    assert ([p] + rest)[1..] == rest;
  }

  lemma RingsMore(was: seq<Octet>, now: seq<Octet>, held: seq<Packet>, first: nat, p: Packet)
    requires Rings(was, held, first, p.start) && GoodPacket(p) && |Bytes(held)| + |p.raw| <= RXSIZE - 2
    requires Deposited(was, now, p.start, p.raw)
    ensures Rings(now, held + [p], first, After(p))
  {
    hide GoodPacket, Slice, Deposited, After;
    var total := |Bytes(held)|;
    LinkedEnd(held, first, p.start);
    LinkedMore(held, first, p.start, p);
    assert |now| == RAM by { DepositedSize(was, now, p.start, p.raw); }
    DepositedSlices(was, now, first, total, p.raw);
    SliceParts(now, first, total, |p.raw|);
  }

  lemma DepositedSize(was: seq<Octet>, now: seq<Octet>, a: nat, raw: seq<Octet>)
    requires Deposited(was, now, a, raw)
    ensures |now| == RAM
  {
  }

  lemma NewPacket(p: Packet, rest: seq<Octet>)
    requires p.start <= RXSTOP && p.start % 2 == 0 && |rest| % 2 == 0 && 18 <= |rest| <= RXSIZE - 4 && GoodStatus(rest[..4])
    requires var next := Wrap(p.start + 2 + |rest|);
             |p.raw| == |rest| + 2 && p.raw[2..] == rest && p.raw[0] == next % 0x100 && p.raw[1] == next / 0x100
    ensures GoodPacket(p) && After(p) == Wrap(p.start + 2 + |rest|)
  {
    assert p.raw[2..6] == p.raw[2..][..4];
  }

  /** A packet of the hardware passes the tests of the driver. */
  lemma HeaderPasses(p: Packet)
    requires GoodPacket(p)
    ensures var next := Pair(p.raw[1], p.raw[0]);
            next == After(p) <= RXSTOP && next % 2 == 0 && GoodStatus(p.raw[..PREAMBLE][2..6])
  {
    AfterIsEven(p);
    assert p.raw[..PREAMBLE][2..6] == p.raw[2..6];
  }

  /** In every run the register that protects held packets is odd, as the erratum demands, and in the ring. */
  lemma ReadPointerOdd(c: Controller)
    requires c.Valid()
    ensures c.rxReadPtr % 2 == 1 && RXSTART <= c.rxReadPtr <= RXSTOP
  {
    hide Rings;
    RingsFacts(c.mem[..], c.Held(), c.First(), c.rxWritePtr);
  }
}
