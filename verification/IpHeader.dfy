/** The IP header (section 3.1 of RFC 791) that the device writes, and the one that it accepts. */
module IpHeader {
  import opened Checksum

  const SIZE: nat := 20
  const MY_IP_TTL: Octet := 100

  type Ip = a: seq<Octet> | |a| == 4 witness [0, 0, 0, 0]

  /** What IPGetHeader hands to its caller. */
  datatype Received = Rejected | Accepted(localIP: Ip, remote: Ip, protocol: Octet, len: nat, headerLen: nat)

  // ---------------------------------------------------------------- the fields of a header

  function High(w: nat): (b: Octet)
    requires w < W
  {
    w / 0x100
  }

  function Low(w: nat): (b: Octet) {
    w % 0x100
  }

  /** A 16-bit field in network order. */
  function Field(p: seq<Octet>, i: nat): nat
    requires i + 2 <= |p|
  {
    Pair(p[i], p[i + 1])
  }

  /** Version and header length, in words of four bytes. */
  function Version(p: seq<Octet>): nat
    requires |p| >= SIZE
  {
    p[0] / 0x10
  }

  function HeaderLength(p: seq<Octet>): nat
    requires |p| >= SIZE
  {
    p[0] % 0x10 * 4
  }

  /** Version 4, not the later part of a fragmented packet, a right checksum over the whole header. The
      flag for more fragments is not looked at. */
  predicate Good(p: seq<Octet>)
    requires |p| >= 60
  {
    && Version(p) == 4
    && Field(p, 6) % 0x2000 == 0
    && OnesSum(BigWords(p[..HeaderLength(p)])) == 0xFFFF
  }

  /** Which headers pass, byte by byte: version 4, fragment offset 0, and words over the length in the first
      byte whose sum is a positive multiple of 0xFFFF (section 3.1 of RFC 791, section 1 of RFC 1071). */
  lemma GoodExactly(p: seq<Octet>)
    requires |p| >= 60
    ensures Good(p) <==>
              && 0x40 <= p[0] < 0x50 && p[6] % 0x20 == 0 && p[7] == 0
              && var total := Total(BigWords(p[..4 * (p[0] % 0x10)]));
              total > 0 && total % 0xFFFF == 0
  {
    hide OnesSum, Total, BigWords;
    var words := BigWords(p[..4 * (p[0] % 0x10)]);
    OnesSumIsCanonical(words);
    CanonicalFull(Total(words));
    var q: nat, r: nat := p[6] / 0x20, p[6] % 0x20;
    OffsetBits(Pair(p[6], p[7]), q, 0x100 * r + p[7]);
  }

  lemma CanonicalFull(x: nat)
    ensures Canonical(x) == 0xFFFF <==> x > 0 && x % 0xFFFF == 0
  {
    if x > 0 {
      var q, r := (x - 1) / 0xFFFF, (x - 1) % 0xFFFF;
      assert x - 1 == 0xFFFF * q + r;
      if r == 0xFFFE {
        FullMultiple(x, q + 1, 0);
      } else {
        FullMultiple(x, q, r + 1);
      }
    }
  }

  lemma FullMultiple(x: nat, q: nat, r: nat)
    requires x == 0xFFFF * q + r && r < 0xFFFF
    ensures x % 0xFFFF == r
  {
  }

  // ---------------------------------------------------------------- the two operations

  class IpLayer {
    var identifier: nat
    var headerLen: nat
    var myIP: Ip

    constructor (myIP: Ip)
      ensures this.myIP == myIP && identifier == 0
    {
      this.myIP, identifier, headerLen := myIP, 0, 0;
    }

    /** IPGetHeader; `p` is the receive buffer from the IP header on, with all that may follow the packet. */
    method IPGetHeader(p: seq<Octet>) returns (r: Received)
      requires 60 <= |p|
      modifies this`headerLen
      ensures r.Accepted? <==> Good(p)
      ensures r.Accepted? ==>
                && r.headerLen == headerLen == HeaderLength(p)
                && r.localIP == p[16..20] && r.remote == p[12..16] && r.protocol == p[9]
                && r.len == (Field(p, 2) + W - HeaderLength(p)) % W
    {
      hide OnesSum, LittleWords, BigWords, Masked, Swap, Pair;
      var header := p[..SIZE];
      if Version(header) != 4 {
        return Rejected;
      }
      FragmentMask(p[6], p[7]);
      if Masked(Pair(header[7], header[6])) != 0 {
        return Rejected;
      }
      headerLen := HeaderLength(header);
      var calculated := CalcIPBufferChecksum(p[..headerLen]);
      ZeroChecksum(p[..headerLen]);
      if calculated != 0 {
        return Rejected;
      }
      SwappedField(p[2], p[3]);
      var totalLength := Swap(Pair(header[3], header[2]));
      r := Accepted(header[16..20], header[12..16], header[9], (totalLength + W - headerLen) % W, headerLen);
    }

    /** IPPutHeader: the header is built in host order, swapped in place, and then given its checksum. */
    method IPPutHeader(remote: Ip, protocol: Octet, len: nat) returns (header: array<Octet>)
      requires len < W && identifier < W
      modifies this`identifier, this`headerLen
      ensures identifier == (old(identifier) + 1) % W && headerLen == SIZE
      ensures fresh(header) && header[..] == Header(identifier, myIP, remote, protocol, len)
    {
      hide HostOrder, Bare, OnesSum, LittleWords, High, Low, SwapFields;
      headerLen := SIZE;
      identifier := (identifier + 1) % W;
      header := new Octet[20](_ => 0);
      FillHeader(header, (SIZE + len) % W, identifier, protocol, myIP, remote);
      SwapIPHeader(header);
      SwappedIsBare(identifier, myIP, remote, protocol, len);
      ghost var bare: seq<Octet> := Bare(identifier, myIP, remote, protocol, len);
      var checksum := CalcIPBufferChecksum(header[..]);
      ChecksumRange(bare);
      header[10] := Low(checksum);
      header[11] := High(checksum);
      assert header[..] == bare[10 := Low(checksum)][11 := High(checksum)];
    }
  }

  method FillHeader(header: array<Octet>, totalLength: nat, identifier: nat, protocol: Octet, source: Ip, destination: Ip)
    requires header.Length == SIZE && totalLength < W && identifier < W
    modifies header
    ensures header[..] == HostOrder(totalLength, identifier, protocol, source, destination)
  {
    hide High, Low;
    PutArray(header, 0, [0x45, 0, Low(totalLength), High(totalLength)]);
    PutArray(header, 4, [Low(identifier), High(identifier), 0, 0]);
    PutArray(header, 8, [MY_IP_TTL, protocol, 0, 0]);
    PutArray(header, 12, source);
    PutArray(header, 16, destination);
    assert header[..] == header[..20];
  }

  /** Store four bytes after those already there. */
  method PutArray(header: array<Octet>, at: nat, field: seq<Octet>)
    requires at + 4 <= header.Length && |field| == 4
    modifies header
    ensures header[..at + 4] == old(header[..at]) + field
  {
    for k := 0 to 4
      invariant forall j :: 0 <= j < at ==> header[j] == old(header[j])
      invariant forall j :: 0 <= j < k ==> header[at + j] == field[j]
    {
      header[at + k] := field[k];
    }
  }

  /** SwapIPHeader: length, identification and checksum change their byte order in place. */
  method SwapIPHeader(header: array<Octet>)
    requires header.Length == SIZE
    modifies header
    ensures header[..] == SwapFields(old(header[..]))
  {
    header[2], header[3] := header[3], header[2];
    header[4], header[5] := header[5], header[4];
    header[10], header[11] := header[11], header[10];
  }

  function SwapFields(h: seq<Octet>): (r: seq<Octet>)
    requires |h| == SIZE
    ensures |r| == SIZE
  {
    h[..2] + [h[3], h[2], h[5], h[4]] + h[6..10] + [h[11], h[10]] + h[12..]
  }

  /** Swapping a header back gives it again: no byte is lost. */
  lemma SwappedTwice(h: seq<Octet>)
    requires |h| == SIZE
    ensures SwapFields(SwapFields(h)) == h
  {
  }

  /** The header as it is filled in on a machine that stores the low byte first. */
  function HostOrder(totalLength: nat, identifier: nat, protocol: Octet, source: Ip, destination: Ip): (r: seq<Octet>)
    requires totalLength < W && identifier < W
    ensures |r| == SIZE
  {
    [0x45, 0, Low(totalLength), High(totalLength), Low(identifier), High(identifier), 0, 0, MY_IP_TTL, protocol, 0, 0]
    + source + destination
  }

  /** The header on the wire before its checksum is filled in. */
  function Bare(identifier: nat, source: Ip, destination: Ip, protocol: Octet, len: nat): (r: seq<Octet>)
    requires identifier < W
    ensures |r| == SIZE
  {
    var total := (SIZE + len) % W;
    [0x45, 0, High(total), Low(total), High(identifier), Low(identifier), 0, 0, MY_IP_TTL, protocol, 0, 0] + source + destination
  }

  lemma SwappedIsBare(identifier: nat, source: Ip, destination: Ip, protocol: Octet, len: nat)
    requires identifier < W
    ensures SwapFields(HostOrder((SIZE + len) % W, identifier, protocol, source, destination))
         == Bare(identifier, source, destination, protocol, len)
  {
    hide High, Low;
  }

  /** The header with the checksum that belongs to it. */
  function Filled(bare: seq<Octet>): (r: seq<Octet>)
    requires |bare| == SIZE
    ensures |r| == SIZE
  {
    ChecksumRange(bare);
    var checksum := 0xFFFF - OnesSum(LittleWords(bare));
    bare[10 := Low(checksum)][11 := High(checksum)]
  }

  function Header(identifier: nat, source: Ip, destination: Ip, protocol: Octet, len: nat): (r: seq<Octet>)
    requires identifier < W
    ensures |r| == SIZE
  {
    Filled(Bare(identifier, source, destination, protocol, len))
  }

  lemma ChecksumRange(data: seq<Octet>)
    ensures 0 <= 0xFFFF - OnesSum(LittleWords(data)) < W
  {
    ChecksumOnTheWire(data);
  }

  // ---------------------------------------------------------------- the tests on a received header

  /** `& 0xFF1F`: the low five bits of the low byte, and the high byte. */
  function Masked(w: nat): nat {
    w / 0x100 * 0x100 + w % 0x20
  }

  /** Read low byte first, the mask is zero exactly when the 13-bit fragment offset is. */
  lemma FragmentMask(b6: Octet, b7: Octet)
    ensures Masked(Pair(b7, b6)) == 0 <==> Pair(b6, b7) % 0x2000 == 0
  {
    Digits(Pair(b7, b6), b7, b6);
    var q, r := b6 / 0x20, b6 % 0x20;
    Remainder(Pair(b7, b6), 8 * b7 + q, r);
    OffsetBits(Pair(b6, b7), q, 0x100 * r + b7);
  }

  lemma Remainder(w: nat, q: nat, r: nat)
    requires w == 0x20 * q + r && r < 0x20
    ensures w % 0x20 == r
  {
  }

  lemma OffsetBits(w: nat, q: nat, r: nat)
    requires w == 0x2000 * q + r && r < 0x2000
    ensures w % 0x2000 == r
  {
  }

  lemma SwappedField(hi: Octet, lo: Octet)
    ensures Swap(Pair(lo, hi)) == Pair(hi, lo)
  {
    Digits(Pair(lo, hi), lo, hi);
  }

  /** The device's checksum over data is zero exactly when the one's complement sum is all ones. */
  lemma ZeroChecksum(data: seq<Octet>)
    ensures 0xFFFF - OnesSum(LittleWords(data)) == 0 <==> OnesSum(BigWords(data)) == 0xFFFF
  {
    hide OnesSum, LittleWords, BigWords, Swap;
    LittleIsSwapped(data);
    SwappedSum(BigWords(data));
    SwapFull(OnesSum(BigWords(data)));
  }

  lemma SwapFull(w: nat)
    requires w < W
    ensures Swap(w) == 0xFFFF <==> w == 0xFFFF
  {
    var hi, lo := w / 0x100, w % 0x100;
    Digits(w, hi, lo);
    hide Swap;
  }

  // ---------------------------------------------------------------- round trip

  /** Filling in the checksum makes the sum of all words all ones. */
  lemma FilledSum(bare: seq<Octet>)
    requires |bare| == SIZE && bare[10] == 0 == bare[11]
    ensures OnesSum(BigWords(Filled(bare))) == 0xFFFF
  {
    ChecksumRange(bare);
    var c := 0xFFFF - OnesSum(LittleWords(bare));
    var full: seq<Octet> := Filled(bare);
    TotalOfTen(bare);
    TotalOfTen(full);
    ZeroChecksum(full);
    hide LittleWords, Total, OnesSum, BigWords;
    assert full[..10] == bare[..10] && full[12..] == bare[12..];
    assert Pair(full[11], full[10]) == c;
    OnesSumIsCanonical(LittleWords(bare));
    OnesSumIsCanonical(LittleWords(full));
    Complement(Total(LittleWords(bare)));
  }

  lemma Complement(x: nat)
    ensures Canonical(x) <= 0xFFFF && Canonical(x + (0xFFFF - Canonical(x))) == 0xFFFF
  {
    if x > 0 {
      var q, r := (x - 1) / 0xFFFF, (x - 1) % 0xFFFF;
      assert x - 1 == 0xFFFF * q + r;
      assert x + (0xFFFF - Canonical(x)) - 1 == 0xFFFF * q + 0xFFFE;
    }
  }

  lemma TotalOfTen(d: seq<Octet>)
    requires |d| == SIZE
    ensures Total(LittleWords(d)) == Total(LittleWords(d[..10])) + Pair(d[11], d[10]) + Total(LittleWords(d[12..]))
  {
    hide LittleWords, Total, Pair;
    var two: seq<Octet> := [d[10], d[11]];
    assert d == d[..10] + (two + d[12..]);
    OneWord(d[10], d[11]);
    LittleWordsConcat(d[..10], two + d[12..]);
    LittleWordsConcat(two, d[12..]);
  }

  lemma OneWord(lo: Octet, hi: Octet)
    ensures Total(LittleWords([lo, hi])) == Pair(hi, lo)
  {
    assert [lo, hi][2..] == [];
  }

  lemma FieldsOfHeader(identifier: nat, source: Ip, destination: Ip, protocol: Octet, len: nat, payload: seq<Octet>)
    requires identifier < W && |payload| >= 40
    ensures var p := Header(identifier, source, destination, protocol, len) + payload;
            && Version(p) == 4 && HeaderLength(p) == SIZE && p[..SIZE] == Header(identifier, source, destination, protocol, len)
            && p[12..16] == source && p[16..20] == destination && p[9] == protocol
            && Field(p, 2) == (SIZE + len) % W && Field(p, 6) == 0
            && Field(p, 4) == identifier && p[1] == 0 && p[8] == MY_IP_TTL
  {
    hide OnesSum, LittleWords, Filled, Bare;
    var total := (SIZE + len) % W;
    var bare := Bare(identifier, source, destination, protocol, len);
    var header := Header(identifier, source, destination, protocol, len);
    BareFields(identifier, source, destination, protocol, len);
    FilledKeeps(bare);
    var p := header + payload;
    assert p[..SIZE] == header;
    assert p[12..16] == header[12..16] && p[16..20] == header[16..20];
  }

  lemma FilledKeeps(bare: seq<Octet>)
    requires |bare| == SIZE
    ensures forall k :: 0 <= k < SIZE && k != 10 && k != 11 ==> Filled(bare)[k] == bare[k]
    ensures Filled(bare)[12..16] == bare[12..16] && Filled(bare)[16..20] == bare[16..20]
  {
    hide OnesSum, LittleWords;
  }

  lemma BareFields(identifier: nat, source: Ip, destination: Ip, protocol: Octet, len: nat)
    requires identifier < W
    ensures var bare := Bare(identifier, source, destination, protocol, len);
            && bare[0] == 0x45 && Pair(bare[2], bare[3]) == (SIZE + len) % W && bare[6] == 0 == bare[7] && bare[9] == protocol
            && bare[10] == 0 == bare[11] && bare[12..16] == source && bare[16..20] == destination
            && Pair(bare[4], bare[5]) == identifier && bare[1] == 0 && bare[8] == MY_IP_TTL
  {
    var total := (SIZE + len) % W;
    assert Pair(High(total), Low(total)) == total;
    assert Pair(High(identifier), Low(identifier)) == identifier;
    hide High, Low;
  }

  lemma PayloadLength(len: nat)
    requires len < W
    ensures ((SIZE + len) % W + W - SIZE) % W == len
  {
  }

  /** Every header that the device writes passes its own tests, and gives back protocol, addresses and
      length, for every payload length that a 16-bit word can hold; its other fields are the identification,
      no type of service, no fragment, and the time to live. */
  lemma HeaderAccepted(identifier: nat, source: Ip, destination: Ip, protocol: Octet, len: nat, payload: seq<Octet>)
    requires identifier < W && len < W && |payload| >= 40
    ensures var p := Header(identifier, source, destination, protocol, len) + payload;
            && Good(p) && HeaderLength(p) == SIZE
            && p[12..16] == source && p[16..20] == destination && p[9] == protocol
            && (Field(p, 2) + W - HeaderLength(p)) % W == len
            && Field(p, 4) == identifier && Field(p, 6) == 0 && p[1] == 0 && p[8] == 100
  {
    hide OnesSum, BigWords, Filled, Field, HeaderLength, Version;
    FieldsOfHeader(identifier, source, destination, protocol, len, payload);
    FilledSum(Bare(identifier, source, destination, protocol, len));
    PayloadLength(len);
  }

  /** A first fragment, with more fragments announced and offset zero, is taken for a whole packet. */
  lemma FirstFragmentAccepted(source: Ip, destination: Ip, payload: seq<Octet>)
    requires |payload| >= 40
    ensures var p := Filled(Bare(1, source, destination, 17, 8)[6 := 0x20]) + payload;
            Field(p, 6) / 0x2000 % 2 == 1 && Good(p)
  {
    hide OnesSum, BigWords, LittleWords;
    var full: seq<Octet> := Filled(Bare(1, source, destination, 17, 8)[6 := 0x20]);
    FilledSum(Bare(1, source, destination, 17, 8)[6 := 0x20]);
    assert (full + payload)[..SIZE] == full;
  }
}
