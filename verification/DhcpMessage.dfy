/** DHCP messages (sections 2 and 4.1 of RFC 2131, options as in RFC 2132): the client's reader, its
    writer, and what a message says. */
module DhcpMessage {
  import opened Crc16

  const BOOT_REPLY: byte := 2
  const UNKNOWN: byte := 0
  const DISCOVER: byte := 1
  const OFFER: byte := 2
  const REQUEST: byte := 3
  const ACK: byte := 5
  const NAK: byte := 6

  const SUBNET_MASK: byte := 1
  const ROUTER: byte := 3
  const REQUESTED_IP: byte := 50
  const LEASE_TIME: byte := 51
  const MESSAGE_TYPE: byte := 53
  const SERVER_ID: byte := 54
  const END_OPTION: byte := 255
  const PAD: byte := 0

  /** No packet shorter than this is looked at. */
  const LEAST: nat := 250
  const OPTIONS: nat := 240

  type Ip = a: seq<byte> | |a| == 4 witness [0, 0, 0, 0]
  type Mac = a: seq<byte> | |a| == 6 witness [0, 0, 0, 0, 0, 0]

  /** What reading a message can change in the client. */
  datatype Vars = Vars(offerReceived: bool, serverID: Ip, leaseTime: nat, tempIP: Ip, tempMask: Ip, tempGateway: Ip,
                       validIP: bool, validMask: bool, validGateway: bool)

  /** What the options said: the message type and the server identifier, or that the message is invalid. */
  datatype Heard = Heard(v: Vars, kind: byte, server: Ip) | Invalid(v: Vars)

  // ---------------------------------------------------------------- what the reader makes of a message

  /** UDPGet leaves its variable alone beyond the end of the packet. */
  function ByteAt(p: seq<byte>, pos: nat, was: byte): byte {
    if pos < |p| then p[pos] else was
  }

  function Four(p: seq<byte>, pos: nat, was: Ip): Ip {
    [ByteAt(p, pos, was[0]), ByteAt(p, pos + 1, was[1]), ByteAt(p, pos + 2, was[2]), ByteAt(p, pos + 3, was[3])]
  }

  function Number(a: Ip): nat {
    0x100_0000 * (a[0] as nat) + 0x1_0000 * (a[1] as nat) + 0x100 * (a[2] as nat) + a[3] as nat
  }

  function Bytes(n: nat): Ip {
    [Byte(n / 0x100_0000 % 0x100), Byte(n / 0x1_0000 % 0x100), Byte(n / 0x100 % 0x100), Byte(n % 0x100)]
  }

  /** The bytes of a 32-bit number are its own, so that a time of which some bytes are missing keeps them. */
  lemma NumberOfBytes(n: nat)
    requires n < 0x1_0000_0000
    ensures Number(Bytes(n)) == n
  {
    FourDigits(n);
    var b0, b1 := n / 0x100_0000 % 0x100, n / 0x1_0000 % 0x100;
    var b2, b3 := n / 0x100 % 0x100, n % 0x100;
    NumberOfFour(Byte(b0), Byte(b1), Byte(b2), Byte(b3));
    hide Byte, Number;
  }

  lemma FourDigits(n: nat)
    requires n < 0x1_0000_0000
    ensures n == 0x100_0000 * (n / 0x100_0000 % 0x100) + 0x1_0000 * (n / 0x1_0000 % 0x100) + 0x100 * (n / 0x100 % 0x100) + n % 0x100
  {
    assert n / 0x100 / 0x100 == n / 0x1_0000 && n / 0x1_0000 / 0x100 == n / 0x100_0000;
  }

  lemma NumberOfFour(a: byte, b: byte, c: byte, d: byte)
    ensures Number([a, b, c, d]) == 0x100_0000 * (a as nat) + 0x1_0000 * (b as nat) + 0x100 * (c as nat) + d as nat
  {
  }

  /** The lease time is kept at 31/32 of what the server gives. */
  function Lease(p: seq<byte>, pos: nat, was: nat): nat {
    var given := Number(Four(p, pos, Bytes(was)));
    given - given / 32
  }

  /** What counting down a byte to zero in the condition of a loop leaves in it. */
  const COUNTED_DOWN: byte := 0xFF

  /** The reader's variables: those of the client, the message type, the server identifier, and the byte in
      which it counts what it skips, which matters only where the packet ends before a length. */
  datatype Seen = Seen(v: Vars, kind: byte, server: Ip, j: byte)

  predicate FixedLength(code: byte) {
    code == MESSAGE_TYPE || code == SUBNET_MASK || code == SERVER_ID || code == LEASE_TIME
  }

  function LengthAt(p: seq<byte>, pos: nat, j: byte): byte
    requires pos < |p|
  {
    ByteAt(p, pos + 1, if FixedLength(p[pos]) then p[pos] else j)
  }

  /** Options of a wrong length make a message invalid, and so does being a second offer. */
  predicate Acceptable(s: Seen, p: seq<byte>, pos: nat)
    requires pos < |p|
  {
    var code, len := p[pos], LengthAt(p, pos, s.j);
    if code == MESSAGE_TYPE then len == 1 && !(s.v.offerReceived && ByteAt(p, pos + 2, s.kind) == OFFER)
    else if FixedLength(code) then len == 4
    else if code == ROUTER then len >= 4
    else true
  }

  /** What one option does; the parameters of an offer are kept until it is given up. */
  function After(s: Seen, p: seq<byte>, pos: nat): Seen
    requires pos < |p|
  {
    var code, first := p[pos], !s.v.offerReceived;
    var value := pos + 2;
    if code == MESSAGE_TYPE then s.(kind := ByteAt(p, value, s.kind))
    else if code == SERVER_ID then s.(server := Four(p, value, s.server))
    else if code == SUBNET_MASK then
      if first then s.(v := s.v.(tempMask := Four(p, value, s.v.tempMask), validMask := true)) else s
    else if code == LEASE_TIME then
      if first then s.(v := s.v.(leaseTime := Lease(p, value, s.v.leaseTime))) else s
    else
      var s' := s.(j := COUNTED_DOWN);
      if code == ROUTER && first then
        s'.(v := s.v.(tempGateway := Four(p, value, s.v.tempGateway), validGateway := true))
      else s'
  }

  /** The options from `pos` on. Every option but the last has a length, padding included. */
  function Options(s: Seen, p: seq<byte>, pos: nat): Heard
    decreases if pos < |p| then |p| - pos else 0
  {
    if pos >= |p| || p[pos] == END_OPTION then Heard(s.v, s.kind, s.server)
    else if !Acceptable(s, p, pos) then Invalid(s.v)
    else Options(After(s, p, pos), p, pos + 2 + LengthAt(p, pos, s.j) as nat)
  }

  /** _DHCPReceive: the variables afterwards and the kind of message. `stale` and `j` are what the
      reader's own variables hold before it sets them. */
  function Received(v: Vars, mac: Mac, p: seq<byte>, stale: Ip, j: byte): (Vars, byte)
    requires |p| >= LEAST
  {
    if p[0] != BOOT_REPLY then Settle(v, UNKNOWN, stale)
    else if !AddressedTo(p, mac) then (v, UNKNOWN)
    else
      var v1 := if v.offerReceived then v else v.(tempIP := p[16..20], validIP := true);
      match Options(Seen(v1, UNKNOWN, stale, j), p, OPTIONS)
      case Invalid(v2) => (v2, UNKNOWN)
      case Heard(v2, kind, server) => Settle(v2, kind, server)
  }

  predicate AddressedTo(p: seq<byte>, mac: Mac) {
    |p| >= 34 && p[28..34] == mac
  }

  /** An offer brings its server identifier; other messages must match the one that is known. */
  function Settle(v: Vars, kind: byte, server: Ip): (Vars, byte) {
    if kind == OFFER then (v.(serverID := server, offerReceived := true), OFFER)
    else (v, if v.serverID != server then UNKNOWN else kind)
  }

  /** The read position does not pass the end of the packet. */
  function Within(p: seq<byte>, pos: nat): nat {
    if pos <= |p| then pos else |p|
  }

  lemma OptionsStep(s: Seen, p: seq<byte>, pos: nat)
    ensures Options(s, p, Within(p, pos)) == Options(s, p, pos)
    ensures pos < |p| && p[pos] != END_OPTION ==>
              if Acceptable(s, p, pos)
              then Options(s, p, pos) == Options(After(s, p, pos), p, Within(p, pos + 2 + LengthAt(p, pos, s.j) as nat))
              else Options(s, p, pos) == Invalid(s.v)
    ensures pos >= |p| || p[pos] == END_OPTION ==> Options(s, p, pos) == Heard(s.v, s.kind, s.server)
  {
    hide After, Acceptable;
  }

  // ---------------------------------------------------------------- what a message says

  /** Where the next option begins: a pad option is a single byte, the others have a length. */
  function NextOption(p: seq<byte>, pos: nat): nat
    requires pos + 1 < |p|
  {
    if p[pos] == PAD then pos + 1 else pos + 2 + p[pos + 1] as nat
  }

  /** The options from `pos` on are whole and come to an end option. */
  ghost predicate Whole(p: seq<byte>, pos: nat)
    decreases if pos < |p| then |p| - pos else 0
  {
    pos < |p| && (p[pos] == END_OPTION || (pos + 1 < |p| && Whole(p, NextOption(p, pos))))
  }

  /** The places of the options from `pos` on, pads left out. */
  ghost function Listed(p: seq<byte>, pos: nat): seq<nat>
    decreases if pos < |p| then |p| - pos else 0
  {
    if pos + 1 >= |p| || p[pos] == END_OPTION then []
    else (if p[pos] == PAD then [] else [pos]) + Listed(p, NextOption(p, pos))
  }

  /** One of the options from `pos` on has this code and this value. */
  ghost predicate Says(p: seq<byte>, pos: nat, code: byte, value: seq<byte>)
    decreases if pos < |p| then |p| - pos else 0
  {
    pos + 1 < |p| && p[pos] != END_OPTION &&
    ((p[pos] != PAD && OptionAt(p, pos, code, value)) || Says(p, NextOption(p, pos), code, value))
  }

  predicate OptionAt(p: seq<byte>, pos: nat, code: byte, value: seq<byte>) {
    && pos + 2 + |value| <= |p| && p[pos] == code && p[pos + 1] as nat == |value|
    && p[pos + 2..pos + 2 + |value|] == value
  }

  /** What the reader would make of the options if it took pads for single bytes. */
  ghost function Meant(s: Seen, p: seq<byte>, pos: nat): Heard
    decreases if pos < |p| then |p| - pos else 0
  {
    if pos + 1 >= |p| || p[pos] == END_OPTION then Heard(s.v, s.kind, s.server)
    else if p[pos] == PAD then Meant(s, p, pos + 1)
    else if !Acceptable(s, p, pos) then Invalid(s.v)
    else Meant(After(s, p, pos), p, NextOption(p, pos))
  }

  lemma WholeBeyond(p: seq<byte>, pos: nat)
    requires Whole(p, pos) && p[pos] != END_OPTION
    ensures pos + 1 < |p| && NextOption(p, pos) < |p| && Whole(p, NextOption(p, pos))
  {
    assert Whole(p, NextOption(p, pos));
  }

  lemma FourWhole(p: seq<byte>, pos: nat, was: Ip)
    requires pos + 4 <= |p|
    ensures Four(p, pos, was) == p[pos..pos + 4]
  {
  }

  lemma OptionSaid(s: Seen, p: seq<byte>, pos: nat)
    requires Whole(p, pos) && p[pos] != END_OPTION && p[pos] != PAD
    requires pos + 1 < |p| && RightLength(p[pos], p[pos + 1])
    ensures var t := After(s, p, pos);
            && (p[pos] == MESSAGE_TYPE ==> OptionAt(p, pos, MESSAGE_TYPE, [t.kind]))
            && (p[pos] == SERVER_ID ==> OptionAt(p, pos, SERVER_ID, t.server))
            && (p[pos] != MESSAGE_TYPE ==> t.kind == s.kind) && (p[pos] != SERVER_ID ==> t.server == s.server)
  {
    hide Lease, Four;
    WholeBeyond(p, pos);
    if p[pos] == MESSAGE_TYPE {
      assert p[pos + 2..pos + 3] == [p[pos + 2]];
    } else if p[pos] == SERVER_ID {
      assert p[pos + 1] == 4;
      FourWhole(p, pos + 2, s.server);
    }
  }

  /** The message type and the server identifier of a whole message are ones that it says, or those that
      the reader started with, if it says none. */
  lemma {:induction false} MeantSaid(s: Seen, p: seq<byte>, pos: nat)
    requires Whole(p, pos) && Meant(s, p, pos).Heard?
    ensures var h := Meant(s, p, pos);
            && (Says(p, pos, MESSAGE_TYPE, [h.kind]) || (h.kind == s.kind && forall k :: !Says(p, pos, MESSAGE_TYPE, [k])))
            && (Says(p, pos, SERVER_ID, h.server) || (h.server == s.server && forall a: seq<byte> :: !Says(p, pos, SERVER_ID, a)))
    decreases |p| - pos
  {
    hide After, Acceptable, LengthAt, NextOption;
    if p[pos] != END_OPTION {
      WholeBeyond(p, pos);
      PadIsOneByte(p, pos);
      var next := NextOption(p, pos);
      var t := if p[pos] == PAD then s else After(s, p, pos);
      if p[pos] != PAD {
        RightIsAcceptable(s, p, pos);
        OptionSaid(s, p, pos);
      }
      MeantSaid(t, p, next);
      var h := Meant(t, p, next);
      if p[pos] != SERVER_ID && !Says(p, next, SERVER_ID, h.server) {
        forall a: seq<byte> ensures !Says(p, pos, SERVER_ID, a) {
          assert !Says(p, next, SERVER_ID, a);
        }
      }
    }
  }

  lemma PadIsOneByte(p: seq<byte>, pos: nat)
    requires pos + 1 < |p|
    ensures p[pos] == PAD ==> NextOption(p, pos) == pos + 1
    ensures NextOption(p, pos) > pos
  {
  }

  // ---------------------------------------------------------------- pads

  /** Where the reader goes on after an option: it takes every option to have a length. */
  function Beyond(p: seq<byte>, pos: nat): nat
    requires pos + 1 < |p|
  {
    pos + 2 + p[pos + 1] as nat
  }

  lemma BeyondOption(p: seq<byte>, pos: nat)
    requires pos + 1 < |p|
    ensures Beyond(p, pos) > pos + 1 && (p[pos] != PAD ==> Beyond(p, pos) == NextOption(p, pos))
    ensures p[pos + 1] == PAD ==> Beyond(p, pos) == pos + 2
    ensures p[pos + 1] == END_OPTION ==> Beyond(p, pos) == pos + 257
  {
  }

  /** The places where the reader sees options, pads left out. */
  ghost function Visited(p: seq<byte>, pos: nat): seq<nat>
    decreases if pos < |p| then |p| - pos else 0
  {
    if pos >= |p| || p[pos] == END_OPTION then []
    else (if p[pos] == PAD then [] else [pos]) + if pos + 1 < |p| then Visited(p, Beyond(p, pos)) else []
  }

  /** Pads come in pairs; a single one may stand before the end option if the reader, which then goes on
      256 bytes beyond, finds no option there. */
  ghost predicate PadsPaired(p: seq<byte>, pos: nat)
    requires Whole(p, pos)
    decreases |p| - pos
  {
    p[pos] == END_OPTION || (
      WholeBeyond(p, pos);
      if p[pos] != PAD then PadsPaired(p, NextOption(p, pos))
      else if p[pos + 1] == PAD then WholeBeyond(p, pos + 1); PadsPaired(p, pos + 2)
      else p[pos + 1] == END_OPTION && Visited(p, pos + 257) == [])
  }

  /** What is visited lies ahead. */
  lemma {:induction false} VisitedAhead(p: seq<byte>, pos: nat)
    ensures forall k :: 0 <= k < |Visited(p, pos)| ==> Visited(p, pos)[k] >= pos
    decreases if pos < |p| then |p| - pos else 0
  {
    if pos + 1 < |p| && p[pos] != END_OPTION {
      VisitedAhead(p, Beyond(p, pos));
    }
  }

  /** The reader sees exactly the options of a whole message if and only if its pads are paired. */
  lemma {:induction false} VisitedIfPaired(p: seq<byte>, pos: nat)
    requires Whole(p, pos)
    ensures Visited(p, pos) == Listed(p, pos) <==> PadsPaired(p, pos)
    decreases |p| - pos
  {
    hide NextOption, Beyond;
    if p[pos] != END_OPTION {
      WholeBeyond(p, pos);
      PadIsOneByte(p, pos);
      BeyondOption(p, pos);
      if p[pos] != PAD {
        VisitedIfPaired(p, NextOption(p, pos));
        assert [pos] + Visited(p, Beyond(p, pos)) == Visited(p, pos) && [pos] + Listed(p, NextOption(p, pos)) == Listed(p, pos);
        assert Visited(p, pos)[1..] == Visited(p, Beyond(p, pos)) && Listed(p, pos)[1..] == Listed(p, NextOption(p, pos));
      } else if p[pos + 1] == PAD {
        WholeBeyond(p, pos + 1);
        PadIsOneByte(p, pos + 1);
        VisitedIfPaired(p, pos + 2);
        PadsSkipped(p, pos);
        assert Listed(p, pos + 1) == Listed(p, pos + 2);
      } else {
        VisitedAhead(p, Beyond(p, pos));
        PadsSkipped(p, pos);
        if p[pos + 1] != END_OPTION {
          WholeBeyond(p, pos + 1);
          assert Listed(p, pos + 1)[0] == pos + 1;
        }
      }
    }
  }

  lemma PadsSkipped(p: seq<byte>, pos: nat)
    requires pos + 1 < |p| && p[pos] == PAD
    ensures Visited(p, pos) == Visited(p, Beyond(p, pos)) && Listed(p, pos) == Listed(p, pos + 1)
  {
    hide Beyond;
  }

  /** Where the reader sees no option, it hears nothing. */
  lemma {:induction false} NothingVisited(s: Seen, p: seq<byte>, pos: nat)
    requires Visited(p, pos) == []
    ensures Options(s, p, pos) == Heard(s.v, s.kind, s.server)
    decreases if pos < |p| then |p| - pos else 0
  {
    hide Four, Lease;
    if pos < |p| && p[pos] != END_OPTION {
      assert Acceptable(s, p, pos) && After(s, p, pos) == s.(j := COUNTED_DOWN);
      if pos + 1 < |p| {
        NothingVisited(After(s, p, pos), p, Beyond(p, pos));
      }
    }
  }

  /** A whole option means the same whatever the reader's length variable holds. */
  lemma WholeOption(s: Seen, k: byte, p: seq<byte>, pos: nat)
    requires pos + 1 < |p| && p[pos] != PAD
    ensures LengthAt(p, pos, s.j) == p[pos + 1] && Acceptable(s, p, pos) == Acceptable(s.(j := k), p, pos)
    ensures After(s, p, pos).(j := 0) == After(s.(j := k), p, pos).(j := 0)
    ensures NextOption(p, pos) == pos + 2 + p[pos + 1] as nat
  {
    hide Four, Lease;
  }

  /** These places lie before the last byte of the packet. */
  ghost predicate BeforeLast(p: seq<byte>, places: seq<nat>) {
    forall k :: 0 <= k < |places| ==> places[k] + 1 < |p|
  }

  /** The options at these places, one after the other. */
  ghost function Folded(s: Seen, p: seq<byte>, places: seq<nat>): Heard
    requires BeforeLast(p, places)
    decreases |places|
  {
    if places == [] then Heard(s.v, s.kind, s.server)
    else if !Acceptable(s, p, places[0]) then Invalid(s.v)
    else Folded(After(s, p, places[0]), p, places[1..])
  }

  /** What the reader hears depends only on the options that it visits, whatever its count holds, unless
      one of them is the last byte of the packet. */
  lemma {:induction false} OptionsFolded(s: Seen, k: byte, p: seq<byte>, pos: nat)
    requires BeforeLast(p, Visited(p, pos))
    ensures Options(s, p, pos) == Folded(s.(j := k), p, Visited(p, pos))
    decreases if pos < |p| then |p| - pos else 0
  {
    hide After, Acceptable, LengthAt, NextOption, Beyond, Options, Folded, Visited, BeforeLast;
    if pos + 1 >= |p| || p[pos] == END_OPTION {
      NoMoreVisited(s, k, p, pos);
    } else {
      var next := Beyond(p, pos);
      BeyondOption(p, pos);
      VisitedStep(p, pos);
      if p[pos] == PAD {
        PadRead(s, p, pos);
        BeyondIs(p, pos);
        assert Visited(p, pos) == Visited(p, next);
        OptionsFolded(s.(j := COUNTED_DOWN), k, p, next);
      } else {
        OptionRead(s, p, pos);
        WholeOption(s, k, p, pos);
        FoldedStep(s.(j := k), p, pos, Visited(p, next));
        var t, u := After(s, p, pos), After(s.(j := k), p, pos);
        assert t.(j := u.j) == t.(j := 0).(j := u.j) == u;
        OptionsFolded(t, u.j, p, next);
      }
    }
  }

  lemma NoMoreVisited(s: Seen, k: byte, p: seq<byte>, pos: nat)
    requires BeforeLast(p, Visited(p, pos)) && (pos + 1 >= |p| || p[pos] == END_OPTION)
    ensures Options(s, p, pos) == Folded(s.(j := k), p, Visited(p, pos))
  {
    hide After, Acceptable;
    assert pos + 1 == |p| ==> !BeforeLast(p, [pos]) by {
      assert [pos][0] == pos;
    }
    assert pos + 1 == |p| && p[pos] != END_OPTION && p[pos] != PAD ==> Visited(p, pos) == [pos];
    NothingVisited(s, p, pos);
  }

  lemma VisitedStep(p: seq<byte>, pos: nat)
    requires pos + 1 < |p| && p[pos] != END_OPTION
    ensures Visited(p, pos) == (if p[pos] == PAD then [] else [pos]) + Visited(p, Beyond(p, pos))
  {
    hide Beyond;
  }

  lemma OptionRead(s: Seen, p: seq<byte>, pos: nat)
    requires pos + 1 < |p| && p[pos] != END_OPTION
    ensures Options(s, p, pos) == if Acceptable(s, p, pos) then Options(After(s, p, pos), p, Beyond(p, pos)) else Invalid(s.v)
  {
    hide After, Acceptable;
    LengthWhole(s, p, pos);
  }

  lemma LengthWhole(s: Seen, p: seq<byte>, pos: nat)
    requires pos + 1 < |p|
    ensures LengthAt(p, pos, s.j) == p[pos + 1]
  {
  }

  lemma FoldedStep(s: Seen, p: seq<byte>, pos: nat, rest: seq<nat>)
    requires BeforeLast(p, [pos] + rest)
    ensures pos + 1 < |p| && BeforeLast(p, rest)
    ensures Folded(s, p, [pos] + rest) == if Acceptable(s, p, pos) then Folded(After(s, p, pos), p, rest) else Invalid(s.v)
  {
    hide After, Acceptable;
    var places := [pos] + rest;
    assert places[0] == pos && places[1..] == rest;
    forall k | 0 <= k < |rest| ensures rest[k] + 1 < |p| {
      assert places[k + 1] == rest[k];
    }
  }

  lemma BeyondIs(p: seq<byte>, pos: nat)
    requires pos + 1 < |p|
    ensures Beyond(p, pos) == pos + 2 + p[pos + 1] as nat
  {
  }

  lemma PadRead(s: Seen, p: seq<byte>, pos: nat)
    requires pos + 1 < |p| && p[pos] == PAD
    ensures Options(s, p, pos) == Options(s.(j := COUNTED_DOWN), p, pos + 2 + p[pos + 1] as nat)
  {
    hide Four, Lease;
  }

  /** With paired pads the reader reads a whole message as it is meant. */
  lemma {:induction false} ReadAsMeant(s: Seen, k: byte, p: seq<byte>, pos: nat)
    requires Whole(p, pos) && PadsPaired(p, pos)
    ensures Options(s, p, pos) == Meant(s.(j := k), p, pos)
    decreases |p| - pos
  {
    hide After, Acceptable, LengthAt, NextOption;
    if p[pos] != END_OPTION {
      WholeBeyond(p, pos);
      PadIsOneByte(p, pos);
      if p[pos] != PAD {
        WholeOption(s, k, p, pos);
        if Acceptable(s, p, pos) {
          var t, u := After(s, p, pos), After(s.(j := k), p, pos);
          assert t.(j := u.j) == t.(j := 0).(j := u.j) == u;
          ReadAsMeant(t, u.j, p, NextOption(p, pos));
        }
      } else {
        PadRead(s, p, pos);
        if p[pos + 1] == PAD {
          WholeBeyond(p, pos + 1);
          PadIsOneByte(p, pos + 1);
          ReadAsMeant(s.(j := COUNTED_DOWN), k, p, pos + 2);
        } else {
          NothingVisited(s.(j := COUNTED_DOWN), p, pos + 257);
        }
      }
    }
  }

  /** So with paired pads the message type and the server identifier that the reader finds are ones that a
      whole message says, or those it started with, if the message says none. */
  lemma OptionsSaid(s: Seen, p: seq<byte>, pos: nat)
    requires Whole(p, pos) && PadsPaired(p, pos) && Options(s, p, pos).Heard?
    ensures var h := Options(s, p, pos);
            && (Says(p, pos, MESSAGE_TYPE, [h.kind]) || (h.kind == s.kind && forall k :: !Says(p, pos, MESSAGE_TYPE, [k])))
            && (Says(p, pos, SERVER_ID, h.server) || (h.server == s.server && forall a: seq<byte> :: !Says(p, pos, SERVER_ID, a)))
  {
    hide Options, Meant, Says;
    ReadAsMeant(s, s.j, p, pos);
    assert s.(j := s.j) == s;
    MeantSaid(s, p, pos);
  }

  // ---------------------------------------------------------------- the last word of a message

  datatype Word = Unsaid | Said(value: seq<byte>)

  /** The last value that the message gives for this code. */
  ghost function LastSaid(p: seq<byte>, pos: nat, code: byte): Word
    decreases if pos < |p| then |p| - pos else 0
  {
    if pos + 1 >= |p| || p[pos] == END_OPTION then Unsaid
    else
      var later := LastSaid(p, NextOption(p, pos), code);
      var end := pos + 2 + p[pos + 1] as nat;
      if later.Unsaid? && p[pos] != PAD && p[pos] == code && end <= |p| then Said(p[pos + 2..end]) else later
  }

  lemma {:induction false} LastSaidIsSaid(p: seq<byte>, pos: nat, code: byte)
    ensures match LastSaid(p, pos, code)
            case Said(value) => Says(p, pos, code, value)
            case Unsaid => forall value: seq<byte> :: !Says(p, pos, code, value)
    decreases if pos < |p| then |p| - pos else 0
  {
    hide NextOption;
    if pos + 1 < |p| && p[pos] != END_OPTION {
      PadIsOneByte(p, pos);
      LastSaidIsSaid(p, NextOption(p, pos), code);
      var end := pos + 2 + p[pos + 1] as nat;
      if p[pos] == code && p[pos] != PAD && end <= |p| {
        assert OptionAt(p, pos, code, p[pos + 2..end]);
      }
    }
  }

  predicate RightLength(code: byte, len: byte) {
    if code == MESSAGE_TYPE then len == 1 else if FixedLength(code) then len == 4 else code == ROUTER ==> len >= 4
  }

  /** The options that the reader knows have the lengths that it expects. */
  ghost predicate LengthsRight(p: seq<byte>, pos: nat)
    decreases if pos < |p| then |p| - pos else 0
  {
    pos + 1 >= |p| || p[pos] == END_OPTION ||
    ((p[pos] == PAD || RightLength(p[pos], p[pos + 1])) && LengthsRight(p, NextOption(p, pos)))
  }

  lemma RightIsAcceptable(s: Seen, p: seq<byte>, pos: nat)
    requires pos + 1 < |p|
    ensures After(s, p, pos).v.offerReceived == s.v.offerReceived
    ensures Acceptable(s, p, pos) <==>
              RightLength(p[pos], p[pos + 1])
              && (s.v.offerReceived && p[pos] == MESSAGE_TYPE ==> After(s, p, pos).kind != OFFER)
  {
    hide After, LengthAt, ByteAt;
    LengthWhole(s, p, pos);
    AfterKeepsOffer(s, p, pos);
  }

  lemma AfterKeepsOffer(s: Seen, p: seq<byte>, pos: nat)
    requires pos < |p|
    ensures After(s, p, pos).v.offerReceived == s.v.offerReceived
    ensures p[pos] == MESSAGE_TYPE ==> After(s, p, pos).kind == ByteAt(p, pos + 2, s.kind)
  {
    hide Four, Lease, ByteAt;
  }

  /** Among the message types of a whole message, the first, or a later one. */
  lemma TypeSaid(p: seq<byte>, pos: nat, kind: byte)
    requires pos + 1 < |p| && p[pos] != END_OPTION && p[pos] != PAD
    requires p[pos] == MESSAGE_TYPE ==> OptionAt(p, pos, MESSAGE_TYPE, [kind])
    ensures Says(p, pos, MESSAGE_TYPE, [OFFER]) <==>
              (p[pos] == MESSAGE_TYPE && kind == OFFER) || Says(p, NextOption(p, pos), MESSAGE_TYPE, [OFFER])
  {
    hide NextOption;
    if p[pos] == MESSAGE_TYPE {
      assert p[pos + 2..pos + 2 + |[kind]|] == [kind] && p[pos + 2..pos + 2 + |[OFFER]|][0] == kind;
    }
  }

  /** A whole message with right lengths, and without an offer if one is held, means its last message type and
      its last server identifier; others are invalid. */
  lemma {:induction false} MeantIsLast(s: Seen, p: seq<byte>, pos: nat)
    requires Whole(p, pos)
    ensures var h := Meant(s, p, pos);
            && (h.Heard? <==> LengthsRight(p, pos) && (s.v.offerReceived ==> !Says(p, pos, MESSAGE_TYPE, [OFFER])))
            && (h.Heard? ==> LastSaid(p, pos, MESSAGE_TYPE) == Said([h.kind]) || (LastSaid(p, pos, MESSAGE_TYPE).Unsaid? && h.kind == s.kind))
            && (h.Heard? ==> LastSaid(p, pos, SERVER_ID) == Said(h.server) || (LastSaid(p, pos, SERVER_ID).Unsaid? && h.server == s.server))
    decreases |p| - pos
  {
    hide After, Acceptable, LengthAt, NextOption, RightLength;
    if p[pos] != END_OPTION {
      WholeBeyond(p, pos);
      PadIsOneByte(p, pos);
      if p[pos] == PAD {
        MeantIsLast(s, p, pos + 1);
      } else {
        RightIsAcceptable(s, p, pos);
        if RightLength(p[pos], p[pos + 1]) {
          OptionSaid(s, p, pos);
          var t := After(s, p, pos);
          MeantIsLast(t, p, NextOption(p, pos));
          TypeSaid(p, pos, t.kind);
          LastOption(p, pos, MESSAGE_TYPE, [t.kind]);
          LastOption(p, pos, SERVER_ID, t.server);
        }
      }
    }
  }

  lemma LastOption(p: seq<byte>, pos: nat, code: byte, value: seq<byte>)
    requires pos + 1 < |p| && p[pos] != END_OPTION && p[pos] != PAD && (p[pos] == code ==> OptionAt(p, pos, code, value))
    ensures var later := LastSaid(p, NextOption(p, pos), code);
            LastSaid(p, pos, code) == if later.Unsaid? && p[pos] == code then Said(value) else later
  {
    hide NextOption;
  }

  /** An option of fixed length whose code is the last byte of the packet makes the message invalid, whatever
      the reader's variables hold. */
  lemma CutOffFixed(s: Seen, p: seq<byte>, pos: nat)
    requires pos + 1 == |p| && p[pos] in {MESSAGE_TYPE, SUBNET_MASK, SERVER_ID, LEASE_TIME}
    ensures Options(s, p, pos) == Invalid(s.v)
  {
  }

  // ---------------------------------------------------------------- messages that the reader gets wrong

  /** A reply to a client that assigns 10.0.0.9, with these options. */
  function Reply(mac: Mac, options: seq<byte>): (p: seq<byte>)
    ensures |p| == OPTIONS + |options| && p[OPTIONS..] == options
    ensures p[0] == BOOT_REPLY && AddressedTo(p, mac) && p[16..20] == [10, 0, 0, 9]
  {
    var p := [BOOT_REPLY, 1, 6, 0] + seq(12, _ => 0) + [10, 0, 0, 9] + seq(8, _ => 0) + mac + seq(202, _ => 0)
             + [99, 130, 83, 99] + options;
    assert p[28..34] == mac && p[16..20] == [10, 0, 0, 9];
    p
  }

  /** An offer of the server 10.0.0.1, with a single pad before its options. */
  function PaddedOffer(mac: Mac): seq<byte> {
    Reply(mac, [PAD, MESSAGE_TYPE, 1, OFFER, SERVER_ID, 4, 10, 0, 0, 1, END_OPTION])
  }

  /** It says that it is an offer, and from whom, but the reader takes the code of the message type for the
      length of the pad, and hears nothing. */
  lemma PaddedOfferUnheard(v: Vars, mac: Mac, stale: Ip, j: byte)
    requires !v.offerReceived
    ensures var p := PaddedOffer(mac);
            && |p| >= LEAST && p[0] == BOOT_REPLY && AddressedTo(p, mac) && Whole(p, OPTIONS) && !PadsPaired(p, OPTIONS)
            && Says(p, OPTIONS, MESSAGE_TYPE, [OFFER]) && Says(p, OPTIONS, SERVER_ID, [10, 0, 0, 1])
            && Received(v, mac, p, stale, j).1 == UNKNOWN
  {
    hide Reply;
    var p := PaddedOffer(mac);
    OptionsOfPaddedOffer(p);
    PadRead(Seen(v.(tempIP := p[16..20], validIP := true), UNKNOWN, stale, j), p, 240);
  }

  lemma OptionsOfPaddedOffer(p: seq<byte>)
    requires |p| == 251 && p[240..] == [PAD, MESSAGE_TYPE, 1, OFFER, SERVER_ID, 4, 10, 0, 0, 1, END_OPTION]
    ensures p[240] == PAD && p[241] == MESSAGE_TYPE && Whole(p, 240) && !PadsPaired(p, 240)
    ensures Says(p, 240, MESSAGE_TYPE, [OFFER]) && Says(p, 240, SERVER_ID, [10, 0, 0, 1])
  {
    assert p[240] == p[240..][0];
    assert p[241..] == p[240..][1..];
    TypeServerBytes(p, 241, OFFER);
    TypeAndServer(p, 241, OFFER);
    assert NextOption(p, 240) == 241;
  }

  /** A message type and the server 10.0.0.1, and no more options. */
  ghost predicate TypeServerEnd(p: seq<byte>, pos: nat, kind: byte) {
    && pos + 10 == |p| && p[pos] == MESSAGE_TYPE && p[pos + 1] == 1 && p[pos + 2] == kind && p[pos + 3] == SERVER_ID
    && p[pos + 4] == 4 && p[pos + 5..pos + 9] == [10, 0, 0, 1] && p[pos + 9] == END_OPTION
  }

  lemma TypeServerBytes(p: seq<byte>, pos: nat, kind: byte)
    requires pos + 10 == |p| && p[pos..] == [MESSAGE_TYPE, 1, kind, SERVER_ID, 4, 10, 0, 0, 1, END_OPTION]
    ensures TypeServerEnd(p, pos, kind)
  {
    var o := p[pos..];
    assert p[pos] == o[0] && p[pos + 1] == o[1] && p[pos + 2] == o[2] && p[pos + 3] == o[3] && p[pos + 4] == o[4];
    assert p[pos + 9] == o[9] && p[pos + 5..pos + 9] == o[5..9];
  }

  lemma TypeServerNext(p: seq<byte>, pos: nat, kind: byte)
    requires TypeServerEnd(p, pos, kind)
    ensures NextOption(p, pos) == pos + 3 && NextOption(p, pos + 3) == pos + 9
  {
  }

  lemma TypeAndServer(p: seq<byte>, pos: nat, kind: byte)
    requires TypeServerEnd(p, pos, kind)
    ensures p[pos] == MESSAGE_TYPE && Whole(p, pos)
    ensures Says(p, pos, MESSAGE_TYPE, [kind]) && Says(p, pos, SERVER_ID, [10, 0, 0, 1])
  {
    TypeServerNext(p, pos, kind);
    hide NextOption;
    assert Whole(p, pos + 9);
    assert Whole(p, pos + 3);
    assert p[pos + 2..pos + 3] == [kind];
    assert OptionAt(p, pos, MESSAGE_TYPE, [kind]) && OptionAt(p, pos + 3, SERVER_ID, [10, 0, 0, 1]);
    assert Says(p, pos + 3, SERVER_ID, [10, 0, 0, 1]);
  }

  /** How the reader goes on after them, unless they are a second offer. */
  lemma TypeAndServerRead(s: Seen, p: seq<byte>, pos: nat, kind: byte)
    requires pos + 9 <= |p| && p[pos] == MESSAGE_TYPE && p[pos + 1] == 1 && p[pos + 2] == kind && p[pos + 3] == SERVER_ID
    requires p[pos + 4] == 4 && p[pos + 5..pos + 9] == [10, 0, 0, 1] && !(s.v.offerReceived && kind == OFFER)
    ensures Options(s, p, pos) == Options(s.(kind := kind, server := [10, 0, 0, 1]), p, pos + 9)
  {
    hide Lease;
    var t := s.(kind := kind);
    var u := t.(server := [10, 0, 0, 1]);
    FourWhole(p, pos + 5, s.server);
    hide Four;
    assert Acceptable(s, p, pos) && After(s, p, pos) == t && LengthAt(p, pos, s.j) == 1;
    assert Acceptable(t, p, pos + 3) && After(t, p, pos + 3) == u && LengthAt(p, pos + 3, t.j) == 4;
    assert Options(t, p, pos + 3) == Options(u, p, pos + 9);
  }

  lemma TypeAndServerHeard(s: Seen, p: seq<byte>, pos: nat, kind: byte)
    requires TypeServerEnd(p, pos, kind) && !(s.v.offerReceived && kind == OFFER)
    ensures Options(s, p, pos) == Heard(s.v, kind, [10, 0, 0, 1])
  {
    TypeAndServerRead(s, p, pos, kind);
  }

  /** An offer of the server 10.0.0.1 with a host name, cut off after the code of the router option. */
  function CutOffOffer(mac: Mac): seq<byte> {
    Reply(mac, [MESSAGE_TYPE, 1, OFFER, SERVER_ID, 4, 10, 0, 0, 1, 12, 1, 65, ROUTER])
  }

  /** The reader hears it: skipping the host name left a count of 255, which it takes for the length of the
      router option, and the gateway that is not there counts as valid. */
  lemma CutOffOfferHeard(s: Seen, mac: Mac)
    requires !s.v.offerReceived
    ensures |CutOffOffer(mac)| >= LEAST && !Whole(CutOffOffer(mac), OPTIONS)
    ensures Options(s, CutOffOffer(mac), OPTIONS) == Heard(s.v.(validGateway := true), OFFER, [10, 0, 0, 1])
  {
    hide Reply;
    var p := CutOffOffer(mac);
    CutOffBytes(p);
    TypeAndServerRead(s, p, 240, OFFER);
    CutOffEnd(s.(kind := OFFER, server := [10, 0, 0, 1]), p);
    CutOffNotWhole(p);
  }

  ghost predicate CutOffAt(p: seq<byte>) {
    && |p| == 253 && p[240] == MESSAGE_TYPE && p[241] == 1 && p[242] == OFFER && p[243] == SERVER_ID && p[244] == 4
    && p[245..249] == [10, 0, 0, 1] && p[249] == 12 && p[250] == 1 && p[252] == ROUTER
  }

  lemma CutOffBytes(p: seq<byte>)
    requires |p| == 253 && p[240..] == [MESSAGE_TYPE, 1, OFFER, SERVER_ID, 4, 10, 0, 0, 1, 12, 1, 65, ROUTER]
    ensures CutOffAt(p)
  {
    var o := p[240..];
    assert p[240] == o[0] && p[241] == o[1] && p[242] == o[2] && p[243] == o[3] && p[244] == o[4];
    assert p[249] == o[9] && p[250] == o[10] && p[252] == o[12] && p[245..249] == o[5..9];
  }

  lemma CutOffEnd(s: Seen, p: seq<byte>)
    requires CutOffAt(p) && !s.v.offerReceived
    ensures Options(s, p, 249) == Heard(s.v.(validGateway := true), s.kind, s.server)
  {
    var t := s.(j := COUNTED_DOWN);
    assert Acceptable(s, p, 249) && After(s, p, 249) == t && LengthAt(p, 249, s.j) == 1;
    assert Options(s, p, 249) == Options(t, p, 252);
    assert Four(p, 254, s.v.tempGateway) == s.v.tempGateway;
    var u := t.(v := s.v.(validGateway := true));
    assert Acceptable(t, p, 252) && After(t, p, 252) == u && LengthAt(p, 252, t.j) == COUNTED_DOWN;
    assert Options(t, p, 252) == Options(u, p, 252 + 2 + COUNTED_DOWN as nat) == Heard(u.v, u.kind, u.server);
  }

  lemma CutOffNotWhole(p: seq<byte>)
    requires CutOffAt(p)
    ensures !Whole(p, 240)
  {
    assert NextOption(p, 240) == 243 && NextOption(p, 243) == 249 && NextOption(p, 249) == 252;
    hide NextOption;
    assert !Whole(p, 252);
    assert !Whole(p, 249);
    assert !Whole(p, 243);
  }

  lemma FourWithin(p: seq<byte>, pos: nat, was: Ip)
    ensures Four(p, Within(p, pos), was) == Four(p, pos, was)
  {
  }

  function LessOne(j: byte): byte {
    j - 1
  }

  lemma LessOneIs(j: byte)
    ensures if j == 0 then j as nat == 0 && LessOne(j) == COUNTED_DOWN else LessOne(j) as nat == j as nat - 1
  {
  }

  function MinusFour(j: byte): byte {
    j - 4
  }

  lemma LessFour(j: byte)
    requires j >= 4
    ensures MinusFour(j) as nat == j as nat - 4
  {
  }

  // ---------------------------------------------------------------- the reader

  /** The packet with its read position, and the client's variables. */
  class Reader {
    const p: seq<byte>
    var get: nat
    var vars: Vars

    constructor (p: seq<byte>, vars: Vars)
      ensures this.p == p && this.vars == vars && get == 0
    {
      this.p, this.vars, get := p, vars, 0;
    }

    method UDPGet(was: byte) returns (b: byte, ok: bool)
      requires get <= |p|
      modifies this`get
      ensures ok == (old(get) < |p|) && b == ByteAt(p, old(get), was) && get == Within(p, old(get) + 1)
    {
      if get >= |p| {
        return was, false;
      }
      b, ok := p[get], true;
      get := get + 1;
    }

    method GetFour(was: Ip) returns (a: Ip)
      requires get <= |p|
      modifies this`get
      ensures a == Four(p, old(get), was) && get == Within(p, old(get) + 4)
    {
      var b0, _ := UDPGet(was[0]);
      var b1, _ := UDPGet(was[1]);
      var b2, _ := UDPGet(was[2]);
      var b3, _ := UDPGet(was[3]);
      a := [b0, b1, b2, b3];
    }

    method Skip(j: nat)
      requires get <= |p|
      modifies this`get
      ensures get == Within(p, old(get) + j)
    {
      var left: nat := j;
      while left > 0
        invariant left <= j && get == Within(p, old(get) + (j - left))
      {
        var _, _ := UDPGet(0);
        left := left - 1;
      }
    }

    /** Skip j bytes, counting j itself down: it ends one below zero. */
    method SkipCounting(j: byte) returns (j': byte)
      requires get <= |p|
      modifies this`get
      ensures get == Within(p, old(get) + j as nat) && j' == COUNTED_DOWN
    {
      hide LessOne;
      j' := j;
      LessOneIs(j');
      ghost var n: nat := 0;
      while j' != 0
        invariant get == Within(p, old(get) + n) && n + j' as nat == j as nat
        decreases j as nat - n
      {
        LessOneIs(j');
        j' := LessOne(j');
        var _, _ := UDPGet(0);
        n := n + 1;
      }
      LessOneIs(j');
      j' := LessOne(j');
    }

    /** _DHCPReceive. */
    method Receive(mac: Mac, stale: Ip, staleJ: byte) returns (kind: byte)
      requires |p| >= LEAST && get == 0
      modifies this
      ensures (vars, kind) == Received(old(vars), mac, p, stale, staleJ)
    {
      hide Options, Four;
      var v, _ := UDPGet(0);
      var server := stale;
      kind := UNKNOWN;
      if v == BOOT_REPLY {
        get := 28;
        var mine := IsForUs(mac);
        if !mine {
          return UNKNOWN;
        }
        if !vars.offerReceived {
          vars := vars.(tempIP := p[16..20], validIP := true);
        }
        get := OPTIONS;
        var heard := ReadOptions(stale, staleJ);
        if heard.Invalid? {
          return UNKNOWN;
        }
        kind, server := heard.kind, heard.server;
      }
      if kind == OFFER {
        vars := vars.(serverID := server, offerReceived := true);
      } else if vars.serverID != server {
        kind := UNKNOWN;
      }
    }

    method IsForUs(mac: Mac) returns (mine: bool)
      requires get == 28 && |p| >= LEAST
      modifies this`get
      ensures mine == AddressedTo(p, mac)
    {
      for i := 0 to 6
        invariant get == 28 + i && forall k :: 0 <= k < i ==> p[28 + k] == mac[k]
      {
        var v, _ := UDPGet(0);
        if v != mac[i] {
          assert p[28..34][i] != mac[i];
          return false;
        }
      }
      assert p[28..34] == mac;
      return true;
    }

    /** The option loop. */
    method ReadOptions(stale: Ip, staleJ: byte) returns (heard: Heard)
      requires get <= |p|
      modifies this
      ensures heard == Options(Seen(old(vars), UNKNOWN, stale, staleJ), p, old(get)) && vars == heard.v
    {
      hide Options, Four, After, Acceptable;
      ghost var goal := Options(Seen(vars, UNKNOWN, stale, staleJ), p, get);
      var kind, server, j, valid := UNKNOWN, stale, staleJ, true;
      while true
        invariant get <= |p| && Options(Seen(vars, kind, server, j), p, get) == goal
        decreases |p| - get
      {
        OptionsStep(Seen(vars, kind, server, j), p, get);
        var code, more := UDPGet(0);
        if !more || code == END_OPTION {
          return Heard(vars, kind, server);
        }
        valid, kind, server, j := ReadOption(code, kind, server, j);
        if !valid {
          return Invalid(vars);
        }
      }
    }

    method ReadLease() returns (lease: nat)
      requires get <= |p|
      modifies this`get
      ensures lease == Lease(p, old(get), vars.leaseTime) && get == Within(p, old(get) + 4)
    {
      hide Four;
      var a := GetFour(Bytes(vars.leaseTime));
      lease := Number(a);
      lease := lease - lease / 32;
    }

    /** One option, after its code. */
    method ReadOption(code: byte, kind: byte, server: Ip, j: byte) returns (valid: bool, kind': byte, server': Ip, j': byte)
      requires 0 < get <= |p| && p[get - 1] == code != END_OPTION
      modifies this
      ensures get <= |p| && old(get) <= get
      ensures var s, at := Seen(old(vars), kind, server, j), old(get) - 1;
              && valid == Acceptable(s, p, at)
              && if valid then Seen(vars, kind', server', j') == After(s, p, at)
                               && get == Within(p, at + 2 + LengthAt(p, at, j) as nat)
                 else vars == old(vars)
    {
      valid, kind', server', j' := true, kind, server, j;
      if code == MESSAGE_TYPE {
        valid, kind' := ReadKind(kind);
      } else if FixedLength(code) {
        valid, server' := ReadFour(code, server);
      } else {
        valid, j' := ReadOther(code, j);
      }
    }

    method ReadKind(kind: byte) returns (valid: bool, kind': byte)
      requires 0 < get <= |p| && p[get - 1] == MESSAGE_TYPE
      modifies this`get
      ensures get <= |p| && old(get) <= get
      ensures kind' == ByteAt(p, old(get) + 1, kind) || !valid
      ensures valid == (ByteAt(p, old(get), MESSAGE_TYPE) == 1 && !(vars.offerReceived && ByteAt(p, old(get) + 1, kind) == OFFER))
      ensures valid ==> get == Within(p, old(get) + 2)
    {
      valid, kind' := false, kind;
      var len, _ := UDPGet(MESSAGE_TYPE);
      if len == 1 {
        var value, _ := UDPGet(kind);
        kind' := value;
        valid := !(vars.offerReceived && kind' == OFFER);
      }
    }

    /** The options with four bytes. */
    method ReadFour(code: byte, server: Ip) returns (valid: bool, server': Ip)
      requires 0 < get <= |p| && p[get - 1] == code && (code == SERVER_ID || code == SUBNET_MASK || code == LEASE_TIME)
      modifies this
      ensures get <= |p| && old(get) <= get && valid == (ByteAt(p, old(get), code) == 4)
      ensures var first := !old(vars).offerReceived;
              if !valid then vars == old(vars)
              else && get == Within(p, old(get) + 5)
                   && server' == (if code == SERVER_ID then Four(p, old(get) + 1, server) else server)
                   && vars == if !first || code == SERVER_ID then old(vars)
                              else if code == SUBNET_MASK then old(vars).(tempMask := Four(p, old(get) + 1, old(vars).tempMask), validMask := true)
                              else old(vars).(leaseTime := Lease(p, old(get) + 1, old(vars).leaseTime))
    {
      hide Four, Lease;
      valid, server' := true, server;
      var len, _ := UDPGet(code);
      if len != 4 {
        return false, server;
      }
      if code == SERVER_ID {
        server' := GetFour(server);
      } else if vars.offerReceived {
        Skip(4);
      } else if code == SUBNET_MASK {
        var mask := GetFour(vars.tempMask);
        vars := vars.(tempMask := mask, validMask := true);
      } else {
        var lease := ReadLease();
        vars := vars.(leaseTime := lease);
      }
    }

    /** The router option, and all that the reader does not know. */
    method ReadOther(code: byte, j: byte) returns (valid: bool, j': byte)
      requires 0 < get <= |p| && p[get - 1] == code && !FixedLength(code)
      modifies this
      ensures get <= |p| && old(get) <= get && valid == (code != ROUTER || ByteAt(p, old(get), j) >= 4)
      ensures if !valid then vars == old(vars)
              else && get == Within(p, old(get) + 1 + ByteAt(p, old(get), j) as nat) && j' == COUNTED_DOWN
                   && vars == if code == ROUTER && !old(vars).offerReceived
                              then old(vars).(tempGateway := Four(p, old(get) + 1, old(vars).tempGateway), validGateway := true)
                              else old(vars)
    {
      hide Four, MinusFour, FixedLength;
      FourWithin(p, get + 1, vars.tempGateway);
      var value, _ := UDPGet(j);
      j', valid := value, true;
      if code == ROUTER {
        if j' < 4 {
          return false, j';
        }
        j' := TakeGateway(j');
      }
      j' := SkipCounting(j');
    }

    /** The first router's address; the others are left to be skipped. */
    method TakeGateway(j: byte) returns (j': byte)
      requires get <= |p| && j >= 4
      modifies this
      ensures get == Within(p, old(get) + 4) && j' as nat == j as nat - 4
      ensures vars == if old(vars).offerReceived then old(vars)
                      else old(vars).(tempGateway := Four(p, old(get), old(vars).tempGateway), validGateway := true)
    {
      hide Four, MinusFour;
      if vars.offerReceived {
        Skip(4);
      } else {
        var gateway := GetFour(vars.tempGateway);
        vars := vars.(tempGateway := gateway, validGateway := true);
      }
      LessFour(j);
      j' := MinusFour(j);
    }
  }
}
