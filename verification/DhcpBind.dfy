/** What the DHCP client configures when it binds: where mask, gateway and lease come from, over whole runs. */
module DhcpBind {
  import opened Crc16
  import opened DhcpMessage
  import opened Dhcp

  // ---------------------------------------------------------------- the parameters that a message says

  /** A number whose bytes are given highest first. */
  function BigEndian(a: seq<byte>): nat {
    if a == [] then 0 else 0x100 * BigEndian(a[..|a| - 1]) + a[|a| - 1] as nat
  }

  lemma NumberIsBigEndian(a: Ip)
    ensures DhcpMessage.Number(a) == BigEndian(a)
  {
    var b, c, d := a[..3], a[..2], a[..1];
    assert a[..3][..2] == c && c[..1] == d && d[..0] == [];
    assert BigEndian(d) == a[0] as nat;
    assert BigEndian(c) == 0x100 * BigEndian(d) + a[1] as nat;
    assert BigEndian(b) == 0x100 * BigEndian(c) + a[2] as nat;
  }

  /** 31/32 of the time that is given, rounded up to seconds. */
  ghost predicate Kept(lease: nat, given: nat) {
    31 * given <= 32 * lease < 31 * given + 32
  }

  lemma LeaseKept(given: nat)
    ensures Kept(given - given / 32, given)
  {
  }

  /** Mask, gateway and lease after a message with these options: what it says last, and otherwise what was
      there before. */
  ghost predicate Parameters(was: Vars, p: seq<byte>, pos: nat, now: Vars) {
    && (match LastSaid(p, pos, SUBNET_MASK)
        case Said(a) => now.validMask && now.tempMask == a
        case Unsaid => now.validMask == was.validMask && now.tempMask == was.tempMask)
    && (match LastSaid(p, pos, ROUTER)
        case Said(a) => |a| >= 4 && now.validGateway && now.tempGateway == a[..4]
        case Unsaid => now.validGateway == was.validGateway && now.tempGateway == was.tempGateway)
    && (match LastSaid(p, pos, LEASE_TIME)
        case Said(a) => |a| == 4 && Kept(now.leaseTime, BigEndian(a))
        case Unsaid => now.leaseTime == was.leaseTime)
  }

  /** What one option does to the parameters. */
  ghost predicate OneParameter(was: Vars, p: seq<byte>, pos: nat, now: Vars)
    requires pos + 1 < |p| && pos + 2 + p[pos + 1] as nat <= |p|
  {
    var a := p[pos + 2..pos + 2 + p[pos + 1] as nat];
    && (if p[pos] == SUBNET_MASK then now.validMask && now.tempMask == a
        else now.validMask == was.validMask && now.tempMask == was.tempMask)
    && (if p[pos] == ROUTER then |a| >= 4 && now.validGateway && now.tempGateway == a[..4]
        else now.validGateway == was.validGateway && now.tempGateway == was.tempGateway)
    && (if p[pos] == LEASE_TIME then |a| == 4 && Kept(now.leaseTime, BigEndian(a)) else now.leaseTime == was.leaseTime)
  }

  lemma OneParameterRead(s: Seen, p: seq<byte>, pos: nat)
    requires Whole(p, pos) && p[pos] != END_OPTION && p[pos] != PAD && Acceptable(s, p, pos) && !s.v.offerReceived
    ensures pos + 1 < |p| && pos + 2 + p[pos + 1] as nat <= |p| && OneParameter(s.v, p, pos, After(s, p, pos).v)
  {
    hide After, Acceptable, OneParameter;
    WholeBeyond(p, pos);
    RightIsAcceptable(s, p, pos);
    if p[pos] == SUBNET_MASK {
      MaskRead(s, p, pos);
    } else if p[pos] == ROUTER {
      AtLeastFour(p[pos + 1]);
      RouterRead(s, p, pos);
    } else if p[pos] == LEASE_TIME {
      LeaseTimeRead(s, p, pos);
    } else {
      OtherRead(s, p, pos);
    }
  }

  lemma MaskRead(s: Seen, p: seq<byte>, pos: nat)
    requires pos + 6 <= |p| && p[pos] == SUBNET_MASK && p[pos + 1] == 4 && !s.v.offerReceived
    ensures OneParameter(s.v, p, pos, After(s, p, pos).v)
  {
    hide Four, Lease, BigEndian, Kept;
    FourWhole(p, pos + 2, s.v.tempMask);
  }

  lemma AtLeastFour(b: byte)
    requires b >= 4
    ensures b as nat >= 4
  {
  }

  lemma RouterRead(s: Seen, p: seq<byte>, pos: nat)
    requires pos + 1 < |p| && pos + 2 + p[pos + 1] as nat <= |p| && p[pos] == ROUTER && p[pos + 1] as nat >= 4 && !s.v.offerReceived
    ensures OneParameter(s.v, p, pos, After(s, p, pos).v)
  {
    hide Four, After, BigEndian, Kept;
    RouterAfter(s, p, pos);
    FourWhole(p, pos + 2, s.v.tempGateway);
    FirstFour(p, pos + 2, pos + 2 + p[pos + 1] as nat);
  }

  lemma RouterAfter(s: Seen, p: seq<byte>, pos: nat)
    requires pos < |p| && p[pos] == ROUTER && !s.v.offerReceived
    ensures After(s, p, pos).v == s.v.(tempGateway := Four(p, pos + 2, s.v.tempGateway), validGateway := true)
  {
    hide Four, Lease;
  }

  lemma LeaseTimeRead(s: Seen, p: seq<byte>, pos: nat)
    requires pos + 6 <= |p| && p[pos] == LEASE_TIME && p[pos + 1] == 4 && !s.v.offerReceived
    ensures OneParameter(s.v, p, pos, After(s, p, pos).v)
  {
    hide Four, Lease, BigEndian, Kept;
    LeaseRead(p, pos + 2, s.v.leaseTime);
  }

  lemma OtherRead(s: Seen, p: seq<byte>, pos: nat)
    requires pos + 1 < |p| && pos + 2 + p[pos + 1] as nat <= |p| && p[pos] !in {SUBNET_MASK, ROUTER, LEASE_TIME}
    ensures OneParameter(s.v, p, pos, After(s, p, pos).v)
  {
    hide Four, Lease, BigEndian, Kept;
  }

  lemma FirstFour(p: seq<byte>, from: nat, to: nat)
    requires from + 4 <= to <= |p|
    ensures p[from..to][..4] == p[from..from + 4]
  {
  }

  lemma LeaseRead(p: seq<byte>, pos: nat, was: nat)
    requires pos + 4 <= |p|
    ensures Kept(Lease(p, pos, was), BigEndian(p[pos..pos + 4]))
  {
    FourWhole(p, pos, DhcpMessage.Bytes(was));
    NumberIsBigEndian(p[pos..pos + 4]);
    LeaseKept(BigEndian(p[pos..pos + 4]));
    hide Four, BigEndian, DhcpMessage.Number, DhcpMessage.Bytes, Kept;
  }

  lemma {:induction false} MeantParameters(s: Seen, p: seq<byte>, pos: nat)
    requires Whole(p, pos) && !s.v.offerReceived && Meant(s, p, pos).Heard?
    ensures Parameters(s.v, p, pos, Meant(s, p, pos).v)
    decreases |p| - pos
  {
    hide After, Acceptable, LengthAt, NextOption, RightLength, Parameters, OneParameter;
    if p[pos] == END_OPTION {
      NothingSaid(s.v, p, pos);
    } else {
      WholeBeyond(p, pos);
      PadIsOneByte(p, pos);
      if p[pos] == PAD {
        MeantParameters(s, p, pos + 1);
        PadSaysNothing(s.v, p, pos, Meant(s, p, pos).v);
      } else {
        RightIsAcceptable(s, p, pos);
        OneParameterRead(s, p, pos);
        var t := After(s, p, pos);
        MeantParameters(t, p, NextOption(p, pos));
        FirstParameter(s.v, p, pos, t.v, Meant(s, p, pos).v);
      }
    }
  }

  lemma NothingSaid(v: Vars, p: seq<byte>, pos: nat)
    requires pos < |p| && p[pos] == END_OPTION
    ensures Parameters(v, p, pos, v)
  {
  }

  lemma PadSaysNothing(was: Vars, p: seq<byte>, pos: nat, now: Vars)
    requires pos + 1 < |p| && p[pos] == PAD && Parameters(was, p, pos + 1, now)
    ensures Parameters(was, p, pos, now)
  {
    hide BigEndian, Kept;
    assert forall code :: LastSaid(p, pos, code) == LastSaid(p, pos + 1, code);
  }

  lemma FirstParameter(was: Vars, p: seq<byte>, pos: nat, between: Vars, now: Vars)
    requires pos + 1 < |p| && p[pos] != END_OPTION && p[pos] != PAD && pos + 2 + p[pos + 1] as nat <= |p|
    requires OneParameter(was, p, pos, between) && Parameters(between, p, NextOption(p, pos), now)
    ensures Parameters(was, p, pos, now)
  {
    hide BigEndian, Kept, NextOption;
    LastOptionIs(p, pos, SUBNET_MASK);
    LastOptionIs(p, pos, ROUTER);
    LastOptionIs(p, pos, LEASE_TIME);
    hide LastSaid;
  }

  lemma LastOptionIs(p: seq<byte>, pos: nat, code: byte)
    requires pos + 1 < |p| && p[pos] != END_OPTION && p[pos] != PAD && pos + 2 + p[pos + 1] as nat <= |p|
    ensures var later := LastSaid(p, NextOption(p, pos), code);
            LastSaid(p, pos, code)
              == if later.Unsaid? && p[pos] == code then Said(p[pos + 2..pos + 2 + p[pos + 1] as nat]) else later
  {
    hide NextOption;
  }

  /** A whole offer with paired pads that is taken brings the parameters that it says last. */
  lemma OfferParameters(v: Vars, mac: Mac, p: Packet)
    requires |p.bytes| >= LEAST && !v.offerReceived && Received(v, mac, p.bytes, p.stale, p.j).1 == OFFER
    requires Whole(p.bytes, OPTIONS) && PadsPaired(p.bytes, OPTIONS)
    ensures Parameters(v, p.bytes, OPTIONS, Received(v, mac, p.bytes, p.stale, p.j).0)
  {
    hide Options, AddressedTo, Whole, PadsPaired, Meant, LastSaid, BigEndian, Kept;
    var s := Fresh(v, p);
    ReadAsMeant(s, s.j, p.bytes, OPTIONS);
    assert s.(j := s.j) == s;
    if Meant(s, p.bytes, OPTIONS).Heard? {
      MeantParameters(s, p.bytes, OPTIONS);
    }
  }

  // ---------------------------------------------------------------- runs

  /** The time of the k-th event, and the invariant there. */
  lemma {:induction false} InvAt(s: State, t: nat, events: seq<Event>, k: nat) returns (t': nat)
    requires Inv(s, t) && s.c.timer < DWORD && Runs(s, t, events) && k <= |events|
    ensures Inv(StateAt(s, t, events, k), t') && StateAt(s, t, events, k).c.timer < DWORD
    ensures k < |events| ==> Possible(StateAt(s, t, events, k), t', events[k])
                             && StateAt(s, t, events, k + 1) == Happen(StateAt(s, t, events, k), events[k])
    decreases k
  {
    hide Inv, Happen, Possible, Later;
    if k == 0 {
      t' := t;
      if |events| > 0 {
        TimerStays(s, events[0]);
        assert StateAt(Happen(s, events[0]), Later(t, events[0]), events[1..], 0) == Happen(s, events[0]);
      }
    } else {
      HappenKeeps(s, t, events[0]);
      TimerStays(s, events[0]);
      t' := InvAt(Happen(s, events[0]), Later(t, events[0]), events[1..], k - 1);
      if k < |events| {
        assert StateAt(s, t, events, k + 1) == StateAt(Happen(s, events[0]), Later(t, events[0]), events[1..], k);
      }
    }
  }

  /** While it requests, the client holds on to what the offer brought. */
  lemma RequestingHolds(s: State, t: nat, e: Event)
    requires Inv(s, t) && s.c.timer < DWORD && Requesting(s.c.smState) && Requesting(Happen(s, e).c.smState)
    ensures Happen(s, e).c.v == s.c.v
  {
    hide Received, Datagram, From, Expired, BackoffBase, SocketsInStep, TimeInStep;
    if e.Poll? && |e.x.packet.bytes| >= LEAST {
      ReceivedHeld(s.c.v, s.config.mac, e.x.packet);
    }
  }

  lemma {:induction false} RunHolds(s: State, t: nat, events: seq<Event>, i: nat, k: nat)
    requires Inv(s, t) && s.c.timer < DWORD && Runs(s, t, events) && i < k <= |events|
    requires forall j: nat :: i < j <= |events| ==> Requesting(StateAt(s, t, events, j).c.smState)
    ensures StateAt(s, t, events, k).c.v == StateAt(s, t, events, i + 1).c.v
    decreases k
  {
    hide Inv, Happen, Possible, StateAt, Requesting;
    if k > i + 1 {
      RunHolds(s, t, events, i, k - 1);
      var t' := InvAt(s, t, events, k - 1);
      RequestingHolds(StateAt(s, t, events, k - 1), t', events[k - 1]);
    }
  }

  /** Taking an offer sets the client's variables as reading it does. */
  lemma OfferRead(s: State, t: nat, e: Event)
    requires Inv(s, t) && s.c.timer < DWORD && e.Poll? && TakesOffer(s, e, e.x.packet)
    ensures Happen(s, e).c.v == Received(s.c.v, s.config.mac, e.x.packet.bytes, e.x.packet.stale, e.x.packet.j).0
    ensures !s.c.v.offerReceived
  {
    hide Received, Datagram, From, Expired, BackoffBase, SocketsInStep, TimeInStep;
  }

  /** The state in which discovery leaves the parameters. */
  predicate Cleared(v: Vars) {
    !v.validMask && !v.validGateway && v.leaseTime == 60
  }

  /** The event brings no reply to this client. */
  predicate Quiet(e: Event, mac: Mac) {
    e.Poll? ==> |e.x.packet.bytes| < LEAST || e.x.packet.bytes[0] != BOOT_REPLY || !AddressedTo(e.x.packet.bytes, mac)
  }

  lemma DiscoveryClears(s: State, e: Event)
    requires s.c.timer < DWORD && s.c.smState != GET_OFFER && Happen(s, e).c.smState == GET_OFFER
    ensures Cleared(Happen(s, e).c.v)
  {
    hide InSendDiscovery, InSendRequest, InSendRenew, InGetOffer, InGetRequestAck, InGetRenewAck, Minus, Cleared;
    if e.Poll? {
      DiscoveryCleared(s, e.x);
      OthersWait(s, e.x);
      if s.c.smState == GET_SOCKET {
        DiscoveryCleared(To(Opened(s, e.x.handle), SEND_DISCOVERY), e.x);
      } else if s.c.smState == BOUND {
        var s' := Opened(s, e.x.handle);
        OthersWait(To(s'.(h := s'.h.(renewals := 0)), SEND_RENEW), e.x);
      }
    }
  }

  lemma DiscoveryCleared(s: State, x: Input)
    ensures Cleared(InSendDiscovery(s, x).c.v)
  {
    hide Datagram;
  }

  lemma OthersWait(s: State, x: Input)
    requires s.c.timer < DWORD
    ensures s.c.smState == SEND_REQUEST ==> InSendRequest(s, x).c.smState != GET_OFFER
    ensures Sending(s.c.smState) ==> InSendRenew(s, x).c.smState != GET_OFFER
    ensures s.c.smState == GET_REQUEST_ACK ==> InGetRequestAck(s, x).c.smState != GET_OFFER
    ensures Awaiting(s.c.smState) ==> InGetRenewAck(s, x).c.smState != GET_OFFER
  {
    hide Received, Datagram, Expired, Configured;
  }

  lemma QuietKeeps(s: State, t: nat, e: Event)
    requires Inv(s, t) && s.c.timer < DWORD && s.c.smState == GET_OFFER && Happen(s, e).c.smState == GET_OFFER
    requires Quiet(e, s.config.mac) && Cleared(s.c.v)
    ensures Cleared(Happen(s, e).c.v)
  {
    hide Datagram, From, Expired, Options, AddressedTo, SocketsInStep, TimeInStep;
  }

  /** Of a client that waits for an offer: when its discovery was sent; and that nothing is left over from
      before, if no reply to it has come since. */
  lemma {:induction false} DiscoverySent(s: State, t: nat, events: seq<Event>, i: nat) returns (j: nat)
    requires Inv(s, t) && s.c.timer < DWORD && Runs(s, t, events) && i <= |events| && s.c.smState != GET_OFFER
    requires StateAt(s, t, events, i).c.smState == GET_OFFER
    ensures 0 < j <= i && StateAt(s, t, events, j - 1).c.smState != GET_OFFER
    ensures forall k: nat :: j <= k <= i ==> StateAt(s, t, events, k).c.smState == GET_OFFER
    ensures (forall k: nat :: j <= k < i ==> Quiet(events[k], StateAt(s, t, events, k).config.mac))
            ==> Cleared(StateAt(s, t, events, i).c.v)
    decreases i
  {
    hide Inv, Happen, Possible, Quiet, Cleared;
    StateAtStart(s, t, events);
    var t' := InvAt(s, t, events, i - 1);
    hide StateAt;
    var before := StateAt(s, t, events, i - 1);
    if before.c.smState == GET_OFFER {
      j := DiscoverySent(s, t, events, i - 1);
      if (forall k: nat :: j <= k < i ==> Quiet(events[k], StateAt(s, t, events, k).config.mac)) {
        QuietKeeps(before, t', events[i - 1]);
      }
    } else {
      j := i;
      DiscoveryClears(before, events[i - 1]);
    }
  }

  lemma StateAtStart(s: State, t: nat, events: seq<Event>)
    requires s.c.timer < DWORD && Runs(s, t, events)
    ensures StateAt(s, t, events, 0) == s
  {
  }

  /** What a bind configures and grants, given the offer and the variables before it was read: options 1, 3 and 51
      of RFC 2132. */
  ghost predicate Configures(offer: seq<byte>, v: Vars, was: Config, now: Config, granted: nat) {
    && now.mac == was.mac
    && now.mask == (match LastSaid(offer, OPTIONS, 1)
                    case Said(a) => a
                    case Unsaid => if v.validMask then v.tempMask else was.mask)
    && (match LastSaid(offer, OPTIONS, 3)
        case Said(a) => |a| >= 4 && now.gateway == a[..4]
        case Unsaid => now.gateway == if v.validGateway then v.tempGateway else was.gateway)
    && (match LastSaid(offer, OPTIONS, 51)
        case Said(a) => |a| == 4 && Kept(granted, BigEndian(a))
        case Unsaid => granted == v.leaseTime)
  }

  lemma BindConfigures(s: State, t: nat, x: Input, v: Vars, offer: seq<byte>)
    requires Inv(s, t) && s.c.timer < DWORD && s.c.smState == GET_REQUEST_ACK && Task(s, x).c.smState == BOUND
    requires Parameters(v, offer, OPTIONS, s.c.v)
    ensures Configures(offer, v, s.config, Task(s, x).config, Task(s, x).h.granted)
    ensures Task(s, x).c.v.leaseTime == Task(s, x).h.granted
  {
    hide Received, From, Expired, SocketsInStep, TimeInStep, LastSaid, BigEndian, Kept;
    if |x.packet.bytes| >= LEAST {
      ReceivedHeld(s.c.v, s.config.mac, x.packet);
    }
  }

  /** Over whole runs from power-on: a bind configures the mask and the gateway, and grants the lease, that
      the offer says last, if it is whole and its pads are paired. What it does not say stays as it was, and
      the lease is 60 seconds, if no other reply to this client has come since the discovery was sent; if one
      has, its mask, gateway and lease count. The events are those of sending and of the offer. */
  lemma BindsParametersOfRun(s: State, events: seq<Event>, x: Input) returns (j: nat, i: nat)
    requires PoweredOn(s) && Runs(Init(s), 0, events)
    requires var (last, t) := Ran(Init(s), 0, events);
             last.c.smState == GET_REQUEST_ACK && Task(last, x).c.smState == BOUND
    ensures 0 < j <= i < |events| && events[i].Poll? && TakesOffer(StateAt(Init(s), 0, events, i), events[i], events[i].x.packet)
    ensures StateAt(Init(s), 0, events, j - 1).c.smState != GET_OFFER
    ensures forall k: nat :: j <= k <= i ==> StateAt(Init(s), 0, events, k).c.smState == GET_OFFER
    ensures forall k: nat :: i < k <= |events| ==> Requesting(StateAt(Init(s), 0, events, k).c.smState)
    ensures var last, v := Ran(Init(s), 0, events).0, StateAt(Init(s), 0, events, i).c.v;
            var offer := events[i].x.packet.bytes;
            && (Whole(offer, OPTIONS) && PadsPaired(offer, OPTIONS) ==>
                  Configures(offer, v, last.config, Task(last, x).config, Task(last, x).h.granted))
            && ((forall k: nat :: j <= k < i ==> Quiet(events[k], StateAt(Init(s), 0, events, k).config.mac)) ==> Cleared(v))
  {
    hide Task, Ran, Runs, Inv, Happen, Init, Whole, PadsPaired, Configures, Parameters, Quiet, Cleared, StateAt, Received;
    var start := Init(s);
    InitEstablishes(s);
    InitDiscovers(s);
    i := BindsAddressOfRun(s, events, x);
    j := DiscoverySent(start, 0, events, i);
    var t := InvAt(start, 0, events, i);
    var offer := events[i].x.packet;
    OfferRead(StateAt(start, 0, events, i), t, events[i]);
    RunHolds(start, 0, events, i, |events|);
    RanIsLast(start, 0, events);
    var last := Ran(start, 0, events).0;
    RunKeeps(start, 0, events);
    if Whole(offer.bytes, OPTIONS) && PadsPaired(offer.bytes, OPTIONS) {
      var before := StateAt(start, 0, events, i);
      OfferParameters(before.c.v, before.config.mac, offer);
      BindConfigures(last, Ran(start, 0, events).1, x, before.c.v, offer.bytes);
    }
  }

  lemma InitDiscovers(s: State)
    requires s.c.timer < DWORD
    ensures Init(s).c.smState == GET_SOCKET && Init(s).c.timer < DWORD
  {
  }

  // ---------------------------------------------------------------- a mask that is left over

  /** An acknowledgement of the server 10.0.0.1 with the mask 255.0.0.0. */
  function StrayMask(mac: Mac): seq<byte> {
    Reply(mac, [MESSAGE_TYPE, 1, ACK, SERVER_ID, 4, 10, 0, 0, 1, SUBNET_MASK, 4, 255, 0, 0, 0, END_OPTION])
  }

  /** A client that looks for an offer, and gets this acknowledgement before an offer that says no mask,
      configures the mask of the acknowledgement. */
  lemma StrayMaskConfigured(s: State, x: Input, y: Input, z: Input)
    requires s.c.timer < DWORD && s.c.smState == GET_OFFER && !s.c.v.offerReceived && y.putReady >= 258
    requires x.packet.bytes == StrayMask(s.config.mac)
    requires y.packet.bytes == Stray(s.config.mac, OFFER) && z.packet.bytes == Stray(s.config.mac, ACK)
    ensures Task(s, x).c.timer < DWORD && Task(Task(s, x), y).c.timer < DWORD
    ensures var s' := Task(Task(Task(s, x), y), z);
            s'.c.smState == BOUND && s'.config.mask == [255, 0, 0, 0]
    ensures |y.packet.bytes| == 250 && y.packet.bytes[OPTIONS..] == [MESSAGE_TYPE, 1, OFFER, SERVER_ID, 4, 10, 0, 0, 1, END_OPTION]
  {
    hide Task, Received, Reply;
    MaskLeft(s, x);
    var s1 := Task(s, x);
    OfferHeard(s1, y);
    var s2 := Task(s1, y);
    AckBinds(s2, z);
  }

  lemma MaskLeft(s: State, x: Input)
    requires s.c.timer < DWORD && s.c.smState == GET_OFFER && !s.c.v.offerReceived && x.packet.bytes == StrayMask(s.config.mac)
    ensures var s' := Task(s, x);
            && s'.c.timer < DWORD && s'.c.smState == GET_OFFER && !s'.c.v.offerReceived && s'.config == s.config
            && s'.c.v.validMask && s'.c.v.tempMask == [255, 0, 0, 0]
  {
    hide Reply, Options, Datagram, Expired;
    var p := x.packet.bytes;
    var t := Fresh(s.c.v, x.packet);
    StrayMaskBytes(p);
    TypeAndServerRead(t, p, 240, ACK);
    MaskAtEnd(t.(kind := ACK, server := [10, 0, 0, 1]), p);
  }

  lemma StrayMaskBytes(p: seq<byte>)
    requires |p| == 256 && p[240..] == [MESSAGE_TYPE, 1, ACK, SERVER_ID, 4, 10, 0, 0, 1, SUBNET_MASK, 4, 255, 0, 0, 0, END_OPTION]
    ensures p[240] == MESSAGE_TYPE && p[241] == 1 && p[242] == ACK && p[243] == SERVER_ID && p[244] == 4 && p[245..249] == [10, 0, 0, 1]
    ensures p[249] == SUBNET_MASK && p[250] == 4 && p[251..255] == [255, 0, 0, 0] && p[255] == END_OPTION
  {
    var o := p[240..];
    assert p[240] == o[0] && p[241] == o[1] && p[242] == o[2] && p[243] == o[3] && p[244] == o[4];
    assert p[249] == o[9] && p[250] == o[10] && p[255] == o[15] && p[245..249] == o[5..9] && p[251..255] == o[11..15];
  }

  lemma MaskAtEnd(s: Seen, p: seq<byte>)
    requires |p| == 256 && p[249] == SUBNET_MASK && p[250] == 4 && p[251..255] == [255, 0, 0, 0] && p[255] == END_OPTION
    requires !s.v.offerReceived
    ensures Options(s, p, 249) == Heard(s.v.(tempMask := [255, 0, 0, 0], validMask := true), s.kind, s.server)
  {
    hide Lease;
    FourWhole(p, 251, s.v.tempMask);
    hide Four;
    var t := s.(v := s.v.(tempMask := [255, 0, 0, 0], validMask := true));
    assert Acceptable(s, p, 249) && After(s, p, 249) == t && LengthAt(p, 249, s.j) == 4;
    assert Options(s, p, 249) == Options(t, p, 255);
  }

  lemma OfferHeard(s: State, x: Input)
    requires s.c.timer < DWORD && s.c.smState == GET_OFFER && !s.c.v.offerReceived && x.putReady >= 258
    requires x.packet.bytes == Stray(s.config.mac, OFFER)
    ensures var s' := Task(s, x);
            && s'.c.timer < DWORD && s'.c.smState == GET_REQUEST_ACK && s'.config == s.config
            && s'.c.v.offerReceived && s'.c.v.serverID == [10, 0, 0, 1]
            && s'.c.v.validMask == s.c.v.validMask && s'.c.v.tempMask == s.c.v.tempMask
  {
    hide Reply, Options, Datagram, Expired;
    var p := x.packet.bytes;
    TypeServerBytes(p, 240, OFFER);
    TypeAndServerHeard(Fresh(s.c.v, x.packet), p, 240, OFFER);
  }

  lemma AckBinds(s: State, x: Input)
    requires s.c.timer < DWORD && s.c.smState == GET_REQUEST_ACK && s.c.v.offerReceived && s.c.v.serverID == [10, 0, 0, 1]
    requires x.packet.bytes == Stray(s.config.mac, ACK) && s.c.v.validMask
    ensures Task(s, x).c.smState == BOUND && Task(s, x).config.mask == s.c.v.tempMask
  {
    hide Reply, Options, Datagram, Expired;
    var p := x.packet.bytes;
    TypeServerBytes(p, 240, ACK);
    TypeAndServerHeard(Seen(s.c.v, UNKNOWN, x.packet.stale, x.packet.j), p, 240, ACK);
  }
}
