/** The DHCP client (section 4.4 of RFC 2131): its state machine, and what holds whatever happens. */
module Dhcp {
  import opened Crc16
  import opened DhcpMessage

  /** Ticks per second, from a peripheral clock of 40 MHz. */
  const TICK_SECOND: nat := 156250
  const DWORD: nat := 0x1_0000_0000
  const INVALID_SOCKET: nat := 0xFF
  const BASE_TIMEOUT: nat := 2

  const DISABLED: nat := 0
  const GET_SOCKET: nat := 1
  const SEND_DISCOVERY: nat := 2
  const GET_OFFER: nat := 3
  const SEND_REQUEST: nat := 4
  const GET_REQUEST_ACK: nat := 5
  const BOUND: nat := 6
  const SEND_RENEW: nat := 7
  const GET_RENEW_ACK: nat := 8
  const SEND_RENEW2: nat := 9
  const GET_RENEW_ACK2: nat := 10
  const SEND_RENEW3: nat := 11
  const GET_RENEW_ACK3: nat := 12

  datatype Config = Config(mac: Mac, ip: Ip, mask: Ip, gateway: Ip)

  datatype Client = Client(socket: nat, smState: nat, isBound: bool, event: bool, serverDetected: bool, unicast: bool,
                           timer: nat, baseTime: nat, v: Vars)

  /** A packet, and what _DHCPReceive's own variables hold when it is read. */
  datatype Packet = Packet(bytes: seq<byte>, stale: Ip, j: byte)

  /** What no program variable holds: dwTimer without wrap-around, when the lease began and how long it
      was, how many renewals were sent since, and the offer that was accepted. */
  datatype History = History(due: nat, boundAt: nat, granted: nat, renewals: nat, offer: Packet)

  /** `sockets` are the UDP sockets that the client holds, `sent` the datagrams it has sent. */
  datatype State = State(c: Client, config: Config, initializedOnce: bool, sockets: set<nat>, sent: seq<seq<byte>>, h: History)

  /** What DHCPTask gets from its surroundings: the result of opening a socket, the link, the room to
      send, the packet that has arrived, the true tick counts at its first and second look, randomness. */
  datatype Input = Input(handle: nat, linked: bool, putReady: nat, packet: Packet, now: nat, later: nat, rand: nat)

  // ---------------------------------------------------------------- time

  function Ticks(now: nat): nat {
    now % DWORD
  }

  /** A DWORD difference. */
  function Minus(a: nat, b: nat): nat
    requires a < DWORD && b < DWORD
  {
    (a + DWORD - b) % DWORD
  }

  /** (long)(TickGet() - dwTimer) > 0. */
  predicate Expired(now: nat, timer: nat)
    requires timer < DWORD
  {
    0 < Minus(Ticks(now), timer) < DWORD / 2
  }

  // ---------------------------------------------------------------- sending

  function Zeros(n: nat): (r: seq<byte>)
    ensures |r| == n
  {
    seq(n, _ => 0)
  }

  function Header(c: Client, mac: Mac, ciaddr: Ip): (r: seq<byte>)
    ensures |r| == OPTIONS
  {
    [1, 1, 6, 0, 0x12, 0x23, 0x34, 0x56, 0, 0, if c.unicast then 0 else 0x80, 0] + ciaddr + Zeros(12) + mac + Zeros(202)
    + [99, 130, 83, 99]
  }

  /** _DHCPSend: a renewal names the address in ciaddr, other requests name address and server in options. */
  function Datagram(c: Client, mac: Mac, kind: byte, renewing: bool): seq<byte> {
    var ciaddr := if kind == REQUEST && renewing then c.v.tempIP else [0, 0, 0, 0];
    var server := if kind == REQUEST && !renewing then [SERVER_ID, 4] + c.v.serverID else [];
    var wanted := if (kind == REQUEST && !renewing) || (kind == DISCOVER && c.v.tempIP != [0, 0, 0, 0])
                  then [REQUESTED_IP, 4] + c.v.tempIP else [];
    var message := Header(c, mac, ciaddr) + [MESSAGE_TYPE, 1, kind] + server + [55, 4, SUBNET_MASK, ROUTER, 6, 12] + wanted + [END_OPTION];
    message + Zeros(if |message| < 300 then 300 - |message| else 0)
  }

  function Sent(s: State, kind: byte, renewing: bool): State {
    s.(sent := s.sent + [Datagram(s.c, s.config.mac, kind, renewing)])
  }

  /** Start the timer: the base time and less than a second more. */
  function Armed(s: State, now: nat, rand: nat): State {
    var due := now + s.c.baseTime * TICK_SECOND + rand % TICK_SECOND;
    s.(c := s.c.(timer := due % DWORD), h := s.h.(due := due))
  }

  // ---------------------------------------------------------------- the states

  function To(s: State, smState: nat): State {
    s.(c := s.c.(smState := smState))
  }

  function Opened(s: State, handle: nat): State {
    s.(c := s.c.(socket := handle), sockets := if handle == INVALID_SOCKET then s.sockets else s.sockets + {handle})
  }

  function Closed(s: State): State {
    s.(c := s.c.(socket := INVALID_SOCKET), sockets := s.sockets - {s.c.socket})
  }

  function InGetSocket(s: State, x: Input): State {
    var s' := Opened(s, x.handle);
    if x.handle == INVALID_SOCKET then s' else InSendDiscovery(To(s', SEND_DISCOVERY), x)
  }

  function InSendDiscovery(s: State, x: Input): State {
    var v := s.c.v.(leaseTime := 60, validIP := false, validMask := false, validGateway := false, offerReceived := false);
    var s1 := s.(c := s.c.(v := v, isBound := false));
    if !x.linked || x.putReady < 300 then s1
    else
      var s2 := s1.(c := s1.c.(unicast := !s1.c.unicast));
      To(Armed(Sent(s2, DISCOVER, false), x.later, x.rand), GET_OFFER)
  }

  /** Back to discovery after a timeout, with the base time doubled up to 64 seconds. */
  function BackedOff(s: State): State {
    To(if s.c.baseTime < 64 then s.(c := s.c.(baseTime := 2 * s.c.baseTime)) else s, SEND_DISCOVERY)
  }

  function Heeded(s: State, p: Packet): (State, byte)
    requires |p.bytes| >= LEAST
  {
    var (v, kind) := Received(s.c.v, s.config.mac, p.bytes, p.stale, p.j);
    (s.(c := s.c.(v := v)), kind)
  }

  function InGetOffer(s: State, x: Input): State
    requires s.c.timer < DWORD
  {
    if |x.packet.bytes| < LEAST then if Expired(x.now, s.c.timer) then BackedOff(s) else s
    else
      var (s', kind) := Heeded(s.(c := s.c.(serverDetected := true)), x.packet);
      if kind != OFFER then s' else InSendRequest(To(s'.(h := s.h.(offer := x.packet)), SEND_REQUEST), x)
  }

  function InSendRequest(s: State, x: Input): State {
    if x.putReady < 258 then s else To(Armed(Sent(s, REQUEST, false), x.later, x.rand), GET_REQUEST_ACK)
  }

  function Bind(s: State, now: nat): State {
    var s' := Closed(s);
    s'.(c := s'.c.(timer := Ticks(now), smState := BOUND, event := true), h := s.h.(due := now, boundAt := now, granted := s.c.v.leaseTime))
  }

  /** The address and the parameters that are valid go into the configuration. */
  function Configured(config: Config, v: Vars): Config {
    config.(ip := if v.validIP then v.tempIP else config.ip, mask := if v.validMask then v.tempMask else config.mask,
            gateway := if v.validGateway then v.tempGateway else config.gateway)
  }

  function InGetRequestAck(s: State, x: Input): State
    requires s.c.timer < DWORD
  {
    if |x.packet.bytes| < LEAST then if Expired(x.now, s.c.timer) then BackedOff(s) else s
    else
      var (s', kind) := Heeded(s, x.packet);
      if kind == ACK then
        var b := Bind(s', x.now);
        b.(c := b.c.(isBound := true), config := Configured(b.config, b.c.v))
      else if kind == NAK then To(s', SEND_DISCOVERY)
      else s'
  }

  function InBound(s: State, x: Input): State
    requires s.c.timer < DWORD
  {
    if Minus(Ticks(x.now), s.c.timer) < TICK_SECOND then s
    else if s.c.v.leaseTime > s.c.baseTime * 3 then
      s.(c := s.c.(timer := (s.c.timer + TICK_SECOND) % DWORD, v := s.c.v.(leaseTime := s.c.v.leaseTime - 1)),
         h := s.h.(due := s.h.due + TICK_SECOND))
    else
      var s' := Opened(s, x.handle);
      if x.handle == INVALID_SOCKET then s' else InSendRenew(To(s'.(h := s'.h.(renewals := 0)), SEND_RENEW), x)
  }

  function InSendRenew(s: State, x: Input): State {
    if x.putReady < 258 then s
    else
      var s1 := Sent(s, REQUEST, true);
      var s2 := s1.(c := s1.c.(v := s1.c.v.(offerReceived := false)), h := s1.h.(renewals := s1.h.renewals + 1));
      To(Armed(s2, x.later, x.rand), s.c.smState + 1)
  }

  function InGetRenewAck(s: State, x: Input): State
    requires s.c.timer < DWORD
  {
    if |x.packet.bytes| < LEAST then
      if Expired(x.now, s.c.timer) then To(s, if s.c.smState + 1 > GET_RENEW_ACK3 then SEND_DISCOVERY else s.c.smState + 1) else s
    else
      var (s', kind) := Heeded(s, x.packet);
      if kind == ACK then Bind(s', x.now) else if kind == NAK then To(s', SEND_DISCOVERY) else s'
  }

  function Task(s: State, x: Input): State
    requires s.c.timer < DWORD
  {
    var sm := s.c.smState;
    if sm == GET_SOCKET then InGetSocket(s, x)
    else if sm == SEND_DISCOVERY then InSendDiscovery(s, x)
    else if sm == GET_OFFER then InGetOffer(s, x)
    else if sm == SEND_REQUEST then InSendRequest(s, x)
    else if sm == GET_REQUEST_ACK then InGetRequestAck(s, x)
    else if sm == BOUND then InBound(s, x)
    else if Sending(sm) then InSendRenew(s, x)
    else if Awaiting(sm) then InGetRenewAck(s, x)
    else s
  }

  predicate Sending(sm: nat) {
    sm == SEND_RENEW || sm == SEND_RENEW2 || sm == SEND_RENEW3
  }

  predicate Awaiting(sm: nat) {
    sm == GET_RENEW_ACK || sm == GET_RENEW_ACK2 || sm == GET_RENEW_ACK3
  }

  function Init(s: State): State {
    var s0 := if s.initializedOnce then s else s.(initializedOnce := true, c := s.c.(socket := INVALID_SOCKET));
    var s1 := if s0.c.socket != INVALID_SOCKET then Closed(s0) else s0;
    s1.(c := s1.c.(baseTime := BASE_TIMEOUT, smState := GET_SOCKET, isBound := false, serverDetected := false,
                   v := s1.c.v.(offerReceived := false), unicast := true, event := true))
  }

  function Disable(s: State): State {
    To(if s.c.socket != INVALID_SOCKET then Closed(s) else s, DISABLED)
  }

  function Enable(s: State): State {
    if s.c.smState != DISABLED then s
    else To(s.(c := s.c.(baseTime := BASE_TIMEOUT, isBound := false)), GET_SOCKET)
  }

  datatype Event = Initialize | DisableClient | EnableClient | Poll(x: Input)

  function Happen(s: State, e: Event): State
    requires s.c.timer < DWORD
  {
    match e
    case Initialize => Init(s)
    case DisableClient => Disable(s)
    case EnableClient => Enable(s)
    case Poll(x) => Task(s, x)
  }

  // ---------------------------------------------------------------- what a received message means

  /** The packet is a reply to this client, and, if it is whole and its pads are paired, of this kind and
      from this server. A server that does not name itself counts as whatever the reader's variable held. */
  ghost predicate From(p: Packet, mac: Mac, kind: byte, server: Ip) {
    && |p.bytes| >= LEAST && p.bytes[0] == BOOT_REPLY && AddressedTo(p.bytes, mac)
    && (Whole(p.bytes, OPTIONS) && PadsPaired(p.bytes, OPTIONS) ==>
          && Says(p.bytes, OPTIONS, MESSAGE_TYPE, [kind])
          && (Says(p.bytes, OPTIONS, SERVER_ID, server)
              || (server == p.stale && forall a: seq<byte> :: !Says(p.bytes, OPTIONS, SERVER_ID, a))))
  }

  /** While an offer is held, reading options changes nothing, and no second offer gets through. */
  lemma {:induction false} OptionsHeld(s: Seen, p: seq<byte>, pos: nat)
    requires s.v.offerReceived && s.kind != OFFER
    ensures var h := Options(s, p, pos); h.v == s.v && (h.Heard? ==> h.kind != OFFER)
    decreases if pos < |p| then |p| - pos else 0
  {
    hide After, Acceptable, LengthAt;
    if pos < |p| && p[pos] != END_OPTION && Acceptable(s, p, pos) {
      OptionFresh(s, p, pos);
      OptionsHeld(After(s, p, pos), p, pos + 2 + LengthAt(p, pos, s.j) as nat);
    }
  }

  /** Reading options never touches the address, the server or whether an offer is held. */
  lemma {:induction false} OptionsFresh(s: Seen, p: seq<byte>, pos: nat)
    ensures var v := Options(s, p, pos).v;
            v.offerReceived == s.v.offerReceived && v.serverID == s.v.serverID && v.tempIP == s.v.tempIP && v.validIP == s.v.validIP
    decreases if pos < |p| then |p| - pos else 0
  {
    hide After, Acceptable, LengthAt;
    if pos < |p| && p[pos] != END_OPTION && Acceptable(s, p, pos) {
      OptionFresh(s, p, pos);
      OptionsFresh(After(s, p, pos), p, pos + 2 + LengthAt(p, pos, s.j) as nat);
    }
  }

  lemma OptionFresh(s: Seen, p: seq<byte>, pos: nat)
    requires pos < |p|
    ensures var v := After(s, p, pos).v;
            v.offerReceived == s.v.offerReceived && v.serverID == s.v.serverID && v.tempIP == s.v.tempIP && v.validIP == s.v.validIP
    ensures s.v.offerReceived ==> After(s, p, pos).v == s.v
    ensures s.v.offerReceived && s.kind != OFFER && Acceptable(s, p, pos) ==> After(s, p, pos).kind != OFFER
  {
    hide Four, Lease;
  }

  lemma OptionsFrom(s: Seen, p: Packet, mac: Mac)
    requires |p.bytes| >= LEAST && p.bytes[0] == BOOT_REPLY && AddressedTo(p.bytes, mac)
    requires s.kind == UNKNOWN && s.server == p.stale
    ensures var h := Options(s, p.bytes, OPTIONS); h.Heard? && h.kind != UNKNOWN ==> From(p, mac, h.kind, h.server)
  {
    hide Options, Says, AddressedTo;
    var h := Options(s, p.bytes, OPTIONS);
    if h.Heard? && h.kind != UNKNOWN && Whole(p.bytes, OPTIONS) && PadsPaired(p.bytes, OPTIONS) {
      OptionsSaid(s, p.bytes, OPTIONS);
      assert Says(p.bytes, OPTIONS, MESSAGE_TYPE, [h.kind]);
      assert Says(p.bytes, OPTIONS, SERVER_ID, h.server)
             || (h.server == p.stale && forall a: seq<byte> :: !Says(p.bytes, OPTIONS, SERVER_ID, a));
      assert From(p, mac, h.kind, h.server);
    }
  }

  /** Before an offer is held: an offer is taken with its address and its server. */
  lemma ReceivedFresh(v: Vars, mac: Mac, p: Packet)
    requires |p.bytes| >= LEAST && !v.offerReceived
    ensures var (v', kind) := Received(v, mac, p.bytes, p.stale, p.j);
            if kind == OFFER then
              v'.offerReceived && v'.validIP && v'.tempIP == p.bytes[16..20] && From(p, mac, OFFER, v'.serverID)
            else !v'.offerReceived
  {
    hide Options, AddressedTo, From;
    var s := Seen(v.(tempIP := p.bytes[16..20], validIP := true), UNKNOWN, p.stale, p.j);
    OptionsFresh(s, p.bytes, OPTIONS);
    if p.bytes[0] == BOOT_REPLY && AddressedTo(p.bytes, mac) {
      OptionsFrom(s, p, mac);
    }
  }

  /** While an offer is held: nothing changes, and only messages of the same server count. */
  lemma ReceivedHeld(v: Vars, mac: Mac, p: Packet)
    requires |p.bytes| >= LEAST && v.offerReceived
    ensures var (v', kind) := Received(v, mac, p.bytes, p.stale, p.j);
            v' == v && kind != OFFER && (kind != UNKNOWN ==> From(p, mac, kind, v.serverID))
  {
    hide Options, AddressedTo, From;
    var s := Seen(v, UNKNOWN, p.stale, p.j);
    OptionsHeld(s, p.bytes, OPTIONS);
    if p.bytes[0] == BOOT_REPLY && AddressedTo(p.bytes, mac) {
      OptionsFrom(s, p, mac);
    }
  }

  // ---------------------------------------------------------------- what holds in every reachable state

  predicate HoldsSocket(sm: nat) {
    (SEND_DISCOVERY <= sm <= GET_REQUEST_ACK) || (SEND_RENEW <= sm <= GET_RENEW_ACK3)
  }

  /** Exactly one socket in the states that talk, none in the others. */
  ghost predicate SocketsInStep(s: State) {
    && s.c.smState <= GET_RENEW_ACK3
    && (HoldsSocket(s.c.smState) <==> s.c.socket != INVALID_SOCKET)
    && s.sockets == if HoldsSocket(s.c.smState) then {s.c.socket} else {}
  }

  predicate BackoffBase(n: nat) {
    n == 2 || n == 4 || n == 8 || n == 16 || n == 32 || n == 64
  }

  /** How many renewal requests a state has behind it. */
  function RenewalsIn(sm: nat): nat {
    if sm == SEND_RENEW then 0 else if sm <= SEND_RENEW2 then 1 else if sm <= SEND_RENEW3 then 2 else 3
  }

  /** The timer is the low half of its true value; a deadline is at most 65 seconds away; while bound, the
      lease left over and the time accounted for make up the lease granted, and are never ahead of time. */
  ghost predicate TimeInStep(s: State, t: nat) {
    && s.c.timer == s.h.due % DWORD && BackoffBase(s.c.baseTime)
    && (HoldsSocket(s.c.smState) && s.c.smState != SEND_DISCOVERY && s.c.smState != SEND_REQUEST && !Sending(s.c.smState)
        ==> s.h.due < t + 65 * TICK_SECOND)
    && (s.c.smState == BOUND ==> s.h.due <= t && s.h.due + s.c.v.leaseTime * TICK_SECOND == s.h.boundAt + s.h.granted * TICK_SECOND)
    && (SEND_RENEW <= s.c.smState ==> s.h.renewals == RenewalsIn(s.c.smState))
  }

  /** From the offer to the request's answer, the client holds that offer's address and server. */
  ghost predicate OfferInStep(s: State) {
    && (s.c.smState == GET_OFFER ==> !s.c.v.offerReceived)
    && (s.c.smState == SEND_REQUEST || s.c.smState == GET_REQUEST_ACK ==>
          && s.c.v.offerReceived && s.c.v.validIP
          && From(s.h.offer, s.config.mac, OFFER, s.c.v.serverID) && s.c.v.tempIP == s.h.offer.bytes[16..20])
  }

  ghost predicate Inv(s: State, t: nat) {
    s.initializedOnce && SocketsInStep(s) && TimeInStep(s, t) && OfferInStep(s)
  }

  /** Time goes on, and a new socket is not one that is held. */
  predicate Possible(s: State, t: nat, e: Event) {
    e.Poll? ==> t <= e.x.now <= e.x.later && (e.x.handle != INVALID_SOCKET ==> e.x.handle !in s.sockets)
  }

  function Later(t: nat, e: Event): nat {
    if e.Poll? then e.x.later else t
  }

  /** Power-on: static variables are zero, so the first DHCPInit must not close socket 0. */
  predicate PoweredOn(s: State) {
    && !s.initializedOnce && s.sockets == {} && s.c.timer == 0 && s.h.due == 0
  }

  lemma InitEstablishes(s: State)
    requires PoweredOn(s)
    ensures Inv(Init(s), 0)
  {
  }

  ghost predicate Holding(s: State) {
    s.c.socket != INVALID_SOCKET && s.sockets == {s.c.socket}
  }

  lemma TalkKeepsSockets(s: State, x: Input)
    requires Holding(s) && s.c.timer < DWORD
    ensures s.c.smState == SEND_DISCOVERY ==> SocketsInStep(InSendDiscovery(s, x))
    ensures s.c.smState == SEND_REQUEST ==> SocketsInStep(InSendRequest(s, x))
    ensures Sending(s.c.smState) ==> SocketsInStep(InSendRenew(s, x))
  {
    hide Datagram;
  }

  lemma OfferKeepsSockets(s: State, x: Input)
    requires Holding(s) && s.c.timer < DWORD && s.c.smState == GET_OFFER
    ensures SocketsInStep(InGetOffer(s, x))
  {
    hide Received, Expired, InSendRequest;
    if |x.packet.bytes| >= LEAST {
      var (s', kind) := Heeded(s.(c := s.c.(serverDetected := true)), x.packet);
      TalkKeepsSockets(To(s'.(h := s.h.(offer := x.packet)), SEND_REQUEST), x);
    }
  }

  lemma BindSockets(s: State, now: nat, s': State)
    requires Holding(s) && s'.c.smState == Bind(s, now).c.smState && s'.c.socket == Bind(s, now).c.socket
    requires s'.sockets == Bind(s, now).sockets
    ensures SocketsInStep(s')
  {
  }

  lemma SameSockets(s: State, s': State)
    requires Holding(s) && s'.c.socket == s.c.socket && s'.sockets == s.sockets && HoldsSocket(s'.c.smState)
    ensures SocketsInStep(s')
  {
  }

  lemma AckKeepsSockets(s: State, x: Input)
    requires Holding(s) && s.c.timer < DWORD && s.c.smState == GET_REQUEST_ACK
    ensures SocketsInStep(InGetRequestAck(s, x))
  {
    hide Received, Expired, SocketsInStep, Bind, Configured;
    var r := InGetRequestAck(s, x);
    if |x.packet.bytes| >= LEAST && Heeded(s, x.packet).1 == ACK {
      BindSockets(Heeded(s, x.packet).0, x.now, r);
    } else {
      SameSockets(s, r);
    }
  }

  lemma RenewAckKeepsSockets(s: State, x: Input)
    requires Holding(s) && s.c.timer < DWORD && Awaiting(s.c.smState)
    ensures SocketsInStep(InGetRenewAck(s, x))
  {
    hide Received, Expired, SocketsInStep, Bind, Configured;
    var r := InGetRenewAck(s, x);
    if |x.packet.bytes| >= LEAST && Heeded(s, x.packet).1 == ACK {
      BindSockets(Heeded(s, x.packet).0, x.now, r);
    } else {
      SameSockets(s, r);
    }
  }

  lemma TaskKeepsSockets(s: State, t: nat, x: Input)
    requires Inv(s, t) && Possible(s, t, Poll(x))
    ensures SocketsInStep(Task(s, x))
  {
    hide InSendDiscovery, InSendRequest, InSendRenew, InGetOffer, InGetRequestAck, InGetRenewAck, OfferInStep;
    if Holding(s) {
      TalkKeepsSockets(s, x);
      if s.c.smState == GET_OFFER {
        OfferKeepsSockets(s, x);
      }
      if s.c.smState == GET_REQUEST_ACK {
        AckKeepsSockets(s, x);
      }
      if Awaiting(s.c.smState) {
        RenewAckKeepsSockets(s, x);
      }
    } else if x.handle != INVALID_SOCKET {
      var s' := Opened(s, x.handle);
      assert s'.sockets == {x.handle};
      TalkKeepsSockets(To(s', SEND_DISCOVERY), x);
      TalkKeepsSockets(To(s'.(h := s'.h.(renewals := 0)), SEND_RENEW), x);
    }
  }

  lemma DiscoveryTimed(s: State, t: nat, x: Input)
    requires BackoffBase(s.c.baseTime) && s.c.timer == s.h.due % DWORD && t <= x.now <= x.later && s.c.smState == SEND_DISCOVERY
    ensures TimeInStep(InSendDiscovery(s, x), x.later)
  {
    hide Datagram;
  }

  lemma RequestTimed(s: State, t: nat, x: Input)
    requires BackoffBase(s.c.baseTime) && s.c.timer == s.h.due % DWORD && t <= x.now <= x.later && s.c.smState == SEND_REQUEST
    ensures TimeInStep(InSendRequest(s, x), x.later)
  {
    hide Datagram;
  }

  lemma RenewTimed(s: State, t: nat, x: Input)
    requires BackoffBase(s.c.baseTime) && s.c.timer == s.h.due % DWORD && t <= x.now <= x.later && Sending(s.c.smState)
    requires s.h.renewals == RenewalsIn(s.c.smState)
    ensures TimeInStep(InSendRenew(s, x), x.later)
  {
    hide Datagram;
  }

  lemma BoundTimed(s: State, t: nat, x: Input)
    requires TimeInStep(s, t) && t <= x.now <= x.later && s.c.smState == BOUND
    ensures TimeInStep(InBound(s, x), x.later)
  {
    hide Datagram;
    TicksApart(x.now, s.h.due);
    AddMod(s.h.due);
    if Minus(Ticks(x.now), s.c.timer) >= TICK_SECOND && s.c.v.leaseTime <= s.c.baseTime * 3 {
      var s' := Opened(s, x.handle);
      RenewTimed(To(s'.(h := s'.h.(renewals := 0)), SEND_RENEW), t, x);
    }
  }

  lemma DwordIs(x: nat, q: nat, r: nat)
    requires x == DWORD * q + r && r < DWORD
    ensures x % DWORD == r && x / DWORD == q
  {
  }

  /** A DWORD difference of times is the true one, less what does not fit a DWORD. */
  lemma MinusIsDifference(now: nat, due: nat)
    requires due <= now
    ensures Minus(Ticks(now), due % DWORD) == (now - due) % DWORD
  {
    var q, r := due / DWORD, due % DWORD;
    var k, m := now / DWORD, now % DWORD;
    assert due == DWORD * q + r && now == DWORD * k + m;
    if m >= r {
      DwordIs(m + DWORD - r, 1, m - r);
      DwordIs(now - due, k - q, m - r);
    } else {
      assert k > q;
      DwordIs(m + DWORD - r, 0, m + DWORD - r);
      DwordIs(now - due, k - q - 1, m + DWORD - r);
    }
  }

  /** So it is never more than the true one, and equal to it if that is a DWORD. */
  lemma TicksApart(now: nat, due: nat)
    requires due <= now
    ensures Minus(Ticks(now), due % DWORD) <= now - due
    ensures now - due < DWORD ==> Minus(Ticks(now), due % DWORD) == now - due
  {
    hide Minus, Ticks;
    MinusIsDifference(now, due);
    var q, r := (now - due) / DWORD, (now - due) % DWORD;
    assert now - due == DWORD * q + r;
    if now - due < DWORD {
      DwordIs(now - due, 0, now - due);
    }
  }

  lemma AddMod(due: nat)
    ensures (due % DWORD + TICK_SECOND) % DWORD == (due + TICK_SECOND) % DWORD
  {
    var q, r := due / DWORD, due % DWORD;
    assert due == DWORD * q + r;
    if r + TICK_SECOND < DWORD {
      DwordIs(due + TICK_SECOND, q, r + TICK_SECOND);
      DwordIs(r + TICK_SECOND, 0, r + TICK_SECOND);
    } else {
      DwordIs(due + TICK_SECOND, q + 1, r + TICK_SECOND - DWORD);
      DwordIs(r + TICK_SECOND, 1, r + TICK_SECOND - DWORD);
    }
  }

  lemma TaskKeepsTime(s: State, t: nat, x: Input)
    requires Inv(s, t) && Possible(s, t, Poll(x))
    ensures TimeInStep(Task(s, x), x.later)
  {
    hide InSendDiscovery, InSendRequest, InSendRenew, InGetOffer, InGetRequestAck, InGetRenewAck, InBound, OfferInStep;
    var sm := s.c.smState;
    if sm == BOUND {
      BoundTimed(s, t, x);
    } else if sm == GET_SOCKET && x.handle != INVALID_SOCKET {
      DiscoveryTimed(To(Opened(s, x.handle), SEND_DISCOVERY), t, x);
    } else if sm == SEND_DISCOVERY {
      DiscoveryTimed(s, t, x);
    } else if sm == SEND_REQUEST {
      RequestTimed(s, t, x);
    } else if sm == GET_OFFER {
      OfferTimed(s, t, x);
    } else if Sending(sm) {
      RenewTimed(s, t, x);
    } else if sm == GET_REQUEST_ACK {
      AckTimed(s, t, x);
    } else if Awaiting(sm) {
      RenewAckTimed(s, t, x);
    }
  }

  lemma OfferTimed(s: State, t: nat, x: Input)
    requires TimeInStep(s, t) && t <= x.now <= x.later && s.c.smState == GET_OFFER
    ensures TimeInStep(InGetOffer(s, x), x.later)
  {
    hide Datagram, Received, Expired;
    if |x.packet.bytes| >= LEAST {
      var (s', kind) := Heeded(s.(c := s.c.(serverDetected := true)), x.packet);
      RequestTimed(To(s'.(h := s.h.(offer := x.packet)), SEND_REQUEST), t, x);
    }
  }

  /** Waiting on, or back to discovery: no new deadline is set. */
  lemma StillTimed(s: State, s': State, t: nat, t': nat)
    requires TimeInStep(s, t) && t <= t' && s'.c.timer == s.c.timer && s'.h.due == s.h.due && s'.h.renewals == s.h.renewals
    requires s'.c.baseTime == s.c.baseTime || (s'.c.baseTime == 2 * s.c.baseTime && s.c.baseTime < 64)
    requires (s'.c.smState == s.c.smState && s.c.smState != BOUND) || s'.c.smState == SEND_DISCOVERY
             || (Awaiting(s.c.smState) && s'.c.smState == s.c.smState + 1 && Sending(s'.c.smState))
    ensures TimeInStep(s', t')
  {
  }

  lemma BindTimed(s: State, now: nat, later: nat)
    requires BackoffBase(s.c.baseTime) && now <= later
    ensures TimeInStep(Bind(s, now), later)
  {
  }

  lemma TimeKnows(s: State, t: nat)
    requires TimeInStep(s, t)
    ensures s.c.timer < DWORD && BackoffBase(s.c.baseTime)
  {
  }

  lemma SameTime(s: State, s': State, t: nat)
    requires TimeInStep(s, t) && s'.c == s.c.(isBound := s'.c.isBound) && s'.h == s.h
    ensures TimeInStep(s', t)
  {
  }

  lemma HeededKeeps(s: State, p: Packet)
    requires |p.bytes| >= LEAST
    ensures var s' := Heeded(s, p).0; s'.c == s.c.(v := s'.c.v) && s'.h == s.h && s'.sockets == s.sockets
  {
  }

  lemma AckTimed(s: State, t: nat, x: Input)
    requires TimeInStep(s, t) && t <= x.now <= x.later && s.c.smState == GET_REQUEST_ACK && s.c.timer < DWORD
    ensures TimeInStep(InGetRequestAck(s, x), x.later)
  {
    hide Heeded, Expired, TimeInStep, Bind, Configured;
    if |x.packet.bytes| >= LEAST {
      HeededKeeps(s, x.packet);
    }
    TimeKnows(s, t);
    var r := InGetRequestAck(s, x);
    if |x.packet.bytes| >= LEAST && Heeded(s, x.packet).1 == ACK {
      var b := Bind(Heeded(s, x.packet).0, x.now);
      BindTimed(Heeded(s, x.packet).0, x.now, x.later);
      SameTime(b, r, x.later);
    } else {
      StillTimed(s, r, t, x.later);
    }
  }

  lemma RenewAckTimed(s: State, t: nat, x: Input)
    requires TimeInStep(s, t) && t <= x.now <= x.later && Awaiting(s.c.smState) && s.c.timer < DWORD
    ensures TimeInStep(InGetRenewAck(s, x), x.later)
  {
    hide Received, Expired, TimeInStep, Bind, Configured;
    TimeKnows(s, t);
    if |x.packet.bytes| >= LEAST && Heeded(s, x.packet).1 == ACK {
      BindTimed(Heeded(s, x.packet).0, x.now, x.later);
    } else {
      StillTimed(s, InGetRenewAck(s, x), t, x.later);
    }
  }

  lemma TimerSmall(s: State, t: nat)
    requires TimeInStep(s, t)
    ensures s.c.timer < DWORD
  {
  }

  lemma TalkKeepsOffer(s: State, x: Input)
    ensures s.c.smState == SEND_DISCOVERY ==> OfferInStep(InSendDiscovery(s, x))
    ensures s.c.smState == SEND_REQUEST && OfferInStep(s) ==> OfferInStep(InSendRequest(s, x))
    ensures Sending(s.c.smState) ==> OfferInStep(InSendRenew(s, x))
  {
    hide Datagram, From;
  }

  lemma OfferKeepsOffer(s: State, x: Input)
    requires s.c.timer < DWORD && s.c.smState == GET_OFFER && OfferInStep(s)
    ensures OfferInStep(InGetOffer(s, x))
  {
    hide Received, From, Expired, InSendRequest;
    if |x.packet.bytes| >= LEAST {
      ReceivedFresh(s.c.v, s.config.mac, x.packet);
      var (s', kind) := Heeded(s.(c := s.c.(serverDetected := true)), x.packet);
      TalkKeepsOffer(To(s'.(h := s.h.(offer := x.packet)), SEND_REQUEST), x);
    }
  }

  lemma AckKeepsOffer(s: State, x: Input)
    requires s.c.timer < DWORD && s.c.smState == GET_REQUEST_ACK && OfferInStep(s)
    ensures OfferInStep(InGetRequestAck(s, x))
  {
    hide Received, From, Expired, Configured;
    if |x.packet.bytes| >= LEAST {
      ReceivedHeld(s.c.v, s.config.mac, x.packet);
    }
  }

  lemma RenewAckKeepsOffer(s: State, x: Input)
    requires s.c.timer < DWORD && Awaiting(s.c.smState)
    ensures OfferInStep(InGetRenewAck(s, x))
  {
    hide Heeded, From, Expired;
    if |x.packet.bytes| >= LEAST {
      HeededKeeps(s, x.packet);
    }
  }

  lemma TaskKeepsOffer(s: State, t: nat, x: Input)
    requires Inv(s, t) && Possible(s, t, Poll(x))
    ensures OfferInStep(Task(s, x))
  {
    hide InSendDiscovery, InSendRequest, InSendRenew, InGetOffer, InGetRequestAck, InGetRenewAck, From, Minus, SocketsInStep,
         TimeInStep;
    TimerSmall(s, t);
    TalkKeepsOffer(s, x);
    if s.c.smState == GET_SOCKET {
      TalkKeepsOffer(To(Opened(s, x.handle), SEND_DISCOVERY), x);
    } else if s.c.smState == BOUND {
      var s' := Opened(s, x.handle);
      TalkKeepsOffer(To(s'.(h := s'.h.(renewals := 0)), SEND_RENEW), x);
    } else if s.c.smState == GET_OFFER {
      OfferKeepsOffer(s, x);
    } else if s.c.smState == GET_REQUEST_ACK {
      AckKeepsOffer(s, x);
    } else if Awaiting(s.c.smState) {
      RenewAckKeepsOffer(s, x);
    }
  }

  /** Everything that can happen keeps the invariant. */
  lemma HappenKeeps(s: State, t: nat, e: Event)
    requires Inv(s, t) && Possible(s, t, e)
    ensures Inv(Happen(s, e), Later(t, e))
  {
    hide Task, SocketsInStep, TimeInStep, OfferInStep;
    match e
    case Poll(x) =>
      TaskKeepsSockets(s, t, x);
      TaskKeepsTime(s, t, x);
      TaskKeepsOffer(s, t, x);
      TaskInitialized(s, t, x);
    case _ =>
      CommandKeeps(s, t, e);
  }

  lemma TaskInitialized(s: State, t: nat, x: Input)
    requires Inv(s, t)
    ensures Task(s, x).initializedOnce
  {
    hide Received, Datagram, From, Expired, BackoffBase;
  }

  lemma CommandKeeps(s: State, t: nat, e: Event)
    requires Inv(s, t) && !e.Poll?
    ensures Inv(Happen(s, e), t)
  {
    hide From;
  }

  lemma TimerStays(s: State, e: Event)
    requires s.c.timer < DWORD
    ensures Happen(s, e).c.timer < DWORD
  {
    hide InSendDiscovery, InSendRequest, InSendRenew, InGetOffer, InGetRequestAck, InGetRenewAck, Minus;
    if e.Poll? {
      TalkTimer(s, e.x);
      AnswerTimer(s, e.x);
      if s.c.smState == GET_SOCKET {
        TalkTimer(To(Opened(s, e.x.handle), SEND_DISCOVERY), e.x);
      } else if s.c.smState == BOUND {
        var s' := Opened(s, e.x.handle);
        TalkTimer(To(s'.(h := s'.h.(renewals := 0)), SEND_RENEW), e.x);
      }
    }
  }

  lemma TalkTimer(s: State, x: Input)
    requires s.c.timer < DWORD
    ensures InSendDiscovery(s, x).c.timer < DWORD && InSendRequest(s, x).c.timer < DWORD && InSendRenew(s, x).c.timer < DWORD
  {
    hide Datagram;
  }

  lemma AnswerTimer(s: State, x: Input)
    requires s.c.timer < DWORD
    ensures InGetOffer(s, x).c.timer < DWORD && InGetRequestAck(s, x).c.timer < DWORD && InGetRenewAck(s, x).c.timer < DWORD
  {
    hide Received, Expired, InSendRequest, Configured;
    if |x.packet.bytes| >= LEAST {
      var (s', kind) := Heeded(s.(c := s.c.(serverDetected := true)), x.packet);
      TalkTimer(To(s'.(h := s.h.(offer := x.packet)), SEND_REQUEST), x);
    }
  }

  predicate Runs(s: State, t: nat, events: seq<Event>)
    requires s.c.timer < DWORD
    decreases |events|
  {
    events == [] ||
    (Possible(s, t, events[0]) && (TimerStays(s, events[0]); Runs(Happen(s, events[0]), Later(t, events[0]), events[1..])))
  }

  function Ran(s: State, t: nat, events: seq<Event>): (r: (State, nat))
    requires s.c.timer < DWORD && Runs(s, t, events)
    ensures r.0.c.timer < DWORD
    decreases |events|
  {
    if events == [] then (s, t) else TimerStays(s, events[0]); Ran(Happen(s, events[0]), Later(t, events[0]), events[1..])
  }

  lemma {:induction false} RunKeeps(s: State, t: nat, events: seq<Event>)
    requires Inv(s, t) && s.c.timer < DWORD && Runs(s, t, events)
    ensures var (s', t') := Ran(s, t, events); Inv(s', t')
    decreases |events|
  {
    hide Inv, Happen, Possible, Later;
    if events != [] {
      HappenKeeps(s, t, events[0]);
      TimerStays(s, events[0]);
      RunKeeps(Happen(s, events[0]), Later(t, events[0]), events[1..]);
    }
  }

  /** In every run from power-on: exactly one socket is held in the states that talk and none in the
      others, the backoff base is a power of two from 2 to 64, and no more than three renewals have been
      sent. */
  lemma EveryRunInStep(s: State, events: seq<Event>)
    requires PoweredOn(s) && Runs(Init(s), 0, events)
    ensures var (s', t') := Ran(Init(s), 0, events);
            && s'.sockets == (if HoldsSocket(s'.c.smState) then {s'.c.socket} else {})
            && (HoldsSocket(s'.c.smState) ==> s'.c.socket != INVALID_SOCKET)
            && BackoffBase(s'.c.baseTime)
            && (SEND_RENEW <= s'.c.smState ==> s'.h.renewals <= 3)
  {
    hide Init, Ran, Runs;
    InitEstablishes(s);
    RunKeeps(Init(s), 0, events);
  }

  // ---------------------------------------------------------------- provenance of the address

  /** The first bind: the address that is configured is that of the accepted offer, which was addressed to
      this client, and the acknowledgement comes from the server that made that offer. */
  lemma BindsOfferedAddress(s: State, t: nat, x: Input)
    requires Inv(s, t) && s.c.timer < DWORD && s.c.smState == GET_REQUEST_ACK && Task(s, x).c.smState == BOUND
    ensures var mac, server := s.config.mac, s.c.v.serverID;
            && From(s.h.offer, mac, OFFER, server) && From(x.packet, mac, ACK, server)
            && Task(s, x).config.ip == s.h.offer.bytes[16..20]
  {
    hide Received, From, Expired, SocketsInStep, TimeInStep;
    if |x.packet.bytes| >= LEAST {
      ReceivedHeld(s.c.v, s.config.mac, x.packet);
    }
  }

  ghost predicate NamesServer(p: seq<byte>) {
    Whole(p, OPTIONS) && PadsPaired(p, OPTIONS) && exists a: seq<byte> :: Says(p, OPTIONS, SERVER_ID, a)
  }

  /** On the first bind, offer and acknowledgement name the same server, if both name one. */
  lemma BindNamesOneServer(s: State, t: nat, x: Input)
    requires Inv(s, t) && s.c.timer < DWORD && s.c.smState == GET_REQUEST_ACK && Task(s, x).c.smState == BOUND
    requires NamesServer(s.h.offer.bytes) && NamesServer(x.packet.bytes)
    ensures exists a: Ip :: Says(s.h.offer.bytes, OPTIONS, SERVER_ID, a) && Says(x.packet.bytes, OPTIONS, SERVER_ID, a)
  {
    hide Task, Inv, Whole, PadsPaired, Says, AddressedTo;
    BindsOfferedAddress(s, t, x);
  }

  // ---------------------------------------------------------------- the whole run up to a bind

  predicate Requesting(sm: nat) {
    sm == SEND_REQUEST || sm == GET_REQUEST_ACK
  }

  /** The client before the k-th event of a run. */
  function StateAt(s: State, t: nat, events: seq<Event>, k: nat): State
    requires s.c.timer < DWORD && Runs(s, t, events) && k <= |events|
    decreases k
  {
    if k == 0 then s else TimerStays(s, events[0]); StateAt(Happen(s, events[0]), Later(t, events[0]), events[1..], k - 1)
  }

  lemma {:induction false} RanIsLast(s: State, t: nat, events: seq<Event>)
    requires s.c.timer < DWORD && Runs(s, t, events)
    ensures Ran(s, t, events).0 == StateAt(s, t, events, |events|)
    decreases |events|
  {
    hide Happen, Possible, Later;
    if events != [] {
      TimerStays(s, events[0]);
      RanIsLast(Happen(s, events[0]), Later(t, events[0]), events[1..]);
    }
  }

  /** The client, looking for an offer, takes this packet for one. */
  predicate TakesOffer(s: State, e: Event, offer: Packet) {
    && e.Poll? && e.x.packet == offer && s.c.smState == GET_OFFER && |offer.bytes| >= LEAST
    && Heeded(s, offer).1 == OFFER
  }

  lemma TalkOrigin(s: State, x: Input)
    ensures s.c.smState == SEND_DISCOVERY ==> !Requesting(InSendDiscovery(s, x).c.smState)
    ensures s.c.smState == SEND_REQUEST ==> InSendRequest(s, x).h.offer == s.h.offer
    ensures Sending(s.c.smState) ==> !Requesting(InSendRenew(s, x).c.smState)
  {
    hide Datagram;
  }

  lemma OfferOrigin(s: State, x: Input)
    requires s.c.timer < DWORD && s.c.smState == GET_OFFER && Requesting(InGetOffer(s, x).c.smState)
    ensures TakesOffer(s, Poll(x), InGetOffer(s, x).h.offer)
  {
    hide Received, Expired, InSendRequest;
    if |x.packet.bytes| >= LEAST {
      var (s', kind) := Heeded(s.(c := s.c.(serverDetected := true)), x.packet);
      TalkOrigin(To(s'.(h := s.h.(offer := x.packet)), SEND_REQUEST), x);
    }
  }

  lemma AnswerOrigin(s: State, x: Input)
    requires s.c.timer < DWORD
    ensures s.c.smState == GET_REQUEST_ACK ==> InGetRequestAck(s, x).h.offer == s.h.offer
    ensures Awaiting(s.c.smState) ==> !Requesting(InGetRenewAck(s, x).c.smState)
  {
    hide Received, Expired, Configured;
  }

  /** Only from an offer that it takes does the client come to request. */
  lemma RequestOrigin(s: State, e: Event)
    requires s.c.timer < DWORD && Requesting(Happen(s, e).c.smState)
    ensures (Requesting(s.c.smState) && Happen(s, e).h.offer == s.h.offer) || TakesOffer(s, e, Happen(s, e).h.offer)
  {
    hide InSendDiscovery, InSendRequest, InSendRenew, InGetOffer, InGetRequestAck, InGetRenewAck, TakesOffer, Minus;
    if e.Poll? {
      var x := e.x;
      TalkOrigin(s, x);
      AnswerOrigin(s, x);
      if s.c.smState == GET_SOCKET {
        TalkOrigin(To(Opened(s, x.handle), SEND_DISCOVERY), x);
      } else if s.c.smState == BOUND {
        var s' := Opened(s, x.handle);
        TalkOrigin(To(s'.(h := s'.h.(renewals := 0)), SEND_RENEW), x);
      } else if s.c.smState == GET_OFFER {
        OfferOrigin(s, x);
      }
    }
  }

  /** Of a run that ends in requesting: the event in which the held offer was taken, -1 if before the run. */
  lemma {:induction false} OfferTaken(s: State, t: nat, events: seq<Event>) returns (i: int)
    requires s.c.timer < DWORD && Runs(s, t, events) && Requesting(StateAt(s, t, events, |events|).c.smState)
    ensures -1 <= i < |events| && forall k: nat :: i < k <= |events| ==> Requesting(StateAt(s, t, events, k).c.smState)
    ensures var offer := StateAt(s, t, events, |events|).h.offer;
            if i < 0 then offer == s.h.offer else TakesOffer(StateAt(s, t, events, i), events[i], offer)
    decreases |events|
  {
    hide Happen, Possible, Later, TakesOffer, Requesting;
    if events == [] {
      i := -1;
    } else {
      var s', t' := Happen(s, events[0]), Later(t, events[0]);
      TimerStays(s, events[0]);
      var i' := OfferTaken(s', t', events[1..]);
      assert forall k: nat :: 0 < k <= |events| ==> StateAt(s, t, events, k) == StateAt(s', t', events[1..], k - 1);
      i := i' + 1;
      if i' < 0 {
        assert Requesting(StateAt(s', t', events[1..], 0).c.smState);
        RequestOrigin(s, events[0]);
        if Requesting(s.c.smState) && s'.h.offer == s.h.offer {
          i := -1;
        }
      }
    }
  }

  /** Over whole runs from power-on: when the client binds, the address that it configures is that of a
      packet which it took for an offer in an earlier event of the run, since when it has done nothing but
      request; and that offer and the acknowledgement come from one server. */
  lemma BindsAddressOfRun(s: State, events: seq<Event>, x: Input) returns (i: nat)
    requires PoweredOn(s) && Runs(Init(s), 0, events)
    requires var (last, t) := Ran(Init(s), 0, events);
             last.c.smState == GET_REQUEST_ACK && Task(last, x).c.smState == BOUND
    ensures i < |events| && events[i].Poll? && TakesOffer(StateAt(Init(s), 0, events, i), events[i], events[i].x.packet)
    ensures forall k: nat :: i < k <= |events| ==> Requesting(StateAt(Init(s), 0, events, k).c.smState)
    ensures var last := Ran(Init(s), 0, events).0;
            var offer, mac, server := events[i].x.packet, last.config.mac, last.c.v.serverID;
            && From(offer, mac, OFFER, server) && From(x.packet, mac, ACK, server)
            && Task(last, x).config.ip == offer.bytes[16..20]
  {
    hide Task, Ran, Runs, From, Heeded, Inv, Happen;
    var start := Init(s);
    InitEstablishes(s);
    RunKeeps(start, 0, events);
    RanIsLast(start, 0, events);
    var (last, t) := Ran(start, 0, events);
    var at := OfferTaken(start, 0, events);
    BindsOfferedAddress(last, t, x);
    assert StateAt(start, 0, events, 0) == start && !Requesting(start.c.smState);
    i := at;
  }

  // ---------------------------------------------------------------- provenance during renewals

  /** The packet that a renewing client holds for an offer: its reader's first variables. */
  function Fresh(v: Vars, p: Packet): Seen
    requires |p.bytes| >= LEAST
  {
    Seen(v.(tempIP := p.bytes[16..20], validIP := true), UNKNOWN, p.stale, p.j)
  }

  lemma RenewalHeeds(s: State, x: Input)
    requires s.c.timer < DWORD && Awaiting(s.c.smState)
    ensures var p := x.packet;
            if |p.bytes| < LEAST then Task(s, x).c.v == s.c.v
            else var (v, kind) := Received(s.c.v, s.config.mac, p.bytes, p.stale, p.j);
                 Task(s, x).c.v == v && (kind != ACK && kind != NAK ==> Task(s, x).c.smState == s.c.smState)
  {
    hide Received, Expired;
  }

  /** While a renewal waits, the address stays exactly if an offer is held or the packet is none that is
      long enough, a reply, for this client, and with another address. Its server plays no role. */
  lemma RenewalKeepsAddress(s: State, x: Input)
    requires s.c.timer < DWORD && Awaiting(s.c.smState)
    ensures var p := x.packet.bytes;
            Task(s, x).c.v.tempIP == s.c.v.tempIP <==>
              s.c.v.offerReceived || |p| < LEAST || p[0] != BOOT_REPLY || !AddressedTo(p, s.config.mac) || p[16..20] == s.c.v.tempIP
  {
    hide Options, AddressedTo, Task;
    RenewalHeeds(s, x);
    if |x.packet.bytes| >= LEAST {
      OptionsFresh(Fresh(s.c.v, x.packet), x.packet.bytes, OPTIONS);
      if s.c.v.offerReceived {
        ReceivedHeld(s.c.v, s.config.mac, x.packet);
      }
    }
  }

  /** And the server stays exactly if an offer is held or the packet is none that is long enough, a reply,
      for this client, and heard as an offer of another server. */
  lemma RenewalKeepsServer(s: State, x: Input)
    requires s.c.timer < DWORD && Awaiting(s.c.smState)
    ensures var p := x.packet.bytes;
            Task(s, x).c.v.serverID == s.c.v.serverID <==>
              s.c.v.offerReceived || |p| < LEAST || p[0] != BOOT_REPLY || !AddressedTo(p, s.config.mac)
              || var h := Options(Fresh(s.c.v, x.packet), p, OPTIONS); !h.Heard? || h.kind != OFFER || h.server == s.c.v.serverID
  {
    hide Options, AddressedTo, Task;
    RenewalHeeds(s, x);
    if |x.packet.bytes| >= LEAST {
      OptionsFresh(Fresh(s.c.v, x.packet), x.packet.bytes, OPTIONS);
      if s.c.v.offerReceived {
        ReceivedHeld(s.c.v, s.config.mac, x.packet);
      }
    }
  }

  /** In terms of what a whole message with paired pads says: the server stays exactly if an offer is held or
      the message is not long enough, no reply, not for this client, has an option of a wrong length, does
      not say last that it is an offer, or names the same server last. */
  lemma RenewalKeepsServerSaid(s: State, x: Input)
    requires s.c.timer < DWORD && Awaiting(s.c.smState) && Whole(x.packet.bytes, OPTIONS) && PadsPaired(x.packet.bytes, OPTIONS)
    ensures var p := x.packet.bytes;
            var named := LastSaid(p, OPTIONS, SERVER_ID);
            Task(s, x).c.v.serverID == s.c.v.serverID <==>
              s.c.v.offerReceived || |p| < LEAST || p[0] != BOOT_REPLY || !AddressedTo(p, s.config.mac)
              || !LengthsRight(p, OPTIONS) || LastSaid(p, OPTIONS, MESSAGE_TYPE) != Said([OFFER])
              || (if named.Said? then named.value else x.packet.stale) == s.c.v.serverID
  {
    hide Options, AddressedTo, Task, LastSaid, LengthsRight, Meant, Whole, PadsPaired;
    RenewalKeepsServer(s, x);
    var p := x.packet.bytes;
    if |p| >= LEAST && !s.c.v.offerReceived {
      var t := Fresh(s.c.v, x.packet);
      ReadAsMeant(t, t.j, p, OPTIONS);
      assert t.(j := t.j) == t;
      MeantIsLast(t, p, OPTIONS);
      assert forall k: byte :: Said([k]) == Said([OFFER]) ==> [k][0] == [OFFER][0];
    }
  }

  /** Also an offer that is cut off after the code of its router option can take the server. */
  lemma CutOffOfferTakesServer(s: State, x: Input)
    requires s.c.timer < DWORD && Awaiting(s.c.smState) && !s.c.v.offerReceived
    requires x.packet.bytes == CutOffOffer(s.config.mac) && s.c.v.serverID != [10, 0, 0, 1]
    ensures Task(s, x).c.smState == s.c.smState && Task(s, x).c.v.serverID == [10, 0, 0, 1]
  {
    hide Reply, Options, Task, Whole;
    RenewalHeeds(s, x);
    CutOffOfferHeard(Fresh(s.c.v, x.packet), s.config.mac);
  }

  /** An acknowledgement of the server 10.0.0.1, and an offer of it, both of the address 10.0.0.9. */
  function Stray(mac: Mac, kind: byte): seq<byte> {
    Reply(mac, [MESSAGE_TYPE, 1, kind, SERVER_ID, 4, 10, 0, 0, 1, END_OPTION])
  }

  /** A client that renews another address with another server gives up the address for either, and the
      server for the offer, although it goes on waiting and hears the acknowledgement as unknown. */
  lemma StrayReplyTakesOver(s: State, x: Input, kind: byte)
    requires s.c.timer < DWORD && Awaiting(s.c.smState) && !s.c.v.offerReceived
    requires kind == ACK || kind == OFFER
    requires x.packet.bytes == Stray(s.config.mac, kind)
    requires s.c.v.tempIP != [10, 0, 0, 9] && s.c.v.serverID != [10, 0, 0, 1]
    ensures var s' := Task(s, x);
            && s'.c.smState == s.c.smState && s'.c.v.tempIP == [10, 0, 0, 9]
            && s'.c.v.serverID == (if kind == OFFER then [10, 0, 0, 1] else s.c.v.serverID)
  {
    hide Reply, Options, Task;
    RenewalHeeds(s, x);
    TypeServerBytes(x.packet.bytes, OPTIONS, kind);
    TypeAndServerHeard(Fresh(s.c.v, x.packet), x.packet.bytes, OPTIONS, kind);
  }

  /** The request that follows an offer names its address and its server. */
  lemma RequestNamesOffer(c: Client, mac: Mac)
    ensures var d := Datagram(c, mac, REQUEST, false);
            && |d| == 300 && Whole(d, OPTIONS) && PadsPaired(d, OPTIONS) && Says(d, OPTIONS, MESSAGE_TYPE, [REQUEST])
            && Says(d, OPTIONS, SERVER_ID, c.v.serverID) && Says(d, OPTIONS, REQUESTED_IP, c.v.tempIP)
            && d[12..16] == [0, 0, 0, 0] && d[28..34] == mac
  {
    hide Header, Datagram, Zeros, RequestOptions;
    var d, h := Datagram(c, mac, REQUEST, false), Header(c, mac, [0, 0, 0, 0]);
    HeaderParts(c, mac, [0, 0, 0, 0]);
    RequestParts(c, mac);
    assert d[12..16] == h[12..16] && d[28..34] == h[28..34];
    var options := RequestOptions(c.v.serverID, c.v.tempIP);
    RequestOptionBytes(c.v.serverID, c.v.tempIP);
    assert d[240] == options[0] && d[241] == options[1] && d[243] == options[3] && d[244] == options[4];
    assert d[249] == options[9] && d[250] == options[10] && d[255] == options[15] && d[256] == options[16] && d[261] == options[21];
    assert d[242..243] == options[2..3] && d[245..249] == options[5..9] && d[257..261] == options[17..21];
    OptionsOfRequest(d, c.v.serverID, c.v.tempIP);
  }

  function RequestOptions(server: Ip, ip: Ip): (r: seq<byte>)
    ensures |r| == 22
  {
    [MESSAGE_TYPE, 1, REQUEST] + ([SERVER_ID, 4] + server) + [55, 4, SUBNET_MASK, ROUTER, 6, 12] + ([REQUESTED_IP, 4] + ip) + [END_OPTION]
  }

  lemma RequestOptionBytes(server: Ip, ip: Ip)
    ensures var o := RequestOptions(server, ip);
            && o[0] == MESSAGE_TYPE && o[1] == 1 && o[2..3] == [REQUEST] && o[3] == SERVER_ID && o[4] == 4 && o[5..9] == server
            && o[9] == 55 && o[10] == 4 && o[15] == REQUESTED_IP && o[16] == 4 && o[17..21] == ip && o[21] == END_OPTION
  {
    var o := RequestOptions(server, ip);
    assert o == [MESSAGE_TYPE, 1, REQUEST, SERVER_ID, 4, server[0], server[1], server[2], server[3],
                 55, 4, SUBNET_MASK, ROUTER, 6, 12, REQUESTED_IP, 4, ip[0], ip[1], ip[2], ip[3], END_OPTION];
    hide RequestOptions;
    assert o[5..9] == server && o[17..21] == ip;
  }

  lemma HeaderParts(c: Client, mac: Mac, ciaddr: Ip)
    ensures Header(c, mac, ciaddr)[12..16] == ciaddr && Header(c, mac, ciaddr)[28..34] == mac
  {
  }

  lemma RequestParts(c: Client, mac: Mac)
    ensures Datagram(c, mac, REQUEST, false)
         == Header(c, mac, [0, 0, 0, 0]) + RequestOptions(c.v.serverID, c.v.tempIP) + Zeros(38)
  {
    hide Header;
  }

  lemma OptionsOfRequest(d: seq<byte>, server: Ip, ip: Ip)
    requires |d| == 300 && d[240] == MESSAGE_TYPE && d[241] == 1 && d[242..243] == [REQUEST]
    requires d[243] == SERVER_ID && d[244] == 4 && d[245..249] == server
    requires d[249] == 55 && d[250] == 4 && d[255] == REQUESTED_IP && d[256] == 4 && d[257..261] == ip && d[261] == END_OPTION
    ensures Whole(d, 240) && PadsPaired(d, 240) && Says(d, 240, MESSAGE_TYPE, [REQUEST]) && Says(d, 240, SERVER_ID, server) && Says(d, 240, REQUESTED_IP, ip)
  {
    assert NextOption(d, 255) == 261 && NextOption(d, 249) == 255 && NextOption(d, 243) == 249 && NextOption(d, 240) == 243;
    hide NextOption;
    assert Whole(d, 261) && PadsPaired(d, 261);
    assert Whole(d, 255) && PadsPaired(d, 255);
    assert Whole(d, 249) && PadsPaired(d, 249);
    assert Whole(d, 243) && PadsPaired(d, 243);
    assert Says(d, 255, REQUESTED_IP, ip) && Says(d, 249, REQUESTED_IP, ip) && Says(d, 243, REQUESTED_IP, ip);
    assert Says(d, 243, SERVER_ID, server);
  }

  // ---------------------------------------------------------------- deadlines and the lease

  /** The signed 32-bit test sees a past deadline as past for 2^31 ticks, then as future for as long. */
  lemma ExpiredAfter(now: nat, due: nat)
    requires due <= now
    ensures Expired(now, due % DWORD) <==> 0 < (now - due) % DWORD < DWORD / 2
  {
    hide Minus, Ticks;
    MinusIsDifference(now, due);
  }

  lemma ExpiredBefore(now: nat, due: nat)
    requires now < due < now + DWORD / 2
    ensures !Expired(now, due % DWORD)
  {
    var q, r := due / DWORD, due % DWORD;
    var k, m := now / DWORD, now % DWORD;
    assert due == DWORD * q + r && now == DWORD * k + m;
    if m >= r {
      assert q == k + 1;
      DwordIs(m + DWORD - r, 1, m - r);
    } else {
      assert q == k;
      DwordIs(m + DWORD - r, 0, m + DWORD - r);
    }
  }

  /** In every reachable waiting state the test is right, if the task is called within 2^31 ticks of the
      deadline: deadlines are at most 65 seconds ahead. */
  lemma DeadlineTest(s: State, t: nat, x: Input)
    requires Inv(s, t) && Possible(s, t, Poll(x)) && s.c.timer < DWORD
    requires s.c.smState == GET_OFFER || s.c.smState == GET_REQUEST_ACK || Awaiting(s.c.smState)
    ensures x.now < s.h.due + DWORD / 2 ==> (Expired(x.now, s.c.timer) <==> x.now > s.h.due)
    ensures x.now >= s.h.due ==> (Expired(x.now, s.c.timer) <==> 0 < (x.now - s.h.due) % DWORD < DWORD / 2)
  {
    hide Expired, SocketsInStep, OfferInStep;
    if x.now >= s.h.due {
      ExpiredAfter(x.now, s.h.due);
    } else {
      ExpiredBefore(x.now, s.h.due);
    }
  }

  /** While bound, a second of lease is taken off only when a second of true time has passed since the
      last one, and then always, if the task is called at least once per wrap-around of the counter. */
  lemma LeaseCountsTrueSeconds(s: State, t: nat, x: Input)
    requires Inv(s, t) && Possible(s, t, Poll(x)) && s.c.smState == BOUND && s.c.timer < DWORD
    requires s.c.v.leaseTime > s.c.baseTime * 3
    ensures var s' := Task(s, x);
            && s'.c.smState == BOUND && s'.h.due <= x.now
            && s'.h.due - s.h.due == (s.c.v.leaseTime - s'.c.v.leaseTime) * TICK_SECOND
            && s'.h.due + s'.c.v.leaseTime * TICK_SECOND == s.h.boundAt + s.h.granted * TICK_SECOND
            && (s'.c.v.leaseTime < s.c.v.leaseTime ==> s.h.due + TICK_SECOND <= x.now)
            && (x.now < s.h.due + DWORD ==> (s'.c.v.leaseTime < s.c.v.leaseTime <==> s.h.due + TICK_SECOND <= x.now))
  {
    hide SocketsInStep, OfferInStep;
    TicksApart(x.now, s.h.due);
    hide Minus, Ticks;
  }

  // ---------------------------------------------------------------- the client as the program has it

  class DhcpClient {
    var c: Client
    var config: Config
    var initializedOnce: bool
    var sent: seq<seq<byte>>
    ghost var sockets: set<nat>
    ghost var h: History

    constructor (c: Client, config: Config)
      ensures this.c == c && this.config == config && !initializedOnce && sent == [] && sockets == {}
    {
      this.c, this.config, initializedOnce, sent, sockets := c, config, false, [], {};
    }

    ghost function Current(): State
      reads this
    {
      State(c, config, initializedOnce, sockets, sent, h)
    }

    method UdpOpen(handle: nat)
      modifies this
      ensures Current() == Opened(old(Current()), handle)
    {
      c := c.(socket := handle);
      if handle != INVALID_SOCKET {
        sockets := sockets + {handle};
      }
    }

    method UdpClose()
      modifies this
      ensures Current() == Closed(old(Current()))
    {
      sockets := sockets - {c.socket};
      c := c.(socket := INVALID_SOCKET);
    }

    method DHCPInit()
      modifies this
      ensures Current() == Init(old(Current()))
    {
      if !initializedOnce {
        initializedOnce := true;
        c := c.(socket := INVALID_SOCKET);
      }
      if c.socket != INVALID_SOCKET {
        UdpClose();
      }
      c := c.(baseTime := BASE_TIMEOUT, smState := GET_SOCKET);
      c := c.(isBound := false, serverDetected := false, v := c.v.(offerReceived := false));
      c := c.(unicast := true, event := true);
    }

    method DHCPDisable()
      modifies this
      ensures Current() == Disable(old(Current()))
    {
      if c.socket != INVALID_SOCKET {
        UdpClose();
      }
      c := c.(smState := DISABLED);
    }

    method DHCPEnable()
      modifies this
      ensures Current() == Enable(old(Current()))
    {
      if c.smState == DISABLED {
        c := c.(baseTime := BASE_TIMEOUT, smState := GET_SOCKET, isBound := false);
      }
    }

    method DHCPSend(kind: byte, renewing: bool)
      modifies this`sent
      ensures Current() == Sent(old(Current()), kind, renewing)
    {
      sent := sent + [Datagram(c, config.mac, kind, renewing)];
    }

    method StartTimer(tick: nat, rand: nat)
      modifies this`c, this`h
      ensures Current() == Armed(old(Current()), tick, rand)
    {
      h := h.(due := tick + c.baseTime * TICK_SECOND + rand % TICK_SECOND);
      c := c.(timer := (tick % DWORD + (c.baseTime * TICK_SECOND + rand % TICK_SECOND)) % DWORD);
    }

    method DHCPReceive(p: Packet) returns (kind: byte)
      requires |p.bytes| >= LEAST
      modifies this`c
      ensures (Current(), kind) == Heeded(old(Current()), p)
    {
      hide Received;
      var reader := new Reader(p.bytes, c.v);
      kind := reader.Receive(config.mac, p.stale, p.j);
      c := c.(v := reader.vars);
    }

    method DHCPTask(x: Input)
      requires c.timer < DWORD
      modifies this
      ensures Current() == Task(old(Current()), x)
    {
      hide InSendDiscovery, InGetOffer, InSendRequest, InGetRequestAck, InSendRenew, InGetRenewAck, Minus;
      var sm := c.smState;
      if sm == GET_SOCKET {
        UdpOpen(x.handle);
        if c.socket == INVALID_SOCKET {
          return;
        }
        c := c.(smState := SEND_DISCOVERY);
        SendDiscovery(x);
      } else if sm == SEND_DISCOVERY {
        SendDiscovery(x);
      } else if sm == GET_OFFER {
        GetOffer(x);
      } else if sm == SEND_REQUEST {
        SendRequest(x);
      } else if sm == GET_REQUEST_ACK {
        GetRequestAck(x);
      } else if sm == BOUND {
        if Minus(Ticks(x.now), c.timer) < TICK_SECOND {
          return;
        }
        if c.v.leaseTime > c.baseTime * 3 {
          c := c.(timer := (c.timer + TICK_SECOND) % DWORD);
          h := h.(due := h.due + TICK_SECOND);
          c := c.(v := c.v.(leaseTime := c.v.leaseTime - 1));
          return;
        }
        UdpOpen(x.handle);
        if c.socket == INVALID_SOCKET {
          return;
        }
        h := h.(renewals := 0);
        c := c.(smState := SEND_RENEW);
        SendRenew(x);
      } else if Sending(sm) {
        SendRenew(x);
      } else if Awaiting(sm) {
        GetRenewAck(x);
      }
    }

    method SendDiscovery(x: Input)
      modifies this
      ensures Current() == InSendDiscovery(old(Current()), x)
    {
      hide Datagram, Armed;
      c := c.(v := c.v.(leaseTime := 60));
      c := c.(v := c.v.(validIP := false, validMask := false, validGateway := false));
      c := c.(isBound := false, v := c.v.(offerReceived := false));
      if !x.linked {
        return;
      }
      if x.putReady < 300 {
        return;
      }
      c := c.(unicast := !c.unicast);
      DHCPSend(DISCOVER, false);
      StartTimer(x.later, x.rand);
      c := c.(smState := GET_OFFER);
    }

    method BackOff()
      modifies this`c
      ensures Current() == BackedOff(old(Current()))
    {
      if c.baseTime < 64 {
        c := c.(baseTime := 2 * c.baseTime);
      }
      c := c.(smState := SEND_DISCOVERY);
    }

    method GetOffer(x: Input)
      requires c.timer < DWORD
      modifies this
      ensures Current() == InGetOffer(old(Current()), x)
    {
      hide Received, Expired, InSendRequest;
      if |x.packet.bytes| < LEAST {
        if Expired(x.now, c.timer) {
          BackOff();
        }
        return;
      }
      c := c.(serverDetected := true);
      var kind := DHCPReceive(x.packet);
      if kind != OFFER {
        return;
      }
      h := h.(offer := x.packet);
      c := c.(smState := SEND_REQUEST);
      SendRequest(x);
    }

    method SendRequest(x: Input)
      modifies this
      ensures Current() == InSendRequest(old(Current()), x)
    {
      hide Datagram, Armed;
      if x.putReady < 258 {
        return;
      }
      DHCPSend(REQUEST, false);
      StartTimer(x.later, x.rand);
      c := c.(smState := GET_REQUEST_ACK);
    }

    /** What the two answers to an acknowledgement have in common. */
    method EnterBound(now: nat)
      modifies this
      ensures Current() == Bind(old(Current()), now)
    {
      UdpClose();
      c := c.(timer := Ticks(now), smState := BOUND, event := true);
      h := h.(due := now, boundAt := now, granted := c.v.leaseTime);
    }

    method GetRequestAck(x: Input)
      requires c.timer < DWORD
      modifies this
      ensures Current() == InGetRequestAck(old(Current()), x)
    {
      hide Received, Expired, Bind;
      if |x.packet.bytes| < LEAST {
        if Expired(x.now, c.timer) {
          BackOff();
        }
        return;
      }
      var kind := DHCPReceive(x.packet);
      if kind == ACK {
        EnterBound(x.now);
        c := c.(isBound := true);
        if c.v.validIP {
          config := config.(ip := c.v.tempIP);
        }
        if c.v.validMask {
          config := config.(mask := c.v.tempMask);
        }
        if c.v.validGateway {
          config := config.(gateway := c.v.tempGateway);
        }
      } else if kind == NAK {
        c := c.(smState := SEND_DISCOVERY);
      }
    }

    method SendRenew(x: Input)
      modifies this
      ensures Current() == InSendRenew(old(Current()), x)
    {
      hide Datagram;
      if x.putReady < 258 {
        return;
      }
      DHCPSend(REQUEST, true);
      c := c.(v := c.v.(offerReceived := false));
      h := h.(renewals := h.renewals + 1);
      StartTimer(x.later, x.rand);
      c := c.(smState := c.smState + 1);
    }

    method GetRenewAck(x: Input)
      requires c.timer < DWORD
      modifies this
      ensures Current() == InGetRenewAck(old(Current()), x)
    {
      hide Received, Expired, Bind;
      if |x.packet.bytes| < LEAST {
        if Expired(x.now, c.timer) {
          c := c.(smState := c.smState + 1);
          if c.smState > GET_RENEW_ACK3 {
            c := c.(smState := SEND_DISCOVERY);
          }
        }
        return;
      }
      var kind := DHCPReceive(x.packet);
      if kind == ACK {
        EnterBound(x.now);
      } else if kind == NAK {
        c := c.(smState := SEND_DISCOVERY);
      }
    }
  }
}
