/** What the answers of the servers, and their absence, do to the DHCP client. */
module DhcpAnswer {
  import opened Crc16
  import opened DhcpMessage
  import opened Dhcp

  /** The message is a reply to this client, has options of right lengths, does not offer again while an offer
      is held, and says last that it is of this kind. */
  ghost predicate Means(p: Packet, v: Vars, mac: Mac, kind: byte) {
    && |p.bytes| >= LEAST && p.bytes[0] == BOOT_REPLY && AddressedTo(p.bytes, mac)
    && LengthsRight(p.bytes, OPTIONS) && LastSaid(p.bytes, OPTIONS, 53) == Said([kind])
    && (v.offerReceived ==> !Says(p.bytes, OPTIONS, MESSAGE_TYPE, [OFFER]))
  }

  /** The server that the message names last; one that names none counts for what the reader's variable held. */
  ghost function ServerOf(p: Packet): seq<byte> {
    match LastSaid(p.bytes, OPTIONS, 54)
    case Said(server) => server
    case Unsaid => p.stale
  }

  /** How a whole message with paired pads counts: as an offer, whoever it comes from, or as another kind if it
      comes from the server that is known. Types 2, 5 and 6 are those of section 9.6 of RFC 2132. */
  lemma MessageCounts(v: Vars, mac: Mac, p: Packet)
    requires |p.bytes| >= LEAST && Whole(p.bytes, OPTIONS) && PadsPaired(p.bytes, OPTIONS)
    ensures var kind := Received(v, mac, p.bytes, p.stale, p.j).1;
            && (kind == OFFER <==> Means(p, v, mac, 2))
            && (kind == ACK <==> Means(p, v, mac, 5) && ServerOf(p) == v.serverID)
            && (kind == NAK <==> Means(p, v, mac, 6) && ServerOf(p) == v.serverID)
  {
    hide Options, AddressedTo, Whole, PadsPaired, Meant, LastSaid, LengthsRight, Says;
    if p.bytes[0] == BOOT_REPLY && AddressedTo(p.bytes, mac) {
      var s := Seen(if v.offerReceived then v else v.(tempIP := p.bytes[16..20], validIP := true), UNKNOWN, p.stale, p.j);
      ReadAsMeant(s, s.j, p.bytes, OPTIONS);
      assert s.(j := s.j) == s;
      MeantIsLast(s, p.bytes, OPTIONS);
      OptionsFresh(s, p.bytes, OPTIONS);
      var h := Meant(s, p.bytes, OPTIONS);
      if h.Heard? {
        SaidByte(h.kind, OFFER);
        SaidByte(h.kind, ACK);
        SaidByte(h.kind, NAK);
      }
    }
  }

  lemma SaidByte(a: byte, b: byte)
    ensures Said([a]) == Said([b]) <==> a == b
  {
    assert [a][0] == a && [b][0] == b;
  }

  /** While the client waits for an answer to a request or a renewal, a whole message with paired pads binds it,
      or sends it back to discovery, exactly if it is an acknowledgement, or a refusal, of its server. */
  lemma AnswerDecides(s: State, x: Input)
    requires s.c.timer < DWORD && (s.c.smState == GET_REQUEST_ACK || Awaiting(s.c.smState))
    requires |x.packet.bytes| >= LEAST && Whole(x.packet.bytes, OPTIONS) && PadsPaired(x.packet.bytes, OPTIONS)
    ensures var known := ServerOf(x.packet) == s.c.v.serverID;
            Task(s, x).c.smState
              == if known && Means(x.packet, s.c.v, s.config.mac, ACK) then BOUND
                 else if known && Means(x.packet, s.c.v, s.config.mac, NAK) then SEND_DISCOVERY
                 else s.c.smState
  {
    hide Received, Means, ServerOf, Expired, Whole, PadsPaired, Configured;
    MessageCounts(s.c.v, s.config.mac, x.packet);
  }

  /** While it looks for an offer, it goes on to request exactly if the message is an offer to it. */
  lemma OfferDecides(s: State, x: Input)
    requires s.c.timer < DWORD && s.c.smState == GET_OFFER
    requires |x.packet.bytes| >= LEAST && Whole(x.packet.bytes, OPTIONS) && PadsPaired(x.packet.bytes, OPTIONS)
    ensures Means(x.packet, s.c.v, s.config.mac, OFFER) <==> Requesting(Task(s, x).c.smState)
    ensures Task(s, x).c.smState == GET_OFFER || Requesting(Task(s, x).c.smState)
  {
    hide Received, Means, Expired, Whole, PadsPaired, Datagram;
    MessageCounts(s.c.v, s.config.mac, x.packet);
  }

  /** Without an answer nothing changes before the deadline. After it, discovery and request start over with the
      base time doubled, up to 64 seconds; a renewal is sent again, three times in all, before discovery. */
  lemma TimeoutDecides(s: State, x: Input)
    requires s.c.timer < DWORD && (s.c.smState == GET_OFFER || s.c.smState == GET_REQUEST_ACK || Awaiting(s.c.smState))
    requires |x.packet.bytes| < LEAST && BackoffBase(s.c.baseTime)
    ensures !Expired(x.now, s.c.timer) ==> Task(s, x) == s
    ensures Expired(x.now, s.c.timer) ==>
              Task(s, x) == s.(c := s.c.(smState := Task(s, x).c.smState, baseTime := Task(s, x).c.baseTime))
    ensures Expired(x.now, s.c.timer) && !Awaiting(s.c.smState) ==>
              Task(s, x).c.smState == SEND_DISCOVERY && Task(s, x).c.baseTime == if s.c.baseTime == 64 then 64 else 2 * s.c.baseTime
    ensures Expired(x.now, s.c.timer) && Awaiting(s.c.smState) ==>
              && Task(s, x).c.baseTime == s.c.baseTime
              && Task(s, x).c.smState == (if s.c.smState == GET_RENEW_ACK then SEND_RENEW2
                                          else if s.c.smState == GET_RENEW_ACK2 then SEND_RENEW3 else SEND_DISCOVERY)
  {
    hide Expired, Received;
  }

  /** A bound client begins to renew, given a socket, when a second has passed and at most three times the base
      time is left of the lease, and not before. */
  lemma RenewsInTime(s: State, t: nat, x: Input)
    requires Inv(s, t) && Possible(s, t, Poll(x)) && s.c.smState == BOUND && s.c.timer < DWORD && x.now < s.h.due + DWORD
    ensures Task(s, x).c.smState != BOUND <==>
              x.handle != INVALID_SOCKET && s.h.due + TICK_SECOND <= x.now && s.c.v.leaseTime <= 3 * s.c.baseTime
    ensures Task(s, x).c.smState in {BOUND, SEND_RENEW, GET_RENEW_ACK} && Task(s, x).config == s.config
  {
    hide SocketsInStep, OfferInStep, Datagram;
    TicksApart(x.now, s.h.due);
    hide Minus, Ticks;
  }

  /** A renewal never changes the configuration. */
  lemma RenewalKeepsConfig(s: State, x: Input)
    requires s.c.timer < DWORD && (Sending(s.c.smState) || Awaiting(s.c.smState))
    ensures Task(s, x).config == s.config
  {
    hide Received, Expired, Datagram;
  }

  /** The flags for the rest of the program: bound from the answer to a request up to the next discovery; an event
      with every bind; a server seen with every message that comes while an offer is looked for. */
  lemma FlagsDecide(s: State, x: Input)
    requires s.c.timer < DWORD && s.c.smState <= GET_RENEW_ACK3
    ensures var s' := Task(s, x);
            var bound := s.c.smState != BOUND && s'.c.smState == BOUND;
            var discovering := s.c.smState == SEND_DISCOVERY || (s.c.smState == GET_SOCKET && x.handle != INVALID_SOCKET);
            && s'.c.isBound == (if bound && s.c.smState == GET_REQUEST_ACK then true else if discovering then false else s.c.isBound)
            && s'.c.event == (s.c.event || bound)
            && s'.c.serverDetected == (s.c.serverDetected || (s.c.smState == GET_OFFER && |x.packet.bytes| >= LEAST))
  {
    hide InSendDiscovery, InSendRequest, InSendRenew, InGetOffer, InGetRequestAck, InGetRenewAck, Minus;
    TalkFlags(s, x);
    if s.c.smState == GET_OFFER {
      OfferFlags(s, x);
    } else if s.c.smState == GET_REQUEST_ACK {
      AckFlags(s, x);
    } else if Awaiting(s.c.smState) {
      RenewAckFlags(s, x);
    }
    if s.c.smState == GET_SOCKET {
      TalkFlags(To(Opened(s, x.handle), SEND_DISCOVERY), x);
    } else if s.c.smState == BOUND {
      var s' := Opened(s, x.handle);
      TalkFlags(To(s'.(h := s'.h.(renewals := 0)), SEND_RENEW), x);
    }
  }

  ghost predicate SameFlags(s: State, s': State) {
    s'.c.isBound == s.c.isBound && s'.c.event == s.c.event && s'.c.serverDetected == s.c.serverDetected && s'.c.smState != BOUND
  }

  lemma TalkFlags(s: State, x: Input)
    ensures s.c.smState == SEND_DISCOVERY ==> SameFlags(s.(c := s.c.(isBound := false)), InSendDiscovery(s, x))
    ensures s.c.smState == SEND_REQUEST ==> SameFlags(s, InSendRequest(s, x))
    ensures Sending(s.c.smState) ==> SameFlags(s, InSendRenew(s, x))
  {
    hide Datagram;
  }

  lemma OfferFlags(s: State, x: Input)
    requires s.c.timer < DWORD && s.c.smState == GET_OFFER
    ensures SameFlags(s.(c := s.c.(serverDetected := s.c.serverDetected || |x.packet.bytes| >= LEAST)), InGetOffer(s, x))
  {
    hide Heeded, Expired, InSendRequest;
    if |x.packet.bytes| >= LEAST {
      var asked := s.(c := s.c.(serverDetected := true));
      HeededKeeps(asked, x.packet);
      TalkFlags(To(Heeded(asked, x.packet).0.(h := s.h.(offer := x.packet)), SEND_REQUEST), x);
    }
  }

  lemma AckFlags(s: State, x: Input)
    requires s.c.timer < DWORD && s.c.smState == GET_REQUEST_ACK
    ensures var s' := InGetRequestAck(s, x);
            if s'.c.smState == BOUND then s'.c.isBound && s'.c.event && s'.c.serverDetected == s.c.serverDetected else SameFlags(s, s')
  {
    hide Heeded, Expired, Configured;
    if |x.packet.bytes| >= LEAST {
      HeededKeeps(s, x.packet);
    }
  }

  lemma RenewAckFlags(s: State, x: Input)
    requires s.c.timer < DWORD && Awaiting(s.c.smState)
    ensures var s' := InGetRenewAck(s, x);
            if s'.c.smState == BOUND then s'.c.isBound == s.c.isBound && s'.c.event && s'.c.serverDetected == s.c.serverDetected
            else SameFlags(s, s')
  {
    hide Heeded, Expired;
    if |x.packet.bytes| >= LEAST {
      HeededKeeps(s, x.packet);
    }
  }

  // ---------------------------------------------------------------- when it sends, and what starts and stops it

  /** The answer is waited for from the base time up to a second more, from when the message was sent. */
  ghost predicate Deadline(s: State, x: Input) {
    && x.later + s.c.baseTime * TICK_SECOND <= s.h.due < x.later + (s.c.baseTime + 1) * TICK_SECOND
    && s.c.timer == s.h.due % DWORD
  }

  /** A discovery goes out exactly if there is a link and room for 300 bytes, a request or a renewal exactly if
      there is room for 258; otherwise the client stays where it is. */
  lemma SendingDecides(s: State, x: Input)
    requires s.c.timer < DWORD && (s.c.smState in {SEND_DISCOVERY, SEND_REQUEST} || Sending(s.c.smState))
    ensures var s' := Task(s, x);
            if (if s.c.smState == SEND_DISCOVERY then x.linked && x.putReady >= 300 else x.putReady >= 258)
            then s'.c.smState == s.c.smState + 1 && Deadline(s', x) && s'.c.baseTime == s.c.baseTime
            else s'.c.smState == s.c.smState && s'.c.timer == s.c.timer
  {
    hide Datagram;
  }

  /** A client without a socket goes on to discovery exactly if it gets one. */
  lemma SocketDecides(s: State, x: Input)
    requires s.c.timer < DWORD && s.c.smState == GET_SOCKET
    ensures var s' := Task(s, x);
            if x.handle == INVALID_SOCKET then s'.c.smState == GET_SOCKET && s'.sockets == s.sockets
            else s'.c.smState in {SEND_DISCOVERY, GET_OFFER} && s'.c.socket == x.handle && s'.sockets == s.sockets + {x.handle}
  {
    hide Datagram;
  }

  /** A disabled client does nothing until it is enabled, and then looks for a socket with the shortest base time;
      enabling any other client changes nothing. Disabling gives up its socket. */
  lemma OperatorDecides(s: State, t: nat, x: Input)
    requires Inv(s, t) && s.c.timer < DWORD
    ensures s.c.smState == DISABLED ==> Task(s, x) == s
    ensures Enable(s) == if s.c.smState == DISABLED
                         then s.(c := s.c.(smState := GET_SOCKET, baseTime := 2, isBound := false)) else s
    ensures Disable(s).c.smState == DISABLED && Disable(s).sockets == {} && Disable(s).c.socket == INVALID_SOCKET
    ensures Init(s).c.smState == GET_SOCKET && Init(s).sockets == {} && Init(s).c.baseTime == 2 && !Init(s).c.isBound
  {
    hide TimeInStep, OfferInStep;
  }
}
