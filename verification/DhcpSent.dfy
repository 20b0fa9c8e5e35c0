/** What the DHCP client sends, and when. */
module DhcpSent {
  import opened Crc16
  import opened DhcpMessage
  import opened Dhcp

  // ---------------------------------------------------------------- a list of options, written and read

  datatype Opt = Opt(code: byte, len: byte, value: seq<byte>)

  predicate GoodOpts(opts: seq<Opt>) {
    forall k :: 0 <= k < |opts| ==> opts[k].code != PAD && opts[k].code != END_OPTION && opts[k].len as nat == |opts[k].value|
  }

  function Encoded(opts: seq<Opt>): seq<byte> {
    if opts == [] then [] else [opts[0].code, opts[0].len] + opts[0].value + Encoded(opts[1..])
  }

  predicate Among(opts: seq<Opt>, code: byte, value: seq<byte>) {
    exists k :: 0 <= k < |opts| && opts[k].code == code && opts[k].value == value
  }

  lemma AmongFirst(opts: seq<Opt>, code: byte, value: seq<byte>)
    requires opts != []
    ensures Among(opts, code, value) <==> (opts[0].code == code && opts[0].value == value) || Among(opts[1..], code, value)
  {
    if k :| 0 <= k < |opts| && opts[k].code == code && opts[k].value == value && k > 0 {
      assert opts[1..][k - 1] == opts[k];
    }
    if k :| 0 <= k < |opts[1..]| && opts[1..][k].code == code && opts[1..][k].value == value {
      assert opts[k + 1] == opts[1..][k];
    }
  }

  /** A message with these options from pos on and an end option says these and no others. */
  lemma {:induction false} ListSaid(p: seq<byte>, pos: nat, opts: seq<Opt>)
    requires GoodOpts(opts) && pos + |Encoded(opts)| < |p|
    requires p[pos..pos + |Encoded(opts)|] == Encoded(opts) && p[pos + |Encoded(opts)|] == END_OPTION
    ensures Whole(p, pos) && PadsPaired(p, pos)
    ensures forall code: byte, value: seq<byte> :: Says(p, pos, code, value) <==> Among(opts, code, value)
    decreases |opts|
  {
    hide NextOption, Among;
    if opts == [] {
      assert forall code: byte, value: seq<byte> :: !Among(opts, code, value) by {
        AmongNone();
      }
    } else {
      var first, rest := opts[0], Encoded(opts[1..]);
      var next := pos + 2 + |first.value|;
      OptionWritten(p, pos, first, rest);
      ListSaid(p, next, opts[1..]);
      assert Whole(p, pos) && PadsPaired(p, pos);
      forall code: byte, value: seq<byte> ensures Says(p, pos, code, value) <==> Among(opts, code, value) {
        FirstSaid(p, pos, opts, code, value);
      }
    }
  }

  lemma FirstSaid(p: seq<byte>, pos: nat, opts: seq<Opt>, code: byte, value: seq<byte>)
    requires opts != [] && opts[0].code != PAD && opts[0].code != END_OPTION && opts[0].len as nat == |opts[0].value|
    requires pos + 2 + |opts[0].value| <= |p| && p[pos] == opts[0].code && p[pos + 1] == opts[0].len
    requires p[pos + 2..pos + 2 + |opts[0].value|] == opts[0].value
    requires Says(p, NextOption(p, pos), code, value) <==> Among(opts[1..], code, value)
    ensures Says(p, pos, code, value) <==> Among(opts, code, value)
  {
    hide NextOption, Among, OptionAt;
    AmongFirst(opts, code, value);
    OptionAtIs(p, pos, opts[0], code, value);
  }

  lemma AmongNone()
    ensures forall code: byte, value: seq<byte> :: !Among([], code, value)
  {
  }

  lemma OptionWritten(p: seq<byte>, pos: nat, o: Opt, rest: seq<byte>)
    requires o.code != PAD && o.code != END_OPTION && o.len as nat == |o.value|
    requires pos + 2 + |o.value| + |rest| < |p| && p[pos..pos + 2 + |o.value| + |rest|] == [o.code, o.len] + o.value + rest
    ensures p[pos] == o.code && p[pos + 1] == o.len && p[pos + 2..pos + 2 + |o.value|] == o.value
    ensures NextOption(p, pos) == pos + 2 + |o.value|
    ensures p[pos + 2 + |o.value|..pos + 2 + |o.value| + |rest|] == rest
  {
    var head := [o.code, o.len];
    assert head + o.value + rest == head + (o.value + rest) == (head + o.value) + rest + [];
    OptionHead(p, pos, o.code, o.len, o.value + rest);
    NextIs(p, pos);
    hide NextOption;
    RunPart(p, pos, head, o.value, rest);
    RunPart(p, pos, head + o.value, rest, []);
  }

  lemma NextIs(p: seq<byte>, pos: nat)
    requires pos + 1 < |p| && p[pos] != PAD
    ensures NextOption(p, pos) == pos + 2 + p[pos + 1] as nat
  {
  }

  lemma OptionHead(p: seq<byte>, pos: nat, code: byte, len: byte, rest: seq<byte>)
    requires pos + 2 + |rest| <= |p| && p[pos..pos + 2 + |rest|] == [code, len] + rest
    ensures p[pos] == code && p[pos + 1] == len
  {
    var run := p[pos..pos + 2 + |rest|];
    assert p[pos] == run[0] && p[pos + 1] == run[1];
  }

  /** A part of a run of bytes. */
  lemma RunPart(p: seq<byte>, pos: nat, a: seq<byte>, b: seq<byte>, c: seq<byte>)
    requires pos + |a| + |b| + |c| <= |p| && p[pos..pos + |a| + |b| + |c|] == a + b + c
    ensures p[pos + |a|..pos + |a| + |b|] == b
  {
    forall k | 0 <= k < |b| ensures p[pos + |a| + k] == b[k] {
      assert p[pos..pos + |a| + |b| + |c|][|a| + k] == (a + b + c)[|a| + k];
    }
  }

  lemma OptionAtIs(p: seq<byte>, pos: nat, o: Opt, code: byte, value: seq<byte>)
    requires pos + 2 + |o.value| <= |p| && o.len as nat == |o.value|
    requires p[pos] == o.code && p[pos + 1] == o.len && p[pos + 2..pos + 2 + |o.value|] == o.value
    ensures OptionAt(p, pos, code, value) <==> o.code == code && o.value == value
  {
  }

  // ---------------------------------------------------------------- the three messages

  /** A request message of a client on Ethernet (section 2 of RFC 2131), with these options and no others. */
  ghost predicate Message(d: seq<byte>, mac: Mac, ciaddr: Ip, broadcast: bool, opts: seq<Opt>) {
    && |d| == 300 && d[..4] == [1, 1, 6, 0] && d[4..10] == [0x12, 0x23, 0x34, 0x56, 0, 0]
    && d[10..12] == [if broadcast then 0x80 else 0, 0] && d[12..16] == ciaddr && d[28..34] == mac
    && (forall k :: 16 <= k < 28 || 34 <= k < 236 ==> d[k] == 0)
    && d[236..240] == [99, 130, 83, 99]
    && Whole(d, OPTIONS) && PadsPaired(d, OPTIONS)
    && forall code: byte, value: seq<byte> :: Says(d, OPTIONS, code, value) <==> Among(opts, code, value)
  }

  /** The options that every message asks for: mask, router, name server, host name. */
  const WANTED: seq<Opt> := [Opt(55, 4, [1, 3, 6, 12])]

  /** A discovery says what it is and asks for the address that the client has held, if it has held one. */
  function DiscoveryOptions(v: Vars): seq<Opt> {
    [Opt(53, 1, [1])] + WANTED + if v.tempIP != [0, 0, 0, 0] then [Opt(50, 4, v.tempIP)] else []
  }

  /** A request names the server and the address of the offer. */
  function OfferOptions(v: Vars): seq<Opt> {
    [Opt(53, 1, [3])] + [Opt(54, 4, v.serverID)] + WANTED + [Opt(50, 4, v.tempIP)]
  }

  /** A renewal names neither; its address is in the header. */
  const RENEWAL_OPTIONS: seq<Opt> := [Opt(53, 1, [3])] + WANTED

  lemma HeaderIs(c: Client, mac: Mac, ciaddr: Ip)
    ensures var h := Header(c, mac, ciaddr);
            && h[..4] == [1, 1, 6, 0] && h[4..10] == [0x12, 0x23, 0x34, 0x56, 0, 0]
            && h[10..12] == [if c.unicast then 0 else 0x80, 0] && h[12..16] == ciaddr && h[28..34] == mac
            && (forall k :: 16 <= k < 28 || 34 <= k < 236 ==> h[k] == 0)
            && h[236..240] == [99, 130, 83, 99]
  {
  }

  lemma MessageWritten(c: Client, mac: Mac, ciaddr: Ip, opts: seq<Opt>, d: seq<byte>)
    requires GoodOpts(opts) && |Encoded(opts)| <= 59
    requires d == Header(c, mac, ciaddr) + Encoded(opts) + [END_OPTION] + Dhcp.Zeros(59 - |Encoded(opts)|)
    ensures Message(d, mac, ciaddr, !c.unicast, opts)
  {
    hide Header, Dhcp.Zeros, Among, Says, Whole, PadsPaired;
    HeaderIs(c, mac, ciaddr);
    var h, n := Header(c, mac, ciaddr), |Encoded(opts)|;
    assert d[..240] == h;
    assert d[..4] == h[..4] && d[4..10] == h[4..10] && d[10..12] == h[10..12] && d[12..16] == h[12..16] && d[28..34] == h[28..34];
    assert d[236..240] == h[236..240];
    forall k | 16 <= k < 28 || 34 <= k < 236 ensures d[k] == 0 {
      assert d[k] == h[k];
    }
    assert d[240..240 + n] == Encoded(opts) && d[240 + n] == END_OPTION;
    ListSaid(d, 240, opts);
  }

  lemma EncodedOne(o: Opt)
    ensures Encoded([o]) == [o.code, o.len] + o.value
  {
    assert [o][1..] == [];
  }

  lemma {:induction false} EncodedConcat(a: seq<Opt>, b: seq<Opt>)
    ensures Encoded(a + b) == Encoded(a) + Encoded(b)
    decreases |a|
  {
    if a == [] {
      assert a + b == b;
    } else {
      assert (a + b)[1..] == a[1..] + b;
      EncodedConcat(a[1..], b);
    }
  }

  lemma DiscoveryWritten(c: Client, mac: Mac)
    ensures Message(Datagram(c, mac, DISCOVER, false), mac, [0, 0, 0, 0], !c.unicast, DiscoveryOptions(c.v))
  {
    hide Header, Dhcp.Zeros, Message;
    var first, ip := [Opt(53, 1, [1])], Opt(50, 4, c.v.tempIP);
    var held := if c.v.tempIP != [0, 0, 0, 0] then [ip] else [];
    EncodedConcat(first + WANTED, held);
    EncodedConcat(first, WANTED);
    EncodedOne(first[0]);
    EncodedOne(WANTED[0]);
    EncodedOne(ip);
    assert Encoded(held) == if held == [] then [] else [50, 4] + c.v.tempIP;
    hide Encoded;
    MessageWritten(c, mac, [0, 0, 0, 0], DiscoveryOptions(c.v), Datagram(c, mac, DISCOVER, false));
  }

  lemma RequestWritten(c: Client, mac: Mac)
    ensures Message(Datagram(c, mac, REQUEST, false), mac, [0, 0, 0, 0], !c.unicast, OfferOptions(c.v))
  {
    hide Header, Dhcp.Zeros, Message;
    var first, second, ip := [Opt(53, 1, [3])], [Opt(54, 4, c.v.serverID)], [Opt(50, 4, c.v.tempIP)];
    EncodedConcat(first + second + WANTED, ip);
    EncodedConcat(first + second, WANTED);
    EncodedConcat(first, second);
    EncodedOne(first[0]);
    EncodedOne(second[0]);
    EncodedOne(WANTED[0]);
    EncodedOne(ip[0]);
    MessageWritten(c, mac, [0, 0, 0, 0], OfferOptions(c.v), Datagram(c, mac, REQUEST, false));
  }

  lemma RenewalWritten(c: Client, mac: Mac)
    ensures Message(Datagram(c, mac, REQUEST, true), mac, c.v.tempIP, !c.unicast, RENEWAL_OPTIONS)
  {
    hide Header, Dhcp.Zeros, Message;
    var first := [Opt(53, 1, [3])];
    EncodedConcat(first, WANTED);
    EncodedOne(first[0]);
    EncodedOne(WANTED[0]);
    MessageWritten(c, mac, c.v.tempIP, RENEWAL_OPTIONS, Datagram(c, mac, REQUEST, true));
  }

  // ---------------------------------------------------------------- when they are sent

  predicate Waiting(sm: nat) {
    sm == GET_OFFER || sm == GET_REQUEST_ACK || Awaiting(sm)
  }

  /** The message that a client sends when it begins to wait in this state. */
  function MessageFor(s: State): seq<byte> {
    Datagram(s.c, s.config.mac, if s.c.smState == GET_OFFER then DISCOVER else REQUEST, Awaiting(s.c.smState))
  }

  /** A message depends on three of the client's variables. */
  lemma SameDatagram(c: Client, c': Client, mac: Mac, kind: byte, renewing: bool)
    requires c.unicast == c'.unicast && c.v.tempIP == c'.v.tempIP && c.v.serverID == c'.v.serverID
    ensures Datagram(c, mac, kind, renewing) == Datagram(c', mac, kind, renewing)
  {
  }

  lemma TalkSends(s: State, x: Input)
    ensures s.c.smState == SEND_DISCOVERY ==> Sends(s, InSendDiscovery(s, x)) && InSendDiscovery(s, x).c.smState in {SEND_DISCOVERY, GET_OFFER}
    ensures s.c.smState == SEND_REQUEST ==> Sends(s, InSendRequest(s, x)) && InSendRequest(s, x).c.smState in {SEND_REQUEST, GET_REQUEST_ACK}
    ensures Sending(s.c.smState) ==> Sends(s, InSendRenew(s, x)) && InSendRenew(s, x).c.smState in {s.c.smState, s.c.smState + 1}
  {
    hide Datagram, Expired;
    var discovery, request, renewal := InSendDiscovery(s, x), InSendRequest(s, x), InSendRenew(s, x);
    if x.linked && x.putReady >= 300 {
      SameDatagram(s.c.(v := s.c.v.(leaseTime := 60, validIP := false, validMask := false, validGateway := false, offerReceived := false),
                        isBound := false, unicast := !s.c.unicast), discovery.c, s.config.mac, DISCOVER, false);
    }
    SameDatagram(s.c, request.c, s.config.mac, REQUEST, false);
    SameDatagram(s.c, renewal.c, s.config.mac, REQUEST, true);
  }

  /** Nothing is sent, or one message that fits the state. */
  predicate Sends(s: State, s': State) {
    s'.config.mac == s.config.mac &&
    if Waiting(s'.c.smState) && s'.c.smState != s.c.smState then s'.sent == s.sent + [MessageFor(s')] else s'.sent == s.sent
  }

  lemma AnswersSend(s: State, x: Input)
    requires s.c.timer < DWORD
    ensures s.c.smState == GET_OFFER ==> Sends(s, InGetOffer(s, x))
    ensures s.c.smState == GET_REQUEST_ACK ==> Sends(s, InGetRequestAck(s, x))
    ensures Awaiting(s.c.smState) ==> Sends(s, InGetRenewAck(s, x))
  {
    hide Received, Expired, InSendRequest, MessageFor;
    if |x.packet.bytes| >= LEAST {
      var (s', kind) := Heeded(s.(c := s.c.(serverDetected := true)), x.packet);
      TalkSends(To(s'.(h := s.h.(offer := x.packet)), SEND_REQUEST), x);
    }
  }

  /** What is sent after a state that does not wait was passed through. */
  lemma SendsThrough(s: State, between: State, s': State)
    requires Sends(between, s') && between.sent == s.sent && between.config.mac == s.config.mac
    requires !Waiting(s.c.smState) && !Waiting(between.c.smState)
    ensures Sends(s, s')
  {
    hide MessageFor;
  }

  lemma NothingSent(s: State, s': State)
    requires s'.sent == s.sent && s'.config.mac == s.config.mac && (s'.c.smState == s.c.smState || !Waiting(s'.c.smState))
    ensures Sends(s, s')
  {
  }

  lemma EventSends(s: State, e: Event)
    requires s.c.timer < DWORD
    ensures Sends(s, Happen(s, e))
  {
    hide InSendDiscovery, InSendRequest, InSendRenew, InGetOffer, InGetRequestAck, InGetRenewAck, Minus, Sends;
    if e.Poll? {
      TaskSends(s, e.x);
    } else {
      NothingSent(s, Happen(s, e));
    }
  }

  lemma TaskSends(s: State, x: Input)
    requires s.c.timer < DWORD
    ensures Sends(s, Task(s, x))
  {
    hide InSendDiscovery, InSendRequest, InSendRenew, InGetOffer, InGetRequestAck, InGetRenewAck, Minus, Sends;
    TalkSends(s, x);
    AnswersSend(s, x);
    if s.c.smState == GET_SOCKET && x.handle != INVALID_SOCKET {
      var s' := To(Opened(s, x.handle), SEND_DISCOVERY);
      TalkSends(s', x);
      SendsThrough(s, s', Task(s, x));
    } else if s.c.smState == BOUND {
      var s' := Opened(s, x.handle);
      var s2 := To(s'.(h := s'.h.(renewals := 0)), SEND_RENEW);
      TalkSends(s2, x);
      if Task(s, x) == InSendRenew(s2, x) {
        SendsThrough(s, s2, Task(s, x));
      } else {
        NothingSent(s, Task(s, x));
      }
    } else if s.c.smState == GET_SOCKET || s.c.smState > GET_RENEW_ACK3 || s.c.smState == DISABLED {
      NothingSent(s, Task(s, x));
    }
  }

  /** In every event the client sends a message exactly when it begins to wait for an answer, and the one that
      belongs to the state: a discovery, a request for the offer that it holds, or a renewal of its address. */
  lemma MessageOfState(s: State, e: Event)
    requires s.c.timer < DWORD
    ensures var s' := Happen(s, e);
            if s'.c.smState == s.c.smState || !Waiting(s'.c.smState) then s'.sent == s.sent
            else
              && |s'.sent| == |s.sent| + 1 && s'.sent[..|s.sent|] == s.sent
              && var d, mac, c := s'.sent[|s.sent|], s'.config.mac, s'.c;
              if c.smState == GET_OFFER then Message(d, mac, [0, 0, 0, 0], !c.unicast, DiscoveryOptions(c.v))
              else if c.smState == GET_REQUEST_ACK then Message(d, mac, [0, 0, 0, 0], !c.unicast, OfferOptions(c.v))
              else Message(d, mac, c.v.tempIP, !c.unicast, RENEWAL_OPTIONS)
  {
    hide Happen, Message, DiscoveryOptions, OfferOptions, Datagram;
    EventSends(s, e);
    var s' := Happen(s, e);
    DiscoveryWritten(s'.c, s'.config.mac);
    RequestWritten(s'.c, s'.config.mac);
    RenewalWritten(s'.c, s'.config.mac);
  }
}
