/** A run in which a rendezvous makes the wall-clock trigger miss a renewal that is due. */
module RelayLapse {
  import opened Common
  import opened RelayWorld
  import opened RelaySpec
  import opened RelayMonitors
  import opened RelayRuns
  import opened RelayTokens
  import Messages
  import Json
  import JsonText
  import JsonRoundTrip

  const CFG: Config := Config(400, true)

  function OfferNode(): Json.Value {
    Json.Object(TextMember("address", Ascii("wss://relay/x")))
  }

  function OfferValue(): (v: Json.Value)
    ensures Json.Safe(v) && Json.Height(v) == 3
  {
    TextSafe("address", Ascii("wss://relay/x"));
    var member := Json.Member(Ascii("request"), OfferNode());
    Json.OneMember(member);
    Json.Object([member])
  }

  /** A control message that offers a rendezvous. */
  function OfferText(): Bytes {
    Json.Dump(OfferValue())
  }

  /** The control channel delivers the offer and then closes; so does, at once, the rendezvous. */
  function Dials(): seq<Result<Link>> {
    [Ok(Link([Ok(Messages.Message(Messages.Text, OfferText()))], [])), Ok(Link([], []))]
  }

  /** Connected at wall second 1000; the rendezvous a second later; then the wall clock steps by 299 seconds. */
  function Times(): seq<Instant> {
    [Instant(0, 1000), Instant(0, 1000), Instant(1, 1000), Instant(1, 1000), Instant(1, 1000),
     Instant(1000, 1001), Instant(2000, 1300), Instant(2000, 1300)]
  }

  function Start(): State {
    State(World(Instant(0, 1000), Times(), [false, false, false], [], [], Dials(), [], [], []), None, 0, 0, 0)
  }

  lemma OfferIsHandled(s: State, ctrl: nat)
    requires ctrl < |s.w.links|
    ensures HandleControl(CFG, s, ctrl, OfferText()) == Offer(CFG, s, Ascii("wss://relay/x"))
  {
    hide Offer, JsonText.ParseDocument, Json.Dump;
    JsonRoundTrip.DocumentRoundTrip(OfferValue());
    var node := OfferNode();
    assert FindCi(OfferValue(), Ascii("request")) == Some(node);
    assert |Ascii("method")| == 6 && |Ascii("address")| == 7;
    assert FindCi(node, Ascii("method")) == None;
    assert FindCi(node, Ascii("address")) == Some(Json.String(Ascii("wss://relay/x")));
  }

  /** Connected: the token minted at second 1000 is held, and watched. */
  lemma Connects(s: State)
    requires s.w.times == Times() && s.w.dials == Dials() && s.w.tokens == [] && s.w.links == [] && s.ctrl == None
    ensures var (t, r) := CtrlConnect(CFG, s);
            && r.Ok? && t.w.links == [Dials()[0].value] && t.w.dials == Dials()[1..]
            && t.w.times == Times()[2..] && t.w.routes == s.w.routes && t.w.tokens == []
            && t.renewAt == 300000 && t.expiryWall == 1400 && t.nextPing == 30000
            && AuditOf(Plain(CFG), t.w.trace).held == Some(Instant(0, 1000))
  {
    hide AuditOf, OfferText;
    ConnectAudit(Plain(CFG), CFG, s);
  }

  lemma NothingDue(s: State)
    requires |s.w.links| == 1 && s.w.times == Times()[2..]
    requires s.renewAt == 300000 && s.expiryWall == 1400 && s.nextPing == 30000
    ensures var t := PingIfDue(RenewIfDue(CFG, s, 0), 0);
            && t.w.links == s.w.links && t.w.dials == s.w.dials && t.w.tokens == s.w.tokens && t.w.routes == s.w.routes
            && t.w.times == Times()[5..] && t.renewAt == s.renewAt && t.expiryWall == s.expiryWall
            && AuditOf(Plain(CFG), t.w.trace).held == AuditOf(Plain(CFG), s.w.trace).held
  {
    hide AuditOf, Renew;
    AuditLogged(Plain(CFG), s.w.trace, Checked(Instant(1, 1000), Instant(1, 1000), 1400));
  }

  /** The first pass answers the offer, and the trigger watches the rendezvous token. */
  lemma Offered(s: State)
    requires s.w.links == [Dials()[0].value] && s.w.dials == Dials()[1..] && s.w.tokens == [] && s.w.routes == []
    requires s.w.times == Times()[2..] && s.renewAt == 300000 && s.expiryWall == 1400 && s.nextPing == 30000
    requires AuditOf(Plain(CFG), s.w.trace).held == Some(Instant(0, 1000))
    ensures var (t, goesOn) := Iterate(CFG, s, 0);
            && goesOn && |t.w.links| == 2 && t.w.links[0].inbox == []
            && t.w.times == Times()[6..] && t.renewAt == 300000 && t.expiryWall == 1401
            && AuditOf(Plain(CFG), t.w.trace).held == Some(Instant(0, 1000))
  {
    hide AuditOf, PhaseOf, SourceOf, OwedOf, OfferText, HandleControl, RenewIfDue, PingIfDue, Offer;
    var s3 := PingIfDue(RenewIfDue(CFG, s, 0), 0);
    NothingDue(s);
    var (w, m) := s3.w.Recv(0);
    var s4 := s3.(w := w);
    AuditLogged(Plain(CFG), s3.w.trace, Received(0, m));
    OfferIsHandled(s4, 0);
    HandleControlKeeps(Plain(CFG), CFG, s4, 0, OfferText());
    OfferOutcome(s4);
  }

  lemma OfferOutcome(s: State)
    requires |s.w.links| == 1 && s.w.links[0].inbox == [] && s.w.dials == Dials()[1..] && s.w.tokens == []
    requires s.w.routes == [] && s.w.times == Times()[5..]
    ensures var t := Offer(CFG, s, Ascii("wss://relay/x"));
            && |t.w.links| == 2 && t.w.links[0].inbox == []
            && t.w.times == Times()[6..] && t.renewAt == s.renewAt && t.expiryWall == 1401
  {
    hide OfferText;
  }

  /** The second pass finds the token held due by the wall clock, and renews nothing. */
  lemma Misses(s: State)
    requires |s.w.links| == 2 && s.w.links[0].inbox == []
    requires s.w.times == Times()[6..] && s.renewAt == 300000 && s.expiryWall == 1401
    requires AuditOf(Plain(CFG), s.w.trace).held == Some(Instant(0, 1000))
    ensures var (t, goesOn) := Iterate(CFG, s, 0);
            !goesOn && AuditOf(Plain(CFG), t.w.trace).trigger.missed
    ensures !RenewalDue(2000, s.renewAt, 1300, s.expiryWall, CFG.ttl)
    ensures RenewalDue(2000, s.renewAt, 1300, 1000 + CFG.ttl, CFG.ttl)
  {
    hide AuditOf, AuditStep, PhaseOf, PhaseStep, OwedOf, OwedStep, RenewIfDue;
    MissesAtHead(s);
    Passes(RenewIfDue(CFG, s, 0));
  }

  lemma MissesAtHead(s: State)
    requires |s.w.links| == 2 && s.w.links[0].inbox == []
    requires s.w.times == Times()[6..] && s.renewAt == 300000 && s.expiryWall == 1401
    requires AuditOf(Plain(CFG), s.w.trace).held == Some(Instant(0, 1000))
    ensures var t := RenewIfDue(CFG, s, 0);
            t.w.links == s.w.links && AuditOf(Plain(CFG), t.w.trace).trigger.missed
  {
    hide AuditOf, PhaseOf, PhaseStep, OwedOf, OwedStep;
    AuditLogged(Plain(CFG), s.w.trace, Checked(Instant(2000, 1300), Instant(2000, 1300), 1401));
  }

  /** What is left of a pass over a closed channel does not concern the tokens. */
  lemma Passes(s: State)
    requires |s.w.links| == 2 && s.w.links[0].inbox == [] && AuditOf(Plain(CFG), s.w.trace).trigger.missed
    ensures var s1 := PingIfDue(s, 0);
            var (w, m) := s1.w.Recv(0);
            && m == Err(Closed)
            && AuditOf(Plain(CFG), s1.(w := w).Log(Emit(Disconnected)).w.trace).trigger.missed
  {
    hide AuditOf, PhaseOf, PhaseStep, OwedOf, OwedStep;
    AuditLogged(Plain(CFG), s.w.trace, Pinged(0));
    var s1 := PingIfDue(s, 0);
    var (w, m) := s1.w.Recv(0);
    AuditLogged(Plain(CFG), s1.w.trace, Received(0, m));
    AuditLogged(Plain(CFG), w.trace, Emit(Disconnected));
  }

  /** After an answer to whether to stop, nothing has changed but the answers left. */
  lemma AskedOnly(s: State)
    ensures var (w, stop) := s.w.Ask();
            && w == s.w.(stops := w.stops, trace := s.w.trace + [Asked(stop)])
            && AuditOf(Plain(CFG), w.trace) == AuditOf(Plain(CFG), s.w.trace)
  {
    AuditLogged(Plain(CFG), s.w.trace, Asked(s.w.Ask().1));
  }

  lemma SessionMisses(s: State)
    requires s.w.links == [Dials()[0].value] && s.w.dials == Dials()[1..] && s.w.tokens == [] && s.w.routes == []
    requires s.w.times == Times()[2..] && s.renewAt == 300000 && s.expiryWall == 1400 && s.nextPing == 30000
    requires s.w.stops == [false, false]
    requires AuditOf(Plain(CFG), s.w.trace).held == Some(Instant(0, 1000))
    ensures var t := Session(CFG, s, 0); AuditOf(Plain(CFG), t.w.trace).trigger.missed && t.w.stops == []
  {
    hide AuditOf, OfferText, Iterate;
    AskedOnly(s);
    var s1 := s.(w := s.w.Ask().0);
    Offered(s1);
    var s2 := Iterate(CFG, s1, 0).0;
    AskedOnly(s2);
    var s3 := s2.(w := s2.w.Ask().0);
    Misses(s3);
    assert Session(CFG, s2, 0) == Iterate(CFG, s3, 0).0;
    assert Session(CFG, s, 0) == Session(CFG, s2, 0);
  }

  /**
   The trigger can fail: connected, a token-less rendezvous a second later, and
   a wall clock that steps to within a quarter of a lifetime of the expiry of
   the token held. At that loop head a renewal is due by the wall clock for the
   token held, and none is attempted.
   */
  lemma TriggerCanMiss()
    ensures Starting(Start())
    ensures AuditOf(Plain(CFG), Run(CFG, Start(), 1000).w.trace).trigger.missed
  {
    hide AuditOf, OfferText, CtrlConnect, Session;
    var s := Start();
    AskedOnly(s);
    var s1 := s.(w := s.w.Ask().0).Log(Emit(Connecting));
    Connects(s1);
    var (s2, status) := CtrlConnect(CFG, s1);
    var s3 := s2.Log(Emit(Connected));
    AuditLogged(Plain(CFG), s2.w.trace, Emit(Connected));
    SessionMisses(s3);
    var s4 := Session(CFG, s3, 0);
    AskedOnly(s4);
    var s5 := s4.(w := s4.w.Ask().0, ctrl := None);
    AuditLogged(Plain(CFG), s5.w.trace, SaidGoodbye(0));
    var s6 := s5.Log(SaidGoodbye(0));
    assert EndSession(s4, 0) == s6;
    AskedOnly(s6);
    var s7 := s6.(w := s6.w.Ask().0);
    AuditLogged(Plain(CFG), s7.w.trace, Emit(Stopped));
    assert Run(CFG, s6, 1000) == s7.Log(Emit(Stopped));
    assert Run(CFG, s, 1000) == Run(CFG, s6, 1000);
  }
}
