/** Token freshness over every run, and what the wall-clock trigger watches. */
module RelayTokens {
  import opened Common
  import opened RelayWorld
  import opened RelaySpec
  import opened RelayMonitors
  import opened RelayRuns
  import Json
  import JsonRoundTrip

  // --------------------------------------------------------- at a loop head

  /** What the wall-clock trigger has done and watches, whatever the clocks do and whichever sends fail. */
  ghost predicate Watch(b: Bounds, s: State) {
    var x := AuditOf(b, s.w.trace);
    var y := x.trigger;
    && x.honest
    && y.latest && (y.tracked <==> y.level) && (y.clean ==> y.level) && (y.tracked ==> !y.missed)
    && (s.ctrl.Some? ==> x.held.Some? && Stamped(b, s) && Current(x))
  }

  /** The token the service holds, the deadline and the latest loop head. */
  ghost predicate Fresh(b: Bounds, s: State) {
    var x := AuditOf(b, s.w.trace);
    && Aligned(b, x.pending)
    && (x.held.Some? ==> Aligned(b, x.held.value))
    && (x.bounded ==>
          && x.alive
          && (s.ctrl.Some? ==>
                && x.held.Some?
                && s.renewAt <= x.held.value.mono + b.delay + 750 * b.ttl
                && x.mark < x.held.value.mono + b.delay + 750 * b.ttl))
  }

  /** Both, the second only for runs on one time line (`line`). */
  ghost predicate Timely(b: Bounds, s: State, line: bool) {
    Watch(b, s) && (line ==> Fresh(b, s))
  }

  /** The delay and the gap fit into a quarter of the lifetime less a second. */
  predicate Fits(b: Bounds) {
    b.delay + b.gap + 1000 <= 250 * b.ttl
  }

  lemma DeadlineIs(mono: nat, ttl: nat)
    ensures Deadline(mono, ttl) == mono + 750 * ttl
  {
  }

  lemma StillFresh(b: Bounds, minted: Instant, seen: Instant)
    requires Aligned(b, minted) && Aligned(b, seen)
    requires seen.mono <= minted.mono + 1000 * b.ttl - 1000 && b.ttl > 0
    ensures seen.wall < minted.wall + b.ttl
  {
  }

  ghost predicate Assumed(b: Bounds, cfg: Config, s: State, line: bool) {
    0 < cfg.ttl == b.ttl && (line ==> Fits(b) && OneTimeline(b, s.w))
  }

  /** As after the clocks are read at a loop head, when a renewal may be overdue. */
  ghost predicate Midway(b: Bounds, s: State, line: bool) {
    var x := AuditOf(b, s.w.trace);
    && Watch(b, s)
    && (line ==>
          && Aligned(b, x.pending)
          && (x.held.Some? ==> Aligned(b, x.held.value))
          && (x.bounded ==> x.alive))
  }

  lemma CheckTimely(b: Bounds, cfg: Config, s: State, line: bool)
    requires Assumed(b, cfg, s, line) && Timely(b, s, line) && s.ctrl.Some?
    ensures var s1, s2 := s.Tick(), s.Tick().Tick();
            var t := s2.Log(Checked(s1.w.now, s2.w.now, s.expiryWall));
            && Assumed(b, cfg, t, line) && Midway(b, t, line)
            && (!RenewalDue(s1.w.now.mono, s.renewAt, s2.w.now.wall, s.expiryWall, cfg.ttl) ==> Timely(b, t, line))
  {
    hide AuditOf, TokenTold;
    var s1, s2 := s.Tick(), s.Tick().Tick();
    AuditLogged(b, s.w.trace, Checked(s1.w.now, s2.w.now, s.expiryWall));
    var x := AuditOf(b, s.w.trace);
    if line && x.bounded && s2.w.now.mono <= x.mark + b.gap {
      assert Aligned(b, s2.w.now);
      StillFresh(b, x.held.value, s2.w.now);
    }
  }

  /** The service that parses a renewal message finds in it the token it was made for, whatever octets that holds. */
  lemma RenewalReadsBack(token: Bytes)
    ensures TokenTold(RenewMessage(token)) == Some(token)
  {
    JsonRoundTrip.DocumentRoundTrip(RenewValue(token));
    var inner := Json.Object([Json.Member(Ascii("token"), Json.String(token))]);
    assert FindCi(RenewValue(token), Ascii("renewToken")) == Some(inner);
    assert GetStr(inner, Ascii("token")) == Some(token);
  }

  /** What the mint, the send and the deadline of a renewal do to the audit. */
  lemma RenewAudit(b: Bounds, cfg: Config, s: State, ctrl: nat)
    requires ctrl < |s.w.links| && cfg.ttl == b.ttl
    ensures var (s1, token) := MakeToken(cfg, s);
            var (w, ok) := s1.w.Send(ctrl, Renewal, RenewMessage(token));
            var sent, t := token != [] && ok, Renew(cfg, s, ctrl);
            var x, y := AuditOf(b, s.w.trace), AuditOf(b, t.w.trace);
            && y.pending == s1.w.now == s.Tick().w.now && Stamped(b, t) && y.trigger == x.trigger && y.alive == x.alive && y.honest == x.honest
            && (sent ==>
                  && y.held == Some(y.pending) && y.strays == 0
                  && t.w.now == s1.w.Tick().now && t.renewAt == t.w.now.mono + 750 * b.ttl
                  && y.mark == t.w.now.mono
                  && y.bounded == (x.bounded && t.w.now.mono <= y.pending.mono + b.delay))
            && (!sent ==> y.held == x.held && y.strays == x.strays + 1 && !y.bounded && t.renewAt == s.renewAt)
            && (OneTimeline(b, s.w) ==> OneTimeline(b, t.w) && Aligned(b, y.pending))
            && t.ctrl == s.ctrl
  {
    hide RenewMessage, TokenTold, AuditOf, PhaseOf, SourceOf, OwedOf;
    MintKeeps(b, cfg, s);
    var (s1, token) := MakeToken(cfg, s);
    AuditLogged(b, s1.w.trace, NotRenewed);
    var (w, ok) := s1.w.Send(ctrl, Renewal, RenewMessage(token));
    RenewalReadsBack(token);
    AuditLogged(b, s1.w.trace, Sent(ctrl, Renewal, RenewMessage(token), ok));
    var s2 := s1.(w := w);
    AuditLogged(b, w.trace, DeadlineSet(s2.Tick().w.now));
    AuditLogged(b, SetDeadline(cfg, s2).w.trace, Emit(TokenRenewed));
    DeadlineIs(s2.Tick().w.now.mono, cfg.ttl);
  }

  lemma RenewTimely(b: Bounds, cfg: Config, s: State, ctrl: nat, line: bool)
    requires Assumed(b, cfg, s, line) && Midway(b, s, line) && s.ctrl == Some(ctrl) && ctrl < |s.w.links|
    ensures Assumed(b, cfg, Renew(cfg, s, ctrl), line) && Timely(b, Renew(cfg, s, ctrl), line)
  {
    hide AuditOf, PhaseOf, OwedOf, Renew, MakeToken, RenewMessage, OneTimeline;
    RenewAudit(b, cfg, s, ctrl);
  }

  /** A pass of the renewal check finds the control token unexpired and keeps it so. */
  lemma RenewIfDueTimely(b: Bounds, cfg: Config, s: State, ctrl: nat, line: bool)
    requires Assumed(b, cfg, s, line) && Timely(b, s, line) && s.ctrl == Some(ctrl) && ctrl < |s.w.links|
    ensures Assumed(b, cfg, RenewIfDue(cfg, s, ctrl), line) && Timely(b, RenewIfDue(cfg, s, ctrl), line)
  {
    hide Assumed, Timely, Midway, Renew, RenewalDue;
    CheckTimely(b, cfg, s, line);
    var s1, s2 := s.Tick(), s.Tick().Tick();
    var s3 := s2.Log(Checked(s1.w.now, s2.w.now, s.expiryWall));
    if RenewalDue(s1.w.now.mono, s.renewAt, s2.w.now.wall, s.expiryWall, cfg.ttl) {
      RenewTimely(b, cfg, s3, ctrl, line);
    }
  }

  /** An action that is no part of the token's story changes nothing of it. */
  lemma TimelyLater(b: Bounds, cfg: Config, s: State, a: Action, line: bool)
    requires Assumed(b, cfg, s, line) && Timely(b, s, line)
    requires a.Emit? || a.Pinged? || a.Asked? || a.Received? || a.SaidGoodbye? || a.Slept? || a.Backoff?
    ensures Assumed(b, cfg, s.Log(a), line) && Timely(b, s.Log(a), line)
  {
    AuditLogged(b, s.w.trace, a);
  }

  lemma TimelyKept(b: Bounds, cfg: Config, s: State, t: State, line: bool)
    requires Assumed(b, cfg, s, line) && Timely(b, s, line) && Keep(b, s, t) && t.ctrl == s.ctrl && t.renewAt == s.renewAt
    ensures Assumed(b, cfg, t, line) && Timely(b, t, line)
  {
    hide OneTimeline, AuditOf, PhaseOf;
  }

  lemma IterateTimely(b: Bounds, cfg: Config, s: State, ctrl: nat, line: bool)
    requires Assumed(b, cfg, s, line) && Timely(b, s, line) && s.ctrl == Some(ctrl) && ctrl < |s.w.links|
    ensures var t := Iterate(cfg, s, ctrl).0; Assumed(b, cfg, t, line) && Timely(b, t, line) && t.ctrl == Some(ctrl)
  {
    hide Assumed, Timely, Keep, RenewIfDue, HandleControl;
    RenewIfDueTimely(b, cfg, s, ctrl, line);
    var s0 := RenewIfDue(cfg, s, ctrl);
    PingTimely(b, cfg, s0, ctrl, line);
    var s1 := PingIfDue(s0, ctrl);
    var (w, m) := s1.w.Recv(ctrl);
    var s2 := s1.(w := w);
    RecvKeeps(b, s1, ctrl);
    TimelyKept(b, cfg, s1, s2, line);
    TimelyLater(b, cfg, s2, Emit(Disconnected), line);
    if m.Ok? && m.value.kind.Text? {
      HandleControlKeeps(b, cfg, s2, ctrl, m.value.payload);
      TimelyKept(b, cfg, s2, HandleControl(cfg, s2, ctrl, m.value.payload), line);
    }
  }

  lemma PingTimely(b: Bounds, cfg: Config, s: State, ctrl: nat, line: bool)
    requires Assumed(b, cfg, s, line) && Timely(b, s, line) && ctrl < |s.w.links|
    ensures Assumed(b, cfg, PingIfDue(s, ctrl), line) && Timely(b, PingIfDue(s, ctrl), line)
  {
    AuditLogged(b, s.w.trace, Pinged(ctrl));
  }

  lemma AskTimely(b: Bounds, cfg: Config, s: State, line: bool)
    requires Assumed(b, cfg, s, line) && Timely(b, s, line)
    ensures var t := s.(w := s.w.Ask().0); Assumed(b, cfg, t, line) && Timely(b, t, line)
  {
    AuditLogged(b, s.w.trace, Asked(s.w.Ask().1));
  }

  lemma {:induction false} SessionTimely(b: Bounds, cfg: Config, s: State, ctrl: nat, line: bool)
    requires Assumed(b, cfg, s, line) && Timely(b, s, line) && s.ctrl == Some(ctrl) && ctrl < |s.w.links|
    ensures var t := Session(cfg, s, ctrl); Assumed(b, cfg, t, line) && Timely(b, t, line)
    decreases |s.w.stops|
  {
    hide Assumed, Timely, Iterate;
    AskTimely(b, cfg, s, line);
    var (w, stop) := s.w.Ask();
    if !stop {
      var s1 := s.(w := w);
      IterateTimely(b, cfg, s1, ctrl, line);
      var (s2, goesOn) := Iterate(cfg, s1, ctrl);
      if goesOn {
        SessionTimely(b, cfg, s2, ctrl, line);
      }
    }
  }

  /** A connection made has the latest token, and the trigger watches it. */
  lemma ConnectAudit(b: Bounds, cfg: Config, s: State)
    requires cfg.ttl == b.ttl
    ensures var (t, r) := CtrlConnect(cfg, s);
            var x, y := AuditOf(b, s.w.trace), AuditOf(b, t.w.trace);
            && y.pending == s.Tick().w.now && Stamped(b, t) && y.trigger == x.trigger && y.alive == x.alive && y.honest == x.honest
            && (r.Ok? ==>
                  && y.held == Some(y.pending) && y.strays == 0
                  && t.renewAt == t.w.now.mono + 750 * b.ttl && y.mark == t.w.now.mono
                  && y.bounded == (x.bounded && t.w.now.mono <= y.pending.mono + b.delay))
            && (r.Err? ==> y.held == x.held && y.bounded == x.bounded && t.ctrl == s.ctrl && t.renewAt == s.renewAt)
            && (OneTimeline(b, s.w) ==> OneTimeline(b, t.w) && Aligned(b, y.pending))
  {
    hide AuditOf, PhaseOf, SourceOf, OwedOf, MakeToken;
    MintKeeps(b, cfg, s);
    var (s1, token) := MakeToken(cfg, s);
    var (w, r) := s1.w.Dial(ForControl, Some(token));
    AuditLogged(b, s1.w.trace, Dialled(ForControl, Some(token), ChannelOf(r)));
    if token != [] && r.Ok? {
      var s2 := s1.(w := w, ctrl := Some(r.value));
      AuditLogged(b, w.trace, DeadlineSet(s2.Tick().w.now));
      DeadlineIs(s2.Tick().w.now.mono, cfg.ttl);
    }
  }

  lemma ConnectTimely(b: Bounds, cfg: Config, s: State, line: bool)
    requires Assumed(b, cfg, s, line) && Timely(b, s, line) && s.ctrl.None?
    ensures var (t, r) := CtrlConnect(cfg, s);
            Assumed(b, cfg, t, line) && Timely(b, t, line) && (r.Err? ==> t.ctrl.None?)
  {
    hide AuditOf, PhaseOf, OwedOf, CtrlConnect, OneTimeline;
    ConnectAudit(b, cfg, s);
  }

  lemma {:induction false} WaitOutTimely(b: Bounds, cfg: Config, s: State, waited: nat, budget: nat, line: bool)
    requires Assumed(b, cfg, s, line) && Timely(b, s, line) && s.ctrl.None?
    ensures var t := WaitOut(s, waited, budget); Assumed(b, cfg, t, line) && Timely(b, t, line) && t.ctrl.None?
    decreases budget - waited
  {
    hide Assumed, Timely;
    if waited < budget {
      AskTimely(b, cfg, s, line);
      var (w, stop) := s.w.Ask();
      var s1 := s.(w := w);
      if !stop {
        TimelyLater(b, cfg, s1, Slept, line);
        WaitOutTimely(b, cfg, s1.Log(Slept), waited + 100, budget, line);
      }
    }
  }

  lemma EndTimely(b: Bounds, cfg: Config, s: State, ctrl: nat, line: bool)
    requires Assumed(b, cfg, s, line) && Timely(b, s, line)
    ensures var t := EndSession(s, ctrl); Assumed(b, cfg, t, line) && Timely(b, t, line) && t.ctrl.None?
  {
    AskTimely(b, cfg, s, line);
    var s1 := s.(w := s.w.Ask().0, ctrl := None);
    assert Assumed(b, cfg, s1, line) && Timely(b, s1, line);
    TimelyLater(b, cfg, s1, SaidGoodbye(ctrl), line);
  }

  lemma {:induction false} RunTimely(b: Bounds, cfg: Config, s: State, backoff: nat, line: bool)
    requires Assumed(b, cfg, s, line) && Timely(b, s, line) && s.ctrl.None?
    ensures Timely(b, Run(cfg, s, backoff), line)
    decreases |s.w.stops|
  {
    hide Assumed, Timely, CtrlConnect, Session, WaitOut, EndSession;
    AskTimely(b, cfg, s, line);
    var (w, stop) := s.w.Ask();
    var s1 := s.(w := w);
    TimelyLater(b, cfg, s1, Emit(Stopped), line);
    if !stop {
      TimelyLater(b, cfg, s1, Emit(Connecting), line);
      var s0 := s1.Log(Emit(Connecting));
      ConnectTimely(b, cfg, s0, line);
      var (s2, status) := CtrlConnect(cfg, s0);
      if status.Err? {
        TimelyLater(b, cfg, s2, Emit(ConnectFailed), line);
        var s3 := s2.Log(Emit(ConnectFailed));
        TimelyLater(b, cfg, s3, Backoff(backoff), line);
        var s4 := s3.Log(Backoff(backoff));
        WaitOutTimely(b, cfg, s4, 0, backoff, line);
        RunTimely(b, cfg, WaitOut(s4, 0, backoff), NextBackoff(backoff), line);
      } else {
        var ctrl := |s1.w.links|;
        TimelyLater(b, cfg, s2, Emit(Connected), line);
        var s3 := s2.Log(Emit(Connected));
        SessionTimely(b, cfg, s3, ctrl, line);
        EndTimely(b, cfg, Session(cfg, s3, ctrl), ctrl, line);
        RunTimely(b, cfg, EndSession(Session(cfg, s3, ctrl), ctrl), 1000, line);
      }
    }
  }

  /** The state a listener starts in. */
  predicate Starting(s: State) {
    s.w.trace == [] && s.w.links == [] && s.ctrl.None?
  }

  lemma StartTimely(b: Bounds, cfg: Config, s: State, line: bool)
    requires Assumed(b, cfg, s, line) && Starting(s)
    ensures Timely(b, s, line)
  {
  }

  /**
   If both clocks read one time line, and the delay from minting to setting the
   deadline and the gap between loop heads fit into a quarter of the lifetime
   less a second, then over every run in which they stay within those bounds and
   no renewal fails, the token the service holds is unexpired at every loop head.
   */
  lemma TokenAlwaysFresh(b: Bounds, cfg: Config, s: State)
    requires 0 < cfg.ttl == b.ttl && Fits(b) && OneTimeline(b, s.w) && Starting(s)
    ensures var x := AuditOf(b, Run(cfg, s, 1000).w.trace); x.bounded ==> x.alive
  {
    hide Run, Timely;
    StartTimely(b, cfg, s, true);
    RunTimely(b, cfg, s, 1000, true);
    TimelyIs(b, Run(cfg, s, 1000), true);
  }

  lemma TimelyIs(b: Bounds, s: State, line: bool)
    requires Timely(b, s, line)
    ensures Watch(b, s) && (line ==> Fresh(b, s))
  {
  }

  /**
   Over every run, whatever the clocks do and whichever sends fail: at every loop
   head the wall-clock trigger watches the expiry of the latest token minted. So
   it has tracked the control token at every loop head exactly when the two
   tokens were always of one second, which they are as long as no rendezvous dial
   or failed renewal has minted one since; and as long as it has, it has not
   missed a renewal that is due by the wall clock.
   */
  lemma TriggerOverRuns(b: Bounds, cfg: Config, s: State)
    requires 0 < cfg.ttl == b.ttl && Starting(s)
    ensures var y := AuditOf(b, Run(cfg, s, 1000).w.trace).trigger;
            y.latest && (y.tracked <==> y.level) && (y.clean ==> y.tracked) && (y.tracked ==> !y.missed)
  {
    hide Run, Timely;
    StartTimely(b, cfg, s, false);
    RunTimely(b, cfg, s, 1000, false);
    TimelyIs(b, Run(cfg, s, 1000), false);
  }

  /**
   Over every run, whatever fails: every control dial shows the token minted just
   before it, every renewal message tells the service, which parses it, the token
   minted just before it, and a rendezvous dial shows no other token than that.
   */
  lemma TokensShown(b: Bounds, cfg: Config, s: State)
    requires 0 < cfg.ttl == b.ttl && Starting(s)
    ensures AuditOf(b, Run(cfg, s, 1000).w.trace).honest
  {
    hide Run, Timely;
    StartTimely(b, cfg, s, false);
    RunTimely(b, cfg, s, 1000, false);
    TimelyIs(b, Run(cfg, s, 1000), false);
  }

  // --------------------------------------------------- one renewal, one dial

  /** The wall-clock trigger watches the expiry of the token the service holds. */
  ghost predicate WallTriggerTracks(b: Bounds, s: State) {
    var x := AuditOf(b, s.w.trace);
    x.held.Some? && s.expiryWall == x.held.value.wall + b.ttl
  }

  /** A connection made or a token sent puts the trigger on the control token, wherever it was before. */
  lemma DeliveryTracks(b: Bounds, cfg: Config, s: State, ctrl: nat)
    requires cfg.ttl == b.ttl && ctrl < |s.w.links|
    ensures var (t, r) := CtrlConnect(cfg, s); r.Ok? ==> WallTriggerTracks(b, t)
    ensures var (s1, token) := MakeToken(cfg, s);
            token != [] && s1.w.Send(ctrl, Renewal, RenewMessage(token)).1 ==> WallTriggerTracks(b, Renew(cfg, s, ctrl))
  {
    hide AuditOf, CtrlConnect, Renew;
    ConnectAudit(b, cfg, s);
    RenewAudit(b, cfg, s, ctrl);
  }

  /**
   A rendezvous dial that mints a token makes the trigger watch that token:
   wherever it was before, it is then on the control token exactly when both are
   of one second. A dial that mints none leaves it where it was.
   */
  lemma RendezvousMovesWallTrigger(b: Bounds, cfg: Config, s: State, address: Bytes)
    requires cfg.ttl == b.ttl && AuditOf(b, s.w.trace).held.Some?
    ensures var route, t := s.w.NextRoute().1, RendezvousConnect(cfg, s, address).0;
            WallTriggerTracks(b, t) <==>
            if route.Unusable? || route.carriesToken then WallTriggerTracks(b, s)
            else s.Tick().w.now.wall == AuditOf(b, s.w.trace).held.value.wall
  {
    hide AuditOf, PhaseOf, OwedOf;
    RendezvousConnectKeeps(b, cfg, s, address);
  }

  /** So does a renewal: the trigger is then on the control token exactly when the new one was sent, or is of its second. */
  lemma RenewalMovesWallTrigger(b: Bounds, cfg: Config, s: State, ctrl: nat)
    requires ctrl < |s.w.links| && cfg.ttl == b.ttl && AuditOf(b, s.w.trace).held.Some?
    ensures var (s1, token) := MakeToken(cfg, s);
            var sent := token != [] && s1.w.Send(ctrl, Renewal, RenewMessage(token)).1;
            WallTriggerTracks(b, Renew(cfg, s, ctrl)) <==>
            sent || s.Tick().w.now.wall == AuditOf(b, s.w.trace).held.value.wall
  {
    hide AuditOf, Renew;
    RenewAudit(b, cfg, s, ctrl);
  }

  /** The monitor's view of a listener, when only its tokens matter. */
  function Plain(cfg: Config): Bounds {
    Bounds(cfg.ttl, 0, 0, 0)
  }

  /** Has a renewal been sent between the two traces? */
  ghost predicate RenewedSince(t: Trace, u: Trace) {
    exists i :: |t| <= i < |u| && u[i].Sent? && u[i].cause == Renewal && u[i].ok
  }

  lemma RenewedByRenew(cfg: Config, s: State, ctrl: nat)
    requires ctrl < |s.w.links|
    ensures var (s1, token) := MakeToken(cfg, s);
            RenewedSince(s.w.trace, Renew(cfg, s, ctrl).w.trace) <==>
            token != [] && s1.w.Send(ctrl, Renewal, RenewMessage(token)).1
    ensures s.w.trace <= Renew(cfg, s, ctrl).w.trace
  {
    hide RenewMessage;
    var (s1, token) := MakeToken(cfg, s);
    var (w, ok) := s1.w.Send(ctrl, Renewal, RenewMessage(token));
    var n := |s.w.trace|;
    if token != [] && ok {
      assert Renew(cfg, s, ctrl).w.trace[n + 1] == Sent(ctrl, Renewal, RenewMessage(token), true);
    }
  }

  /** The deadline moves only with a renewal that was sent, and then to three quarters of a lifetime from now. */
  lemma DeadlineMovesWithRenewal(cfg: Config, s: State, ctrl: nat)
    requires ctrl < |s.w.links|
    ensures var t := RenewIfDue(cfg, s, ctrl);
            if RenewedSince(s.w.trace, t.w.trace)
            then t.renewAt == t.w.now.mono + 750 * cfg.ttl && WallTriggerTracks(Plain(cfg), t)
            else t.renewAt == s.renewAt
    ensures AuditOf(Plain(cfg), RenewIfDue(cfg, s, ctrl).w.trace).honest == AuditOf(Plain(cfg), s.w.trace).honest
  {
    hide AuditOf, RenewMessage, TokenTold, Renew, MakeToken, RenewedSince;
    var s1, s2 := s.Tick(), s.Tick().Tick();
    var s3 := s2.Log(Checked(s1.w.now, s2.w.now, s.expiryWall));
    AuditLogged(Plain(cfg), s.w.trace, Checked(s1.w.now, s2.w.now, s.expiryWall));
    RenewAudit(Plain(cfg), cfg, s3, ctrl);
    RenewedByRenew(cfg, s3, ctrl);
    RenewedLater(s.w.trace, Checked(s1.w.now, s2.w.now, s.expiryWall), RenewIfDue(cfg, s, ctrl).w.trace);
  }

  /**
   After a pass that sent a renewal, the next is due exactly three quarters of a
   lifetime after the deadline was set, or when less than a quarter is left of
   the lifetime counted from the mint: not at any readings up to those of the
   renewal, and the pass at such readings does nothing but read the clocks.
   */
  lemma RenewedIsNotDue(cfg: Config, s: State, ctrl: nat, mono: nat, wall: nat)
    requires ctrl < |s.w.links| && cfg.ttl > 0
    requires RenewedSince(s.w.trace, RenewIfDue(cfg, s, ctrl).w.trace)
    ensures var t, minted := RenewIfDue(cfg, s, ctrl), s.Tick().Tick().Tick().w.now;
            && (RenewalDue(mono, t.renewAt, wall, t.expiryWall, cfg.ttl) <==>
                mono >= t.w.now.mono + 750 * cfg.ttl || wall + cfg.ttl / 4 >= minted.wall + cfg.ttl)
            && (mono <= t.w.now.mono && wall <= minted.wall ==>
                  !RenewalDue(mono, t.renewAt, wall, t.expiryWall, cfg.ttl))
            && (t.Tick().w.now.mono <= t.w.now.mono && t.Tick().Tick().w.now.wall <= minted.wall ==>
                  RenewIfDue(cfg, t, ctrl).w.trace ==
                  t.w.trace + [Checked(t.Tick().w.now, t.Tick().Tick().w.now, t.expiryWall)])
  {
    hide AuditOf, RenewMessage, Renew, MakeToken, RenewedSince;
    var s1, s2 := s.Tick(), s.Tick().Tick();
    var s3 := s2.Log(Checked(s1.w.now, s2.w.now, s.expiryWall));
    RenewAudit(Plain(cfg), cfg, s3, ctrl);
    RenewedByRenew(cfg, s3, ctrl);
    RenewedLater(s.w.trace, Checked(s1.w.now, s2.w.now, s.expiryWall), RenewIfDue(cfg, s, ctrl).w.trace);
  }

  lemma RenewedLater(t: Trace, a: Action, u: Trace)
    requires !a.Sent? && t + [a] <= u
    ensures RenewedSince(t, u) <==> RenewedSince(t + [a], u)
    ensures u == t + [a] ==> !RenewedSince(t, u)
  {
    assert u[|t|] == a;
  }
}
