/** What every run of the relay listener keeps. */
module RelayRuns {
  import opened Common
  import opened RelayWorld
  import opened RelaySpec
  import opened RelayMonitors
  import Messages
  import Json
  import JsonText

  // ---------------------------------------------- what the handlers leave alone

  /** Both clocks read one time line. */
  ghost predicate OneTimeline(b: Bounds, w: World) {
    Aligned(b, w.now) && forall i :: 0 <= i < |w.times| ==> Aligned(b, w.times[i])
  }

  /** The wall-clock trigger watches the expiry of the latest token minted. */
  ghost predicate Stamped(b: Bounds, s: State) {
    s.expiryWall == AuditOf(b, s.w.trace).pending.wall + b.ttl
  }

  /** No token has been minted since the one the service holds. */
  ghost predicate Current(x: Audit) {
    x.strays == 0 ==> x.held == Some(x.pending)
  }

  /** The control channel, as the trace tells it. */
  ghost function Home(s: State): Option<nat> {
    SourceOf(s.w.trace).control
  }

  /** The channels dialled so far are among the channels, and so is the control channel. */
  ghost predicate Placed(s: State) {
    var x := SourceOf(s.w.trace);
    x.dialled <= |s.w.links| && (x.control.Some? ==> x.control.value < x.dialled)
  }

  /** What an operation inside a session leaves standing. */
  ghost predicate Keep(b: Bounds, s: State, t: State) {
    var x, y := AuditOf(b, s.w.trace), AuditOf(b, t.w.trace);
    && (OneTimeline(b, s.w) ==> OneTimeline(b, t.w))
    && (PhaseOf(s.w.trace) == InSession ==> PhaseOf(t.w.trace) == InSession)
    && y == x.(token := y.token, pending := y.pending, strays := y.strays)
    && (OneTimeline(b, s.w) && Aligned(b, x.pending) ==> Aligned(b, y.pending))
    && (Stamped(b, s) ==> Stamped(b, t))
    && (Current(x) ==> Current(y))
    && Home(t) == Home(s)
    && (Placed(s) ==> Placed(t))
  }

  lemma Logged(b: Bounds, t: Trace, a: Action)
    ensures PhaseOf(t + [a]) == PhaseStep(PhaseOf(t), a)
    ensures AuditOf(b, t + [a]) == AuditStep(b, AuditOf(b, t), a)
    ensures SourceOf(t + [a]) == SourceStep(SourceOf(t), a)
  {
    PhaseLogged(t, a);
    AuditLogged(b, t, a);
    OwedLogged(t, a);
  }

  /** Actions the handlers of a session log. */
  predicate Incidental(a: Action) {
    && SessionAction(a) && !a.Dialled? && !a.DeadlineSet? && !a.Checked? && !a.NotRenewed? && !a.Minted?
    && !(a.Sent? && a.cause == Renewal)
  }

  lemma LogKeeps(b: Bounds, s: State, a: Action)
    requires Incidental(a)
    ensures Keep(b, s, s.Log(a))
  {
    Logged(b, s.w.trace, a);
  }

  lemma KeepTwice(b: Bounds, s: State, t: State, u: State)
    requires Keep(b, s, t) && Keep(b, t, u)
    ensures Keep(b, s, u)
  {
    hide OneTimeline, PhaseOf, AuditOf, SourceOf;
  }

  lemma SendKeeps(b: Bounds, s: State, link: nat, m: Message)
    requires link < |s.w.links|
    ensures Keep(b, s, s.(w := s.w.Send(link, Reply, m).0))
  {
    Logged(b, s.w.trace, Sent(link, Reply, m, s.w.Send(link, Reply, m).1));
  }

  lemma RecvKeeps(b: Bounds, s: State, link: nat)
    requires link < |s.w.links|
    ensures Keep(b, s, s.(w := s.w.Recv(link).0))
  {
    Logged(b, s.w.trace, Received(link, s.w.Recv(link).1));
  }

  lemma DialKeeps(b: Bounds, s: State, address: Bytes, token: Option<Bytes>)
    requires token.None? || token == Some(AuditOf(b, s.w.trace).token)
    ensures Keep(b, s, s.(w := s.w.Dial(ForRendezvous(address), token).0))
  {
    var (w, r) := s.w.Dial(ForRendezvous(address), token);
    Logged(b, s.w.trace, Dialled(ForRendezvous(address), token, ChannelOf(r)));
    assert w.trace == s.w.trace + [Dialled(ForRendezvous(address), token, ChannelOf(r))];
  }

  /** A mint moves the pending token, which the trigger then watches, and nothing else. */
  lemma MintKeeps(b: Bounds, cfg: Config, s: State)
    requires cfg.ttl == b.ttl
    ensures Keep(b, s, MakeToken(cfg, s).0)
    ensures var t := MakeToken(cfg, s).0;
            && Stamped(b, t)
            && AuditOf(b, t.w.trace) ==
               AuditOf(b, s.w.trace).(token := MakeToken(cfg, s).1, pending := t.w.now, strays := AuditOf(b, s.w.trace).strays + 1)
            && t.w.now == s.Tick().w.now
            && t.w.trace == s.w.trace + [Minted(t.w.now, MakeToken(cfg, s).1)]
  {
    var t := MakeToken(cfg, s).0;
    Logged(b, s.w.trace, Minted(t.w.now, MakeToken(cfg, s).1));
  }

  lemma KeepSame(b: Bounds, s: State, t: State)
    requires t.w.trace == s.w.trace && t.w.times == s.w.times && t.w.now == s.w.now && t.expiryWall == s.expiryWall
    requires |t.w.links| == |s.w.links|
    ensures Keep(b, s, t)
  {
  }

  // -------------------------------------------- the handlers, one by one

  lemma SendResponseKeeps(b: Bounds, s: State, link: nat, id: Bytes, r: Response)
    requires link < |s.w.links|
    ensures Keep(b, s, SendResponse(s, link, id, r).0)
  {
    hide Keep, ResponseText;
    var (w, ok) := s.w.Send(link, Reply, ResponseText(id, r));
    SendKeeps(b, s, link, ResponseText(id, r));
    if ok && r.body != [] {
      var s1, m := s.(w := w), Messages.Message(Messages.Binary, r.body);
      SendKeeps(b, s1, link, m);
      KeepTwice(b, s, s1, s1.(w := w.Send(link, Reply, m).0));
    }
  }

  lemma RendezvousConnectKeeps(b: Bounds, cfg: Config, s: State, address: Bytes)
    requires cfg.ttl == b.ttl
    ensures Keep(b, s, RendezvousConnect(cfg, s, address).0)
  {
    hide Keep, MakeToken;
    var (w, route) := s.w.NextRoute();
    var s1 := s.(w := w);
    KeepSame(b, s, s1);
    if route.Unusable? {
      LogKeeps(b, s1, AddressRefused);
      KeepTwice(b, s, s1, s1.Log(AddressRefused));
    } else {
      var (s2, token) := if route.carriesToken then (s1, []) else MakeToken(cfg, s1);
      var shown := if token == [] then None else Some(token);
      if !route.carriesToken {
        MintKeeps(b, cfg, s1);
        KeepTwice(b, s, s1, s2);
      }
      DialKeeps(b, s2, address, shown);
      KeepTwice(b, s, s2, s2.(w := s2.w.Dial(ForRendezvous(address), shown).0));
    }
  }

  lemma DeliverKeeps(b: Bounds, cfg: Config, s: State, link: nat, pr: ParsedRequest, r: Response, onControl: bool)
    requires cfg.ttl == b.ttl
    requires link < |s.w.links|
    ensures Keep(b, s, Deliver(cfg, s, link, pr, r, onControl).0)
  {
    hide Keep, SendResponse, RendezvousConnect;
    if !NeedsRendezvous(onControl, |r.body|, pr.address.Some?) {
      SendResponseKeeps(b, s, link, pr.id, r);
    } else {
      var (s1, rws) := RendezvousConnect(cfg, s, pr.address.value);
      RendezvousConnectKeeps(b, cfg, s, pr.address.value);
      var over := if rws.Ok? then rws.value else link;
      SendResponseKeeps(b, s1, over, pr.id, r);
      var s2 := SendResponse(s1, over, pr.id, r).0;
      KeepTwice(b, s, s1, s2);
      LogKeeps(b, s2, SaidGoodbye(over));
      KeepTwice(b, s, s2, s2.Log(SaidGoodbye(over)));
    }
  }

  lemma ServeKeeps(b: Bounds, cfg: Config, s: State, link: nat, node: Json.Value, onControl: bool)
    requires cfg.ttl == b.ttl
    requires link < |s.w.links|
    ensures Keep(b, s, Serve(cfg, s, link, node, onControl))
  {
    hide Keep, Deliver, ParseRequest, FindCi;
    var pr := ParseRequest(node);
    var (s1, body) := ReadBody(s, link, pr.hasBody);
    if pr.hasBody {
      RecvKeeps(b, s, link);
    } else {
      KeepSame(b, s, s1);
    }
    if body.Err? {
      LogKeeps(b, s1, Emit(RequestError));
      KeepTwice(b, s, s1, s1.Log(Emit(RequestError)));
    } else {
      var req := RequestOf(node, body.value);
      var (s2, resp) := Invoke(cfg, s1);
      KeepSame(b, s1, s2);
      KeepTwice(b, s, s1, s2);
      var handled := Handled(Call(link, onControl, pr.address, req, resp));
      LogKeeps(b, s2, handled);
      var s3 := s2.Log(handled);
      KeepTwice(b, s, s2, s3);
      DeliverKeeps(b, cfg, s3, link, pr, resp, onControl);
      var (s4, ok) := Deliver(cfg, s3, link, pr, resp, onControl);
      KeepTwice(b, s, s3, s4);
      var last := Emit(if ok then ResponseSent(resp.code) else ResponseError);
      LogKeeps(b, s4, last);
      KeepTwice(b, s, s4, s4.Log(last));
    }
  }

  lemma OfferKeeps(b: Bounds, cfg: Config, s: State, address: Bytes)
    requires cfg.ttl == b.ttl
    ensures Keep(b, s, Offer(cfg, s, address))
  {
    hide Keep, RendezvousConnect, Serve, RequestIn;
    LogKeeps(b, s, Emit(Rendezvous));
    var s0 := s.Log(Emit(Rendezvous));
    RendezvousConnectKeeps(b, cfg, s0, address);
    var (s1, rws) := RendezvousConnect(cfg, s0, address);
    KeepTwice(b, s, s0, s1);
    if rws.Err? {
      LogKeeps(b, s1, Emit(RendezvousFailed));
      KeepTwice(b, s, s1, s1.Log(Emit(RendezvousFailed)));
    } else {
      var link := rws.value;
      var (w, m) := s1.w.Recv(link);
      var s2 := s1.(w := w);
      RecvKeeps(b, s1, link);
      KeepTwice(b, s, s1, s2);
      var inner := if m.Ok? && m.value.kind == Messages.Text then RequestIn(m.value.payload) else None;
      var s3 := if inner.None? then s2 else Serve(cfg, s2, link, inner.value, false);
      if inner.Some? {
        ServeKeeps(b, cfg, s2, link, inner.value, false);
        KeepTwice(b, s, s2, s3);
      }
      LogKeeps(b, s3, SaidGoodbye(link));
      KeepTwice(b, s, s3, s3.Log(SaidGoodbye(link)));
    }
  }

  /** Handling a control message never touches the session, the deadline or the control token. */
  lemma HandleControlKeeps(b: Bounds, cfg: Config, s: State, ctrl: nat, text: Bytes)
    requires cfg.ttl == b.ttl
    requires ctrl < |s.w.links|
    ensures Keep(b, s, HandleControl(cfg, s, ctrl, text))
  {
    hide Keep, Serve, Offer, FindCi, ParseRequest;
    LogKeeps(b, s, Emit(Unparsable));
    LogKeeps(b, s, Emit(AcceptIgnored));
    LogKeeps(b, s, Emit(Control));
    LogKeeps(b, s, Emit(RequestError));
    var root := JsonText.ParseDocument(text);
    if root.Ok? {
      var req := FindCi(root.value, Ascii("request"));
      if req.Some? {
        var address := ParseRequest(req.value).address;
        if address.Some? {
          OfferKeeps(b, cfg, s, address.value);
        }
        ServeKeeps(b, cfg, s, ctrl, req.value, true);
      }
    }
  }

  // ------------------------------------------------- the shape of every run

  lemma SetDeadlineShape(cfg: Config, s: State)
    requires PhaseOf(s.w.trace) == InSession
    ensures PhaseOf(SetDeadline(cfg, s).w.trace) == InSession
  {
    PhaseLogged(s.Tick().w.trace, DeadlineSet(s.Tick().w.now));
  }

  lemma MintShape(cfg: Config, s: State)
    requires PhaseOf(s.w.trace) == InSession
    ensures PhaseOf(MakeToken(cfg, s).0.w.trace) == InSession
  {
    PhaseLogged(s.w.trace, Minted(s.Tick().w.now, MakeToken(cfg, s).1));
  }

  lemma RenewShape(cfg: Config, s: State, ctrl: nat)
    requires ctrl < |s.w.links| && PhaseOf(s.w.trace) == InSession
    ensures PhaseOf(Renew(cfg, s, ctrl).w.trace) == InSession
  {
    hide PhaseOf, AuditOf, AuditStep, OwedOf, OwedStep, RenewMessage, SetDeadline, MakeToken;
    MintShape(cfg, s);
    var (s1, token) := MakeToken(cfg, s);
    PhaseLogged(s1.w.trace, NotRenewed);
    var (w, ok) := s1.w.Send(ctrl, Renewal, RenewMessage(token));
    var s2 := s1.(w := w);
    PhaseLogged(s1.w.trace, Sent(ctrl, Renewal, RenewMessage(token), ok));
    SetDeadlineShape(cfg, s2);
    PhaseLogged(SetDeadline(cfg, s2).w.trace, Emit(TokenRenewed));
  }

  lemma RenewIfDueShape(cfg: Config, s: State, ctrl: nat)
    requires ctrl < |s.w.links| && PhaseOf(s.w.trace) == InSession
    ensures PhaseOf(RenewIfDue(cfg, s, ctrl).w.trace) == InSession
  {
    hide PhaseOf, Renew;
    var s1, s2 := s.Tick(), s.Tick().Tick();
    PhaseLogged(s2.w.trace, Checked(s1.w.now, s2.w.now, s.expiryWall));
    var s3 := s2.Log(Checked(s1.w.now, s2.w.now, s.expiryWall));
    RenewShape(cfg, s3, ctrl);
  }

  lemma IterateShape(cfg: Config, s: State, ctrl: nat)
    requires ctrl < |s.w.links| && PhaseOf(s.w.trace) == InSession
    ensures var (t, goesOn) := Iterate(cfg, s, ctrl);
            PhaseOf(t.w.trace) == if goesOn then InSession else Parting
  {
    hide PhaseOf, PhaseStep, RenewIfDue, PingIfDue, HandleControl;
    RenewIfDueShape(cfg, s, ctrl);
    var s0 := RenewIfDue(cfg, s, ctrl);
    PingShape(s0, ctrl);
    var s1 := PingIfDue(s0, ctrl);
    RecvShape(s1, ctrl);
    var (w, m) := s1.w.Recv(ctrl);
    var s2 := s1.(w := w);
    LostShape(s2);
    if m.Ok? && m.value.kind.Text? {
      HandleControlShape(cfg, s2, ctrl, m.value.payload);
    }
  }

  /** Pings keep a pace of half a minute, counted from the connection and from each other. */
  lemma PingsPaced(cfg: Config, s: State, ctrl: nat)
    requires ctrl < |s.w.links|
    ensures var now, t := s.Tick().w.now.mono, PingIfDue(s, ctrl);
            && t.w.trace == s.w.trace + (if now >= s.nextPing then [Pinged(ctrl)] else [])
            && t.nextPing == if now >= s.nextPing then now + 30000 else s.nextPing
    ensures var (t, status) := CtrlConnect(cfg, s);
            status.Ok? ==> t.nextPing == t.w.now.mono + 30000
  {
  }

  lemma PingShape(s: State, ctrl: nat)
    requires ctrl < |s.w.links| && PhaseOf(s.w.trace) == InSession
    ensures PhaseOf(PingIfDue(s, ctrl).w.trace) == InSession
  {
    hide PhaseOf;
    PhaseLogged(s.w.trace, Pinged(ctrl));
  }

  lemma RecvShape(s: State, link: nat)
    requires link < |s.w.links| && PhaseOf(s.w.trace) == InSession
    ensures PhaseOf(s.w.Recv(link).0.trace) == InSession
  {
    hide PhaseOf;
    PhaseLogged(s.w.trace, Received(link, s.w.Recv(link).1));
  }

  lemma LostShape(s: State)
    requires PhaseOf(s.w.trace) == InSession
    ensures PhaseOf(s.Log(Emit(Disconnected)).w.trace) == Parting
  {
    hide PhaseOf;
    PhaseLogged(s.w.trace, Emit(Disconnected));
  }

  lemma HandleControlShape(cfg: Config, s: State, ctrl: nat, text: Bytes)
    requires ctrl < |s.w.links| && PhaseOf(s.w.trace) == InSession
    ensures PhaseOf(HandleControl(cfg, s, ctrl, text).w.trace) == InSession
  {
    hide PhaseOf, AuditOf, SourceOf, OneTimeline, HandleControl;
    HandleControlKeeps(Bounds(cfg.ttl, 0, 0, 0), cfg, s, ctrl, text);
  }

  lemma {:induction false} SessionShape(cfg: Config, s: State, ctrl: nat)
    requires ctrl < |s.w.links| && PhaseOf(s.w.trace) == InSession
    ensures PhaseOf(Session(cfg, s, ctrl).w.trace) == Parting
    decreases |s.w.stops|
  {
    hide PhaseOf, Iterate;
    var (w, stop) := s.w.Ask();
    PhaseLogged(s.w.trace, Asked(stop));
    if !stop {
      var s1 := s.(w := w);
      IterateShape(cfg, s1, ctrl);
      var (s2, goesOn) := Iterate(cfg, s1, ctrl);
      if goesOn {
        SessionShape(cfg, s2, ctrl);
      }
    }
  }

  lemma EndShape(s: State, ctrl: nat)
    requires PhaseOf(s.w.trace) == Parting
    ensures PhaseOf(EndSession(s, ctrl).w.trace) == Outside(0)
  {
    hide PhaseOf, AuditOf;
    var (w, stop) := s.w.Ask();
    PhaseLogged(s.w.trace, Asked(stop));
    PhaseLogged(s.(w := w, ctrl := None).w.trace, SaidGoodbye(ctrl));
  }

  lemma ConnectShape(cfg: Config, s: State, k: nat)
    requires PhaseOf(s.w.trace) == Trying(k)
    ensures PhaseOf(CtrlConnect(cfg, s).0.w.trace) == Trying(k)
  {
    hide PhaseOf, AuditOf;
    var (s1, token) := MakeToken(cfg, s);
    PhaseLogged(s.w.trace, Minted(s1.w.now, token));
    if token != [] {
      var (w, r) := s1.w.Dial(ForControl, Some(token));
      PhaseLogged(s1.w.trace, Dialled(ForControl, Some(token), ChannelOf(r)));
      if r.Ok? {
        var s2 := s1.(w := w, ctrl := Some(r.value));
        PhaseLogged(s2.Tick().w.trace, DeadlineSet(s2.Tick().w.now));
      }
    }
  }

  /** A backoff is slept out in full unless a stop is asked for. */
  lemma {:induction false} WaitOutShape(s: State, waited: nat, budget: nat, k: nat)
    requires PhaseOf(s.w.trace) == if waited < budget then Waiting(k, budget - waited) else Outside(k + 1)
    ensures PhaseOf(WaitOut(s, waited, budget).w.trace) == Outside(k + 1)
    decreases budget - waited
  {
    hide PhaseOf, AuditOf;
    if waited < budget {
      var (w, stop) := s.w.Ask();
      PhaseLogged(s.w.trace, Asked(stop));
      if !stop {
        PhaseLogged(s.(w := w).w.trace, Slept);
        WaitOutShape(s.(w := w).Log(Slept), waited + 100, budget, k);
      }
    }
  }

  lemma BudgetGrows(k: nat)
    ensures Budget(0) == 1000 && NextBackoff(Budget(k)) == Budget(k + 1)
  {
    assert Pow2(k + 1) == 2 * Pow2(k);
    assert Pow2(3) == 8 by { assert Pow2(1) == 2; }
    assert Pow2(5) == 32;
    assert Pow2(6) == 64;
    if k >= 6 {
      Pow2Grows(k, 6);
    } else {
      Pow2Grows(5, k);
    }
  }

  lemma {:induction false} Pow2Grows(k: nat, n: nat)
    requires k >= n
    ensures Pow2(k) >= Pow2(n)
  {
    if k > n {
      Pow2Grows(k - 1, n);
    }
  }

  lemma BeginShape(s: State, k: nat)
    requires PhaseOf(s.w.trace) == Outside(k)
    ensures var (w, stop) := s.w.Ask();
            if stop then PhaseOf(w.Log(Emit(Stopped)).trace) == Finished
            else PhaseOf(w.Log(Emit(Connecting)).trace) == Trying(k)
  {
    hide PhaseOf;
    var (w, stop) := s.w.Ask();
    PhaseLogged(s.w.trace, Asked(stop));
    PhaseLogged(w.trace, Emit(if stop then Stopped else Connecting));
  }

  lemma AttemptedShape(s: State, k: nat)
    requires PhaseOf(s.w.trace) == Trying(k)
    ensures PhaseOf(s.Log(Emit(Connected)).w.trace) == InSession
    ensures PhaseOf(s.Log(Emit(ConnectFailed)).Log(Backoff(Budget(k))).w.trace) == Waiting(k, Budget(k))
  {
    hide PhaseOf, Budget;
    PhaseLogged(s.w.trace, Emit(Connected));
    PhaseLogged(s.w.trace, Emit(ConnectFailed));
    PhaseLogged(s.Log(Emit(ConnectFailed)).w.trace, Backoff(Budget(k)));
  }

  /**
   Every run that returns alternates attempts to connect with sessions and ends
   stopped: a failed attempt is followed by a backoff of min(1000 * 2^k, 64000)
   ms after the k-th failure in a row, slept out unless a stop is asked for; a
   session ends disconnected, or because a stop was asked for.
   */
  lemma {:induction false} RunShape(cfg: Config, s: State, backoff: nat, k: nat)
    requires PhaseOf(s.w.trace) == Outside(k) && backoff == Budget(k)
    ensures PhaseOf(Run(cfg, s, backoff).w.trace) == Finished
    decreases |s.w.stops|
  {
    hide PhaseOf, PhaseStep, CtrlConnect, Session, WaitOut, EndSession, Budget, NextBackoff;
    BudgetGrows(k);
    BeginShape(s, k);
    var (w, stop) := s.w.Ask();
    var s1 := s.(w := w);
    if !stop {
      var s0 := s1.Log(Emit(Connecting));
      ConnectShape(cfg, s0, k);
      var (s2, status) := CtrlConnect(cfg, s0);
      AttemptedShape(s2, k);
      if status.Err? {
        var s4 := s2.Log(Emit(ConnectFailed)).Log(Backoff(backoff));
        WaitOutShape(s4, 0, backoff, k);
        RunShape(cfg, WaitOut(s4, 0, backoff), NextBackoff(backoff), k + 1);
      } else {
        var ctrl := |s1.w.links|;
        var s3 := s2.Log(Emit(Connected));
        SessionShape(cfg, s3, ctrl);
        EndShape(Session(cfg, s3, ctrl), ctrl);
        RunShape(cfg, EndSession(Session(cfg, s3, ctrl), ctrl), 1000, 0);
      }
    }
  }
}
