/** Over every run, what the listener answers is what its handler said. */
module RelayHandler {
  import opened Common
  import opened RelayWorld
  import opened RelaySpec
  import Messages
  import Json
  import JsonText

  // --------------------------------------------------- what leaves it alone

  /** The responses to the requests handled, in order. */
  function Responses(t: Trace): seq<Response> {
    if t == [] then []
    else
      var a := t[|t| - 1];
      Responses(t[..|t| - 1]) + if a.Handled? then [a.call.response] else []
  }

  lemma ResponseLogged(t: Trace, a: Action)
    ensures Responses(t + [a]) == Responses(t) + if a.Handled? then [a.call.response] else []
  {
    assert (t + [a])[..|t|] == t;
  }

  /** The handler was not asked, and no request was handled. */
  ghost predicate Quiet(v: World, w: World) {
    w.answers == v.answers && Responses(w.trace) == Responses(v.trace)
  }

  lemma LogQuiet(v: World, a: Action)
    requires !a.Handled?
    ensures Quiet(v, v.Log(a))
  {
    ResponseLogged(v.trace, a);
  }

  lemma AskQuiet(v: World)
    ensures Quiet(v, v.Ask().0)
  {
    ResponseLogged(v.trace, Asked(v.Ask().1));
  }

  lemma SendQuiet(v: World, link: nat, cause: Cause, m: Message)
    requires link < |v.links|
    ensures Quiet(v, v.Send(link, cause, m).0)
  {
    ResponseLogged(v.trace, Sent(link, cause, m, v.Send(link, cause, m).1));
  }

  lemma RecvQuiet(v: World, link: nat)
    requires link < |v.links|
    ensures Quiet(v, v.Recv(link).0)
  {
    ResponseLogged(v.trace, Received(link, v.Recv(link).1));
  }

  lemma DialQuiet(v: World, purpose: Purpose, token: Option<Bytes>)
    ensures Quiet(v, v.Dial(purpose, token).0)
  {
    ResponseLogged(v.trace, Dialled(purpose, token, ChannelOf(v.Dial(purpose, token).1)));
  }

  lemma MintQuiet(cfg: Config, s: State)
    ensures Quiet(s.w, MakeToken(cfg, s).0.w)
  {
    ResponseLogged(s.w.trace, Minted(s.Tick().w.now, MakeToken(cfg, s).1));
  }

  lemma DeadlineQuiet(cfg: Config, s: State)
    ensures Quiet(s.w, SetDeadline(cfg, s).w)
  {
    ResponseLogged(s.w.trace, DeadlineSet(s.Tick().w.now));
  }

  lemma ConnectQuiet(cfg: Config, s: State)
    ensures Quiet(s.w, CtrlConnect(cfg, s).0.w)
  {
    hide Responses, MakeToken, SetDeadline;
    MintQuiet(cfg, s);
    var (s1, token) := MakeToken(cfg, s);
    DialQuiet(s1.w, ForControl, Some(token));
    var (w, r) := s1.w.Dial(ForControl, Some(token));
    if r.Ok? {
      DeadlineQuiet(cfg, s1.(w := w, ctrl := Some(r.value)));
    }
  }

  lemma RenewQuiet(cfg: Config, s: State, ctrl: nat)
    requires ctrl < |s.w.links|
    ensures Quiet(s.w, Renew(cfg, s, ctrl).w)
  {
    hide Responses, MakeToken, SetDeadline, RenewMessage;
    MintQuiet(cfg, s);
    var (s1, token) := MakeToken(cfg, s);
    LogQuiet(s1.w, NotRenewed);
    SendQuiet(s1.w, ctrl, Renewal, RenewMessage(token));
    var s2 := s1.(w := s1.w.Send(ctrl, Renewal, RenewMessage(token)).0);
    DeadlineQuiet(cfg, s2);
    LogQuiet(SetDeadline(cfg, s2).w, Emit(TokenRenewed));
  }

  lemma HeadQuiet(cfg: Config, s: State, ctrl: nat)
    requires ctrl < |s.w.links|
    ensures Quiet(s.w, PingIfDue(RenewIfDue(cfg, s, ctrl), ctrl).w)
  {
    hide Responses, Renew;
    var a, c := s.Tick(), s.Tick().Tick();
    LogQuiet(c.w, Checked(a.w.now, c.w.now, s.expiryWall));
    RenewQuiet(cfg, c.Log(Checked(a.w.now, c.w.now, s.expiryWall)), ctrl);
    ResponseLogged(RenewIfDue(cfg, s, ctrl).w.trace, Pinged(ctrl));
  }

  lemma SendResponseQuiet(s: State, link: nat, id: Bytes, r: Response)
    requires link < |s.w.links|
    ensures Quiet(s.w, SendResponse(s, link, id, r).0.w)
  {
    hide Responses, ResponseText;
    SendQuiet(s.w, link, Reply, ResponseText(id, r));
    SendQuiet(s.w.Send(link, Reply, ResponseText(id, r)).0, link, Reply, Messages.Message(Messages.Binary, r.body));
  }

  lemma RendezvousQuiet(cfg: Config, s: State, address: Bytes)
    ensures Quiet(s.w, RendezvousConnect(cfg, s, address).0.w)
  {
    hide Responses, MakeToken;
    var (w, route) := s.w.NextRoute();
    var s1 := s.(w := w);
    LogQuiet(w, AddressRefused);
    if route.Usable? {
      MintQuiet(cfg, s1);
      var (s2, token) := if route.carriesToken then (s1, []) else MakeToken(cfg, s1);
      DialQuiet(s2.w, ForRendezvous(address), if token == [] then None else Some(token));
    }
  }

  lemma DeliverQuiet(cfg: Config, s: State, link: nat, pr: ParsedRequest, r: Response, onControl: bool)
    requires link < |s.w.links|
    ensures Quiet(s.w, Deliver(cfg, s, link, pr, r, onControl).0.w)
  {
    hide Responses, SendResponse, RendezvousConnect;
    SendResponseQuiet(s, link, pr.id, r);
    if NeedsRendezvous(onControl, |r.body|, pr.address.Some?) {
      RendezvousQuiet(cfg, s, pr.address.value);
      var (s1, rws) := RendezvousConnect(cfg, s, pr.address.value);
      var over := if rws.Ok? then rws.value else link;
      SendResponseQuiet(s1, over, pr.id, r);
      LogQuiet(SendResponse(s1, over, pr.id, r).0.w, SaidGoodbye(over));
    }
  }

  lemma ReadBodyQuiet(s: State, link: nat, expected: bool)
    requires link < |s.w.links|
    ensures Quiet(s.w, ReadBody(s, link, expected).0.w)
  {
    RecvQuiet(s.w, link);
  }

  // ------------------------------------------------------ what the handler says

  /** What is answered when the handler's answers are these: the `i`-th of them, or an error. */
  function Said(hasHandler: bool, answers: seq<Answer>, i: nat): Response {
    if !hasHandler then Response(501, Ascii("Not Implemented"), [], [])
    else if i < |answers| && answers[i].Some? then answers[i].value
    else Response(500, Ascii("Internal Server Error"), [], [])
  }

  function Later(answers: seq<Answer>, n: nat): seq<Answer> {
    if n <= |answers| then answers[n..] else []
  }

  /** From `v` to `w` the handler was asked once for each request handled, and each was answered as it said. */
  ghost predicate Heeds(hasHandler: bool, v: World, w: World) {
    var rs, qs := Responses(v.trace), Responses(w.trace);
    && |rs| <= |qs| && qs[..|rs|] == rs
    && (forall i :: |rs| <= i < |qs| ==> qs[i] == Said(hasHandler, v.answers, i - |rs|))
    && w.answers == if hasHandler then Later(v.answers, |qs| - |rs|) else v.answers
  }

  lemma QuietHeeds(h: bool, v: World, w: World)
    requires Quiet(v, w)
    ensures Heeds(h, v, w)
  {
    hide Responses;
  }

  lemma HeedsTwice(h: bool, u: World, v: World, w: World)
    requires Heeds(h, u, v) && Heeds(h, v, w)
    ensures Heeds(h, u, w)
  {
    hide Responses, Said, Later;
    var rs, qs, ps := Responses(u.trace), Responses(v.trace), Responses(w.trace);
    assert ps[..|rs|] == ps[..|qs|][..|rs|];
    forall i | |rs| <= i < |ps| ensures ps[i] == Said(h, u.answers, i - |rs|) {
      if i < |qs| {
        assert ps[i] == ps[..|qs|][i];
      } else {
        LaterReply(h, u.answers, |qs| - |rs|, i - |qs|);
      }
    }
    LaterTwice(u.answers, |qs| - |rs|, |ps| - |qs|);
  }

  lemma LaterReply(h: bool, answers: seq<Answer>, n: nat, i: nat)
    ensures Said(h, if h then Later(answers, n) else answers, i) == Said(h, answers, n + i)
  {
  }

  lemma LaterTwice(answers: seq<Answer>, m: nat, n: nat)
    ensures Later(Later(answers, m), n) == Later(answers, m + n)
  {
  }

  lemma QuietThen(h: bool, u: World, v: World, w: World)
    requires Quiet(u, v) && Heeds(h, v, w)
    ensures Heeds(h, u, w)
  {
    QuietHeeds(h, u, v);
    HeedsTwice(h, u, v, w);
  }

  lemma ThenQuiet(h: bool, u: World, v: World, w: World)
    requires Heeds(h, u, v) && Quiet(v, w)
    ensures Heeds(h, u, w)
  {
    QuietHeeds(h, v, w);
    HeedsTwice(h, u, v, w);
  }

  /** Asking the handler and recording the request as handled. */
  lemma HandledHeeds(cfg: Config, s: State, c: Call)
    requires c.response == Invoke(cfg, s).1
    ensures Heeds(cfg.hasHandler, s.w, Invoke(cfg, s).0.Log(Handled(c)).w)
  {
    hide Responses, Ascii;
    var t := Invoke(cfg, s).0.Log(Handled(c)).w.trace;
    ResponseLogged(s.w.trace, Handled(c));
    assert Responses(t) == Responses(s.w.trace) + [c.response];
    AnswerIs(cfg, s);
  }

  lemma AnswerIs(cfg: Config, s: State)
    ensures Invoke(cfg, s).1 == Said(cfg.hasHandler, s.w.answers, 0)
    ensures Invoke(cfg, s).0.w.answers == if cfg.hasHandler then Later(s.w.answers, 1) else s.w.answers
  {
    hide Ascii;
  }

  lemma ServeHeeds(cfg: Config, s: State, link: nat, node: Json.Value, onControl: bool)
    requires link < |s.w.links|
    ensures Heeds(cfg.hasHandler, s.w, Serve(cfg, s, link, node, onControl).w)
  {
    hide Responses, Heeds, Invoke, Deliver, ReadBody, ParseRequest, RequestOf;
    var pr := ParseRequest(node);
    ReadBodyQuiet(s, link, pr.hasBody);
    var (s1, body) := ReadBody(s, link, pr.hasBody);
    if body.Err? {
      LogQuiet(s1.w, Emit(RequestError));
      QuietHeeds(cfg.hasHandler, s.w, s1.Log(Emit(RequestError)).w);
    } else {
      var (s2, resp) := Invoke(cfg, s1);
      var c := Call(link, onControl, pr.address, RequestOf(node, body.value), resp);
      HandledHeeds(cfg, s1, c);
      var s3 := s2.Log(Handled(c));
      QuietThen(cfg.hasHandler, s.w, s1.w, s3.w);
      DeliverQuiet(cfg, s3, link, pr, resp, onControl);
      var (s4, ok) := Deliver(cfg, s3, link, pr, resp, onControl);
      LogQuiet(s4.w, Emit(if ok then ResponseSent(resp.code) else ResponseError));
      ThenQuiet(cfg.hasHandler, s.w, s3.w, s4.Log(Emit(if ok then ResponseSent(resp.code) else ResponseError)).w);
    }
  }

  lemma OfferHeeds(cfg: Config, s: State, address: Bytes)
    ensures Heeds(cfg.hasHandler, s.w, Offer(cfg, s, address).w)
  {
    hide Responses, Heeds, RendezvousConnect, Serve, RequestIn;
    LogQuiet(s.w, Emit(Rendezvous));
    var s0 := s.Log(Emit(Rendezvous));
    RendezvousQuiet(cfg, s0, address);
    var (s1, rws) := RendezvousConnect(cfg, s0, address);
    if rws.Err? {
      LogQuiet(s1.w, Emit(RendezvousFailed));
      QuietHeeds(cfg.hasHandler, s.w, s1.Log(Emit(RendezvousFailed)).w);
    } else {
      var link := rws.value;
      RecvQuiet(s1.w, link);
      var (w, m) := s1.w.Recv(link);
      var s2 := s1.(w := w);
      var inner := if m.Ok? && m.value.kind == Messages.Text then RequestIn(m.value.payload) else None;
      QuietHeeds(cfg.hasHandler, s.w, s2.w);
      var s3 := if inner.None? then s2 else Serve(cfg, s2, link, inner.value, false);
      if inner.Some? {
        ServeHeeds(cfg, s2, link, inner.value, false);
        HeedsTwice(cfg.hasHandler, s.w, s2.w, s3.w);
      }
      LogQuiet(s3.w, SaidGoodbye(link));
      ThenQuiet(cfg.hasHandler, s.w, s3.w, s3.Log(SaidGoodbye(link)).w);
    }
  }

  lemma LogHeeds(h: bool, v: World, a: Action)
    requires !a.Handled?
    ensures Heeds(h, v, v.Log(a))
  {
    LogQuiet(v, a);
    QuietHeeds(h, v, v.Log(a));
  }

  lemma HandleControlHeeds(cfg: Config, s: State, ctrl: nat, text: Bytes)
    requires ctrl < |s.w.links|
    ensures Heeds(cfg.hasHandler, s.w, HandleControl(cfg, s, ctrl, text).w)
  {
    hide Heeds, Serve, Offer, FindCi, ParseRequest;
    LogHeeds(cfg.hasHandler, s.w, Emit(Unparsable));
    LogHeeds(cfg.hasHandler, s.w, Emit(AcceptIgnored));
    LogHeeds(cfg.hasHandler, s.w, Emit(Control));
    LogHeeds(cfg.hasHandler, s.w, Emit(RequestError));
    var root := JsonText.ParseDocument(text);
    if root.Ok? {
      var req := FindCi(root.value, Ascii("request"));
      if req.Some? {
        ServeHeeds(cfg, s, ctrl, req.value, true);
        var address := ParseRequest(req.value).address;
        if address.Some? {
          OfferHeeds(cfg, s, address.value);
        }
      }
    }
  }

  // ----------------------------------------------------------- over whole runs

  lemma IterateHeeds(cfg: Config, s: State, ctrl: nat)
    requires ctrl < |s.w.links|
    ensures Heeds(cfg.hasHandler, s.w, Iterate(cfg, s, ctrl).0.w)
  {
    hide Responses, Heeds, RenewIfDue, PingIfDue, HandleControl;
    HeadQuiet(cfg, s, ctrl);
    var s1 := PingIfDue(RenewIfDue(cfg, s, ctrl), ctrl);
    RecvQuiet(s1.w, ctrl);
    var (w, m) := s1.w.Recv(ctrl);
    var s2 := s1.(w := w);
    QuietHeeds(cfg.hasHandler, s.w, s2.w);
    LogQuiet(s2.w, Emit(Disconnected));
    QuietHeeds(cfg.hasHandler, s.w, s2.Log(Emit(Disconnected)).w);
    if m.Ok? && m.value.kind.Text? {
      HandleControlHeeds(cfg, s2, ctrl, m.value.payload);
      HeedsTwice(cfg.hasHandler, s.w, s2.w, HandleControl(cfg, s2, ctrl, m.value.payload).w);
    }
  }

  lemma {:induction false} SessionHeeds(cfg: Config, s: State, ctrl: nat)
    requires ctrl < |s.w.links|
    ensures Heeds(cfg.hasHandler, s.w, Session(cfg, s, ctrl).w)
    decreases |s.w.stops|
  {
    hide Responses, Heeds, Iterate;
    AskQuiet(s.w);
    var (w, stop) := s.w.Ask();
    var s1 := s.(w := w);
    QuietHeeds(cfg.hasHandler, s.w, s1.w);
    if !stop {
      IterateHeeds(cfg, s1, ctrl);
      var (s2, goesOn) := Iterate(cfg, s1, ctrl);
      HeedsTwice(cfg.hasHandler, s.w, s1.w, s2.w);
      if goesOn {
        SessionHeeds(cfg, s2, ctrl);
        HeedsTwice(cfg.hasHandler, s.w, s2.w, Session(cfg, s2, ctrl).w);
      }
    }
  }

  lemma {:induction false} WaitOutQuiet(s: State, waited: nat, budget: nat)
    ensures Quiet(s.w, WaitOut(s, waited, budget).w)
    decreases budget - waited
  {
    hide Responses;
    if waited < budget {
      AskQuiet(s.w);
      var (w, stop) := s.w.Ask();
      if !stop {
        LogQuiet(w, Slept);
        WaitOutQuiet(s.(w := w).Log(Slept), waited + 100, budget);
      }
    }
  }

  lemma EndQuiet(s: State, ctrl: nat)
    ensures Quiet(s.w, EndSession(s, ctrl).w)
  {
    hide Responses;
    AskQuiet(s.w);
    LogQuiet(s.w.Ask().0, SaidGoodbye(ctrl));
  }

  /**
   Over every run, with a handler, the responses to the requests handled are in
   order the handler's answers, each asked for once, and an internal server error
   where it declined; without one, each says that nothing is implemented.
   */
  lemma {:induction false} RunHeeds(cfg: Config, s: State, backoff: nat)
    ensures Heeds(cfg.hasHandler, s.w, Run(cfg, s, backoff).w)
    decreases |s.w.stops|
  {
    hide Responses, Heeds, CtrlConnect, Session, WaitOut, EndSession;
    var h := cfg.hasHandler;
    AskQuiet(s.w);
    var (w, stop) := s.w.Ask();
    var s1 := s.(w := w);
    LogQuiet(w, Emit(Stopped));
    if stop {
      QuietHeeds(h, s.w, s1.Log(Emit(Stopped)).w);
    } else {
      LogQuiet(w, Emit(Connecting));
      var s0 := s1.Log(Emit(Connecting));
      ConnectQuiet(cfg, s0);
      var (s2, status) := CtrlConnect(cfg, s0);
      if status.Err? {
        LogQuiet(s2.w, Emit(ConnectFailed));
        var s3 := s2.Log(Emit(ConnectFailed));
        LogQuiet(s3.w, Backoff(backoff));
        var s4 := s3.Log(Backoff(backoff));
        WaitOutQuiet(s4, 0, backoff);
        var s5 := WaitOut(s4, 0, backoff);
        RunHeeds(cfg, s5, NextBackoff(backoff));
        QuietThen(h, s.w, s5.w, Run(cfg, s5, NextBackoff(backoff)).w);
      } else {
        var ctrl := |s1.w.links|;
        LogQuiet(s2.w, Emit(Connected));
        var s3 := s2.Log(Emit(Connected));
        SessionHeeds(cfg, s3, ctrl);
        var s4 := Session(cfg, s3, ctrl);
        QuietThen(h, s.w, s3.w, s4.w);
        EndQuiet(s4, ctrl);
        var s5 := EndSession(s4, ctrl);
        ThenQuiet(h, s.w, s4.w, s5.w);
        RunHeeds(cfg, s5, 1000);
        HeedsTwice(h, s.w, s5.w, Run(cfg, s5, 1000).w);
      }
    }
  }
}
