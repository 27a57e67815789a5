/** Every request received is handled as it came in and answered once, on the right channel. */
module RelayAnswers {
  import opened Common
  import opened RelayWorld
  import opened RelaySpec
  import opened RelayMonitors
  import opened RelayRuns
  import Messages
  import Json
  import JsonText

  /** Nothing is owed. */
  ghost predicate Settled(s: State) {
    OwedOf(s.w.trace) == Nothing && Placed(s)
  }

  /** The control text just received, and all that is owed is what it calls for. */
  ghost predicate Attending(s: State, ctrl: nat, text: Bytes) {
    && Placed(s) && Home(s) == Some(ctrl)
    && OwedOf(s.w.trace) == Summons(true, ctrl, Ok(Messages.Message(Messages.Text, text)))
  }

  /** The channel may be read. */
  ghost predicate Readable(s: State, link: nat) {
    var x := SourceOf(s.w.trace);
    link < x.dialled && (x.control.Some? ==> link >= x.control.value)
  }

  /** A request just received, and all that is owed is that it is served. */
  ghost predicate Ready(s: State, link: nat, node: Json.Value, onControl: bool) {
    && Placed(s) && Readable(s, link)
    && OwedOf(s.w.trace) == Due(link, onControl, node, if ParseRequest(node).hasBody then None else Some([]))
  }

  predicate Unrelated(a: Action) {
    && !a.Handled? && !a.Dialled? && !a.Received? && !(a.Sent? && a.cause == Reply)
    && !(a.Emit? && (a.event.ResponseSent? || a.event.ResponseError?))
  }

  lemma LogSettled(s: State, a: Action)
    requires Settled(s) && Unrelated(a)
    ensures Settled(s.Log(a)) && Home(s.Log(a)) == Home(s)
  {
    hide OwedOf, SourceOf, Summons, ResponseText, CallFor, Big;
    OwedLogged(s.w.trace, a);
  }

  lemma SameSettled(s: State, t: State)
    requires Settled(s) && t.w.trace == s.w.trace && |t.w.links| >= |s.w.links|
    ensures Settled(t) && Home(t) == Home(s)
  {
  }

  // --------------------------------------------------- answering one request

  lemma ReplySent(s: State, link: nat, m: Message)
    requires link < |s.w.links|
    ensures var (w, ok) := s.w.Send(link, Reply, m);
            |w.links| == |s.w.links| && OwedOf(w.trace) == OwedStep(OwedOf(s.w.trace), Sent(link, Reply, m, ok))
  {
    OwedLogged(s.w.trace, Sent(link, Reply, m, s.w.Send(link, Reply, m).1));
  }

  /** The text goes out on the right channel, and the body at once after it; the outcome is left to be reported. */
  lemma SendResponseAnswers(s: State, c: Call, stage: Stage, link: nat)
    requires link < |s.w.links| && OwedOf(s.w.trace) == Text(c, stage) && RightLink(c, stage, link)
    ensures var (t, ok) := SendResponse(s, link, c.request.id, c.response);
            OwedOf(t.w.trace) == ReportDue(c, link, ok)
  {
    hide OwedOf, ResponseText;
    var text := ResponseText(c.request.id, c.response);
    ReplySent(s, link, text);
    var (w, ok) := s.w.Send(link, Reply, text);
    if ok && c.response.body != [] {
      ReplySent(s.(w := w), link, Messages.Message(Messages.Binary, c.response.body));
    }
  }

  lemma MintOwed(cfg: Config, s: State)
    ensures OwedOf(MakeToken(cfg, s).0.w.trace) == OwedStep(OwedOf(s.w.trace), Minted(s.Tick().w.now, MakeToken(cfg, s).1))
  {
    OwedLogged(s.w.trace, Minted(s.Tick().w.now, MakeToken(cfg, s).1));
  }

  lemma DialOwed(s: State, purpose: Purpose, token: Option<Bytes>)
    requires Placed(s)
    ensures var (w, r) := s.w.Dial(purpose, token);
            && OwedOf(w.trace) == OwedStep(OwedOf(s.w.trace), Dialled(purpose, token, ChannelOf(r)))
            && (r.Ok? ==> SourceOf(w.trace).dialled == r.value + 1)
  {
    hide OwedOf, SourceOf, OwedStep;
    var r := s.w.Dial(purpose, token).1;
    OwedLogged(s.w.trace, Dialled(purpose, token, ChannelOf(r)));
  }

  /** What a rendezvous attempt does to what is owed, when a mint does nothing. */
  lemma RendezvousOwed(cfg: Config, s: State, address: Bytes)
    requires Placed(s) && forall i, k :: OwedStep(OwedOf(s.w.trace), Minted(i, k)) == OwedOf(s.w.trace)
    ensures var (t, r) := RendezvousConnect(cfg, s, address); r.Ok? ==> SourceOf(t.w.trace).dialled == r.value + 1
    ensures var (t, r) := RendezvousConnect(cfg, s, address);
            || (r.Err? && OwedOf(t.w.trace) == OwedStep(OwedOf(s.w.trace), AddressRefused))
            || exists shown ::
                 OwedOf(t.w.trace) == OwedStep(OwedOf(s.w.trace), Dialled(ForRendezvous(address), shown, ChannelOf(r)))
  {
    hide OwedOf, SourceOf, OwedStep, MakeToken;
    var (w, route) := s.w.NextRoute();
    var s1 := s.(w := w);
    OwedLogged(s1.w.trace, AddressRefused);
    if route.Usable? {
      MintOwed(cfg, s1);
      MintKeeps(Bounds(cfg.ttl, 0, 0, 0), cfg, s1);
      var (s2, token) := if route.carriesToken then (s1, []) else MakeToken(cfg, s1);
      DialOwed(s2, ForRendezvous(address), if token == [] then None else Some(token));
    }
  }

  /** A rendezvous that is needed is either reached or refused. */
  lemma RendezvousForAnswer(cfg: Config, s: State, c: Call)
    requires Placed(s) && OwedOf(s.w.trace) == Text(c, Untried) && Big(c)
    ensures var (t, r) := RendezvousConnect(cfg, s, c.address.value);
            OwedOf(t.w.trace) == Text(c, if r.Ok? then Reached(r.value) else Refused)
  {
    hide OwedOf, RendezvousConnect;
    RendezvousOwed(cfg, s, c.address.value);
  }

  /** Delivering a response leaves only its outcome to be reported, whichever sends fail. */
  lemma DeliverAnswers(cfg: Config, s: State, c: Call, pr: ParsedRequest)
    requires c.link < |s.w.links| && Placed(s) && OwedOf(s.w.trace) == Text(c, Untried)
    requires c.request.id == pr.id && c.address == pr.address
    ensures var (t, ok) := Deliver(cfg, s, c.link, pr, c.response, c.onControl);
            OwedOf(t.w.trace) == Report(c, None, ok)
  {
    hide OwedOf, SendResponse, RendezvousConnect;
    if !Big(c) {
      SendResponseAnswers(s, c, Untried, c.link);
    } else {
      RendezvousForAnswer(cfg, s, c);
      var (s1, rws) := RendezvousConnect(cfg, s, c.address.value);
      if rws.Err? {
        SendResponseAnswers(s1, c, Refused, c.link);
      } else {
        SendResponseAnswers(s1, c, Reached(rws.value), rws.value);
        OwedLogged(SendResponse(s1, rws.value, pr.id, c.response).0.w.trace, SaidGoodbye(rws.value));
      }
    }
  }

  /** Once its body is read, a request may be handled; if there is none, it may be refused. */
  lemma ReadBodyOwed(s: State, link: nat, node: Json.Value, onControl: bool)
    requires link < |s.w.links| && Ready(s, link, node, onControl)
    ensures var (t, body) := ReadBody(s, link, ParseRequest(node).hasBody);
            && Placed(t)
            && OwedOf(t.w.trace) == if body.Ok? then Due(link, onControl, node, Some(body.value)) else Refusal
  {
    hide OwedOf, ParseRequest, SourceOf;
    if ParseRequest(node).hasBody {
      OwedLogged(s.w.trace, Received(link, s.w.Recv(link).1));
    }
  }

  /** A request whose body can be read is handled once, as it came in, and answered at once. */
  lemma ServeAnswers(cfg: Config, s: State, link: nat, node: Json.Value, onControl: bool)
    requires link < |s.w.links| && Ready(s, link, node, onControl)
    ensures Settled(Serve(cfg, s, link, node, onControl)) && Home(Serve(cfg, s, link, node, onControl)) == Home(s)
  {
    hide OwedOf, SourceOf, Deliver, ParseRequest, FindCi, ReadBody, RequestOf, RequestIn, Invoke;
    ServeKeeps(Bounds(cfg.ttl, 0, 0, 0), cfg, s, link, node, onControl);
    var pr := ParseRequest(node);
    ReadBodyOwed(s, link, node, onControl);
    var (s1, body) := ReadBody(s, link, pr.hasBody);
    if body.Err? {
      OwedLogged(s1.w.trace, Emit(RequestError));
    } else {
      var (s2, resp) := Invoke(cfg, s1);
      var c := CallFor(link, onControl, node, body.value, resp);
      assert c.request.id == pr.id by { IdOfRequest(node, body.value); }
      OwedLogged(s2.w.trace, Handled(c));
      var s3 := s2.Log(Handled(c));
      DeliverAnswers(cfg, s3, c, pr);
      var (s4, ok) := Deliver(cfg, s3, link, pr, resp, onControl);
      OwedLogged(s4.w.trace, Emit(if ok then ResponseSent(resp.code) else ResponseError));
    }
  }

  lemma IdOfRequest(node: Json.Value, body: Bytes)
    ensures RequestOf(node, body).id == ParseRequest(node).id
  {
  }

  /** An offer's address is dialled. */
  lemma RendezvousCalled(cfg: Config, s: State, address: Bytes)
    requires Placed(s) && OwedOf(s.w.trace) == Calling(address)
    ensures var (t, r) := RendezvousConnect(cfg, s, address);
            && OwedOf(t.w.trace) == (if r.Ok? then Nothing else Uncalled)
            && Placed(t) && Home(t) == Home(s)
            && (r.Ok? ==> Readable(t, r.value) && Home(t) != Some(r.value))
  {
    hide OwedOf, SourceOf, RendezvousConnect;
    RendezvousConnectKeeps(Bounds(cfg.ttl, 0, 0, 0), cfg, s, address);
    RendezvousOwed(cfg, s, address);
  }

  lemma RecvOwed(s: State, link: nat)
    requires link < |s.w.links| && Settled(s) && Readable(s, link)
    ensures var t := s.(w := s.w.Recv(link).0);
            && Placed(t) && SourceOf(t.w.trace) == SourceOf(s.w.trace)
            && OwedOf(t.w.trace) == Summons(Home(s) == Some(link), link, s.w.Recv(link).1)
  {
    OwedLogged(s.w.trace, Received(link, s.w.Recv(link).1));
  }

  lemma SummonsIs(onControl: bool, link: nat, r: Result<Message>)
    requires !onControl
    ensures var inner := if r.Ok? && r.value.kind == Messages.Text then RequestIn(r.value.payload) else None;
            Summons(onControl, link, r) ==
            if inner.None? then Nothing
            else Due(link, onControl, inner.value, if ParseRequest(inner.value).hasBody then None else Some([]))
  {
  }

  /** The channel has just delivered an offer, and all that is owed is that it is taken up. */
  ghost predicate Offered(s: State, address: Bytes) {
    Placed(s) && OwedOf(s.w.trace) == Invited(address)
  }

  /** An offer is taken up by dialling its address; the request that comes over the rendezvous is served. */
  lemma OfferAnswers(cfg: Config, s: State, address: Bytes)
    requires Offered(s, address)
    ensures Settled(Offer(cfg, s, address)) && Home(Offer(cfg, s, address)) == Home(s)
  {
    hide OwedOf, SourceOf, RendezvousConnect, Serve, RequestIn;
    OwedLogged(s.w.trace, Emit(Rendezvous));
    var s0 := s.Log(Emit(Rendezvous));
    RendezvousCalled(cfg, s0, address);
    var (s1, rws) := RendezvousConnect(cfg, s0, address);
    OwedLogged(s1.w.trace, Emit(RendezvousFailed));
    if rws.Ok? {
      var link := rws.value;
      RecvOwed(s1, link);
      var (w, m) := s1.w.Recv(link);
      var s2 := s1.(w := w);
      SummonsIs(false, link, m);
      var inner := if m.Ok? && m.value.kind == Messages.Text then RequestIn(m.value.payload) else None;
      if inner.Some? {
        ServeAnswers(cfg, s2, link, inner.value, false);
      }
      LogSettled(if inner.None? then s2 else Serve(cfg, s2, link, inner.value, false), SaidGoodbye(link));
    }
  }

  lemma HandleControlSettled(cfg: Config, s: State, ctrl: nat, text: Bytes)
    requires ctrl < |s.w.links| && Attending(s, ctrl, text)
    ensures Settled(HandleControl(cfg, s, ctrl, text)) && Home(HandleControl(cfg, s, ctrl, text)) == Home(s)
  {
    hide OwedOf, SourceOf, Serve, Offer, FindCi, ParseRequest;
    if Settled(s) {
      LogSettled(s, Emit(Unparsable));
      LogSettled(s, Emit(AcceptIgnored));
      LogSettled(s, Emit(Control));
    }
    var root := JsonText.ParseDocument(text);
    if root.Ok? {
      var req := FindCi(root.value, Ascii("request"));
      if req.Some? {
        var pr := ParseRequest(req.value);
        if pr.method_.Some? {
          ServeAnswers(cfg, s, ctrl, req.value, true);
        } else if pr.address.Some? {
          OfferAnswers(cfg, s, pr.address.value);
        } else {
          OwedLogged(s.w.trace, Emit(RequestError));
        }
      }
    }
  }

  // ----------------------------------------------------------- over whole runs

  lemma TickSettled(s: State)
    requires Settled(s)
    ensures Settled(s.Tick()) && Home(s.Tick()) == Home(s)
  {
  }

  lemma MintSettled(cfg: Config, s: State)
    requires Settled(s)
    ensures Settled(MakeToken(cfg, s).0) && Home(MakeToken(cfg, s).0) == Home(s)
  {
    OwedLogged(s.w.trace, Minted(s.Tick().w.now, MakeToken(cfg, s).1));
  }

  lemma SetDeadlineSettled(cfg: Config, s: State)
    requires Settled(s)
    ensures Settled(SetDeadline(cfg, s)) && Home(SetDeadline(cfg, s)) == Home(s)
  {
    OwedLogged(s.w.trace, DeadlineSet(s.Tick().w.now));
  }

  lemma RenewSettled(cfg: Config, s: State, ctrl: nat)
    requires ctrl < |s.w.links| && Settled(s)
    ensures Settled(Renew(cfg, s, ctrl)) && Home(Renew(cfg, s, ctrl)) == Home(s)
  {
    hide RenewMessage, MakeToken, SetDeadline, OwedOf, SourceOf;
    MintSettled(cfg, s);
    var (s1, token) := MakeToken(cfg, s);
    LogSettled(s1, NotRenewed);
    var (w, ok) := s1.w.Send(ctrl, Renewal, RenewMessage(token));
    OwedLogged(s1.w.trace, Sent(ctrl, Renewal, RenewMessage(token), ok));
    var s2 := s1.(w := w);
    SetDeadlineSettled(cfg, s2);
    LogSettled(SetDeadline(cfg, s2), Emit(TokenRenewed));
  }

  lemma IterateSettled(cfg: Config, s: State, ctrl: nat)
    requires ctrl < |s.w.links| && Settled(s) && Home(s) == Some(ctrl)
    ensures Settled(Iterate(cfg, s, ctrl).0) && Home(Iterate(cfg, s, ctrl).0) == Some(ctrl)
  {
    hide OwedOf, SourceOf, Placed, Readable, RequestIn, ParseRequest, Renew, HandleControl;
    var a, c := s.Tick(), s.Tick().Tick();
    TickSettled(s);
    TickSettled(a);
    LogSettled(c, Checked(a.w.now, c.w.now, s.expiryWall));
    RenewSettled(cfg, c.Log(Checked(a.w.now, c.w.now, s.expiryWall)), ctrl);
    var s0 := RenewIfDue(cfg, s, ctrl);
    PingSettled(s0, ctrl);
    var s1 := PingIfDue(s0, ctrl);
    ControlReadable(s1, ctrl);
    RecvOwed(s1, ctrl);
    var (w, m) := s1.w.Recv(ctrl);
    var s2 := s1.(w := w);
    if m.Ok? && m.value.kind.Text? {
      HandleControlSettled(cfg, s2, ctrl, m.value.payload);
    } else {
      LogSettled(s2, Emit(Disconnected));
    }
  }

  lemma ControlReadable(s: State, ctrl: nat)
    requires Placed(s) && Home(s) == Some(ctrl)
    ensures Readable(s, ctrl)
  {
  }

  lemma PingSettled(s: State, ctrl: nat)
    requires Settled(s) && ctrl < |s.w.links|
    ensures Settled(PingIfDue(s, ctrl)) && Home(PingIfDue(s, ctrl)) == Home(s)
  {
    hide OwedOf, SourceOf, Summons, ResponseText, CallFor, Big;
    OwedLogged(s.w.trace, Pinged(ctrl));
  }

  lemma AskSettled(s: State)
    requires Settled(s)
    ensures Settled(s.(w := s.w.Ask().0)) && Home(s.(w := s.w.Ask().0)) == Home(s)
  {
    OwedLogged(s.w.trace, Asked(s.w.Ask().1));
  }

  lemma {:induction false} SessionSettled(cfg: Config, s: State, ctrl: nat)
    requires ctrl < |s.w.links| && Settled(s) && Home(s) == Some(ctrl)
    ensures Settled(Session(cfg, s, ctrl))
    decreases |s.w.stops|
  {
    hide Settled, Home, Iterate;
    AskSettled(s);
    var (w, stop) := s.w.Ask();
    if !stop {
      IterateSettled(cfg, s.(w := w), ctrl);
      var (s2, goesOn) := Iterate(cfg, s.(w := w), ctrl);
      if goesOn {
        SessionSettled(cfg, s2, ctrl);
      }
    }
  }

  lemma ConnectSettled(cfg: Config, s: State)
    requires Settled(s)
    ensures Settled(CtrlConnect(cfg, s).0)
    ensures CtrlConnect(cfg, s).1.Ok? ==> Home(CtrlConnect(cfg, s).0) == Some(|s.w.links|)
  {
    hide SetDeadline, MakeToken, OwedOf, SourceOf;
    MintSettled(cfg, s);
    var (s1, token) := MakeToken(cfg, s);
    var (w, r) := s1.w.Dial(ForControl, Some(token));
    OwedLogged(s1.w.trace, Dialled(ForControl, Some(token), ChannelOf(r)));
    if r.Ok? {
      SetDeadlineSettled(cfg, s1.(w := w, ctrl := Some(r.value)));
    }
  }

  lemma {:induction false} WaitOutSettled(s: State, waited: nat, budget: nat)
    requires Settled(s)
    ensures Settled(WaitOut(s, waited, budget))
    decreases budget - waited
  {
    hide Settled;
    if waited < budget {
      AskSettled(s);
      var (w, stop) := s.w.Ask();
      if !stop {
        LogSettled(s.(w := w), Slept);
        WaitOutSettled(s.(w := w).Log(Slept), waited + 100, budget);
      }
    }
  }

  /**
   Over every run, a request received on the control channel with its method, or
   received on a rendezvous, is handled before anything else happens: with its
   own fields and the binary message received right after it, if it announces a
   body, or refused if that does not come. Nothing else is handled. A request
   handled is followed by exactly one response text with its id and, if that
   could be sent, at once on the same channel by its body if and only if it has
   one; the channel is a fresh rendezvous exactly when the request came on
   control, the body is over 61440 octets, an address was offered and the dial
   succeeded; and it is reported as sent if and only if each of these sends
   succeeded. At the end nothing is owed.
   */
  lemma {:induction false} RunAnswers(cfg: Config, s: State, backoff: nat)
    requires Settled(s)
    ensures Settled(Run(cfg, s, backoff))
    decreases |s.w.stops|
  {
    hide Settled, Home, CtrlConnect, Session, WaitOut;
    AskSettled(s);
    var (w, stop) := s.w.Ask();
    var s1 := s.(w := w);
    LogSettled(s1, Emit(Stopped));
    if !stop {
      LogSettled(s1, Emit(Connecting));
      var s0 := s1.Log(Emit(Connecting));
      ConnectSettled(cfg, s0);
      var (s2, status) := CtrlConnect(cfg, s0);
      if status.Err? {
        LogSettled(s2, Emit(ConnectFailed));
        var s3 := s2.Log(Emit(ConnectFailed));
        LogSettled(s3, Backoff(backoff));
        WaitOutSettled(s3.Log(Backoff(backoff)), 0, backoff);
        RunAnswers(cfg, WaitOut(s3.Log(Backoff(backoff)), 0, backoff), NextBackoff(backoff));
      } else {
        var ctrl := |s1.w.links|;
        LogSettled(s2, Emit(Connected));
        var s3 := s2.Log(Emit(Connected));
        SessionSettled(cfg, s3, ctrl);
        EndSettled(Session(cfg, s3, ctrl), ctrl);
        RunAnswers(cfg, EndSession(Session(cfg, s3, ctrl), ctrl), 1000);
      }
    }
  }

  lemma EndSettled(s: State, ctrl: nat)
    requires Settled(s)
    ensures Settled(EndSession(s, ctrl))
  {
    hide Settled;
    AskSettled(s);
    var s1 := s.(w := s.w.Ask().0);
    SameSettled(s1, s1.(ctrl := None));
    LogSettled(s1.(ctrl := None), SaidGoodbye(ctrl));
  }
}
