/** Over a well-formed control stream, requests are served in the order they arrive. */
module RelayOrder {
  import opened Common
  import opened RelayWorld
  import opened RelaySpec
  import opened RelayMonitors
  import Messages
  import Json

  // ------------------------------------------------------- what stays aside

  /** The control channel's coming messages, and the requests handled on it, are as before. */
  ghost predicate Aside(ctrl: nat, s: State, t: State) {
    && ctrl < |s.w.links| <= |t.w.links|
    && t.w.links[ctrl].inbox == s.w.links[ctrl].inbox
    && Calls(t.w.trace, ctrl) == Calls(s.w.trace, ctrl)
  }

  lemma AsideTwice(ctrl: nat, s: State, t: State, u: State)
    requires Aside(ctrl, s, t) && Aside(ctrl, t, u)
    ensures Aside(ctrl, s, u)
  {
    hide Calls;
  }

  lemma CallLogged(t: Trace, a: Action, link: nat)
    ensures Calls(t + [a], link) ==
            Calls(t, link) + if a.Handled? && a.call.link == link then [a.call.request] else []
  {
    assert (t + [a])[..|t|] == t;
  }

  lemma LogAside(ctrl: nat, s: State, a: Action)
    requires ctrl < |s.w.links| && (a.Handled? ==> a.call.link != ctrl)
    ensures Aside(ctrl, s, s.Log(a))
  {
    CallLogged(s.w.trace, a, ctrl);
  }

  lemma SendAside(ctrl: nat, s: State, link: nat, cause: Cause, m: Message)
    requires ctrl < |s.w.links| && link < |s.w.links|
    ensures Aside(ctrl, s, s.(w := s.w.Send(link, cause, m).0))
  {
    CallLogged(s.w.trace, Sent(link, cause, m, s.w.Send(link, cause, m).1), ctrl);
  }

  lemma RecvAside(ctrl: nat, s: State, link: nat)
    requires ctrl < |s.w.links| && link < |s.w.links| && link != ctrl
    ensures Aside(ctrl, s, s.(w := s.w.Recv(link).0))
  {
    CallLogged(s.w.trace, Received(link, s.w.Recv(link).1), ctrl);
  }

  lemma SameAside(ctrl: nat, s: State, t: State)
    requires ctrl < |s.w.links| && t.w.links == s.w.links && t.w.trace == s.w.trace
    ensures Aside(ctrl, s, t)
  {
  }

  lemma MintAside(ctrl: nat, cfg: Config, s: State)
    requires ctrl < |s.w.links|
    ensures Aside(ctrl, s, MakeToken(cfg, s).0)
  {
    CallLogged(s.w.trace, Minted(s.Tick().w.now, MakeToken(cfg, s).1), ctrl);
  }

  lemma DeadlineAside(ctrl: nat, cfg: Config, s: State)
    requires ctrl < |s.w.links|
    ensures Aside(ctrl, s, SetDeadline(cfg, s))
  {
    CallLogged(s.w.trace, DeadlineSet(s.Tick().w.now), ctrl);
  }

  lemma RenewAside(cfg: Config, s: State, ctrl: nat)
    requires ctrl < |s.w.links|
    ensures Aside(ctrl, s, Renew(cfg, s, ctrl))
  {
    hide Aside, MakeToken, SetDeadline, RenewMessage;
    MintAside(ctrl, cfg, s);
    var (s1, token) := MakeToken(cfg, s);
    LogAside(ctrl, s1, NotRenewed);
    AsideTwice(ctrl, s, s1, s1.Log(NotRenewed));
    var (w, ok) := s1.w.Send(ctrl, Renewal, RenewMessage(token));
    var s2 := s1.(w := w);
    SendAside(ctrl, s1, ctrl, Renewal, RenewMessage(token));
    AsideTwice(ctrl, s, s1, s2);
    DeadlineAside(ctrl, cfg, s2);
    AsideTwice(ctrl, s, s2, SetDeadline(cfg, s2));
    LogAside(ctrl, SetDeadline(cfg, s2), Emit(TokenRenewed));
    AsideTwice(ctrl, s, SetDeadline(cfg, s2), SetDeadline(cfg, s2).Log(Emit(TokenRenewed)));
  }

  lemma HeadAside(cfg: Config, s: State, ctrl: nat)
    requires ctrl < |s.w.links|
    ensures Aside(ctrl, s, PingIfDue(RenewIfDue(cfg, s, ctrl), ctrl))
  {
    hide Aside, Renew;
    var a, c := s.Tick(), s.Tick().Tick();
    SameAside(ctrl, s, c);
    var s3 := c.Log(Checked(a.w.now, c.w.now, s.expiryWall));
    LogAside(ctrl, c, Checked(a.w.now, c.w.now, s.expiryWall));
    AsideTwice(ctrl, s, c, s3);
    RenewAside(cfg, s3, ctrl);
    AsideTwice(ctrl, s, s3, Renew(cfg, s3, ctrl));
    var s0 := RenewIfDue(cfg, s, ctrl);
    SameAside(ctrl, s0, s0.Tick());
    AsideTwice(ctrl, s, s0, s0.Tick());
    var s4 := s0.Tick().(w := s0.Tick().w.Ping(ctrl), nextPing := s0.Tick().w.now.mono + PING_INTERVAL);
    PingAside(ctrl, s0.Tick(), s4);
    AsideTwice(ctrl, s, s0.Tick(), s4);
  }

  lemma PingAside(ctrl: nat, s: State, t: State)
    requires ctrl < |s.w.links| && t.w == s.w.Ping(ctrl)
    ensures Aside(ctrl, s, t)
  {
    CallLogged(s.w.trace, Pinged(ctrl), ctrl);
  }

  lemma SendResponseAside(ctrl: nat, s: State, link: nat, id: Bytes, r: Response)
    requires ctrl < |s.w.links| && link < |s.w.links|
    ensures Aside(ctrl, s, SendResponse(s, link, id, r).0)
  {
    hide Aside, ResponseText;
    var text := ResponseText(id, r);
    var s1 := s.(w := s.w.Send(link, Reply, text).0);
    SendAside(ctrl, s, link, Reply, text);
    var body := Messages.Message(Messages.Binary, r.body);
    SendAside(ctrl, s1, link, Reply, body);
    AsideTwice(ctrl, s, s1, s1.(w := s1.w.Send(link, Reply, body).0));
  }

  lemma DialAside(ctrl: nat, s: State, address: Bytes, token: Option<Bytes>)
    requires ctrl < |s.w.links|
    ensures Aside(ctrl, s, s.(w := s.w.Dial(ForRendezvous(address), token).0))
  {
    var r := s.w.Dial(ForRendezvous(address), token).1;
    CallLogged(s.w.trace, Dialled(ForRendezvous(address), token, ChannelOf(r)), ctrl);
  }

  lemma RendezvousAside(ctrl: nat, cfg: Config, s: State, address: Bytes)
    requires ctrl < |s.w.links|
    ensures Aside(ctrl, s, RendezvousConnect(cfg, s, address).0)
  {
    hide Aside, MakeToken;
    var (w, route) := s.w.NextRoute();
    var s1 := s.(w := w);
    SameAside(ctrl, s, s1);
    LogAside(ctrl, s1, AddressRefused);
    AsideTwice(ctrl, s, s1, s1.Log(AddressRefused));
    if route.Usable? {
      MintAside(ctrl, cfg, s1);
      AsideTwice(ctrl, s, s1, MakeToken(cfg, s1).0);
      var (s2, token) := if route.carriesToken then (s1, []) else MakeToken(cfg, s1);
      var shown := if token == [] then None else Some(token);
      DialAside(ctrl, s2, address, shown);
      AsideTwice(ctrl, s, s2, s2.(w := s2.w.Dial(ForRendezvous(address), shown).0));
    }
  }

  lemma DeliverAside(ctrl: nat, cfg: Config, s: State, link: nat, pr: ParsedRequest, r: Response, onControl: bool)
    requires ctrl < |s.w.links| && link < |s.w.links|
    ensures Aside(ctrl, s, Deliver(cfg, s, link, pr, r, onControl).0)
  {
    hide Aside, SendResponse, RendezvousConnect;
    SendResponseAside(ctrl, s, link, pr.id, r);
    var address := OrElse(pr.address, []);
    RendezvousAside(ctrl, cfg, s, address);
    var (s1, rws) := RendezvousConnect(cfg, s, address);
    var over := if rws.Ok? then rws.value else link;
    SendResponseAside(ctrl, s1, over, pr.id, r);
    var s2 := SendResponse(s1, over, pr.id, r).0;
    AsideTwice(ctrl, s, s1, s2);
    LogAside(ctrl, s2, SaidGoodbye(over));
    AsideTwice(ctrl, s, s2, s2.Log(SaidGoodbye(over)));
  }

  /** What follows the reading of a request's body. */
  function Answered(cfg: Config, s1: State, link: nat, node: Json.Value, onControl: bool, body: Bytes): State
    requires link < |s1.w.links|
  {
    var pr := ParseRequest(node);
    var (s2, resp) := Invoke(cfg, s1);
    var s3 := s2.Log(Handled(Call(link, onControl, pr.address, RequestOf(node, body), resp)));
    var (s4, ok) := Deliver(cfg, s3, link, pr, resp, onControl);
    s4.Log(Emit(if ok then ResponseSent(resp.code) else ResponseError))
  }

  lemma ServeSplits(cfg: Config, s: State, link: nat, node: Json.Value, onControl: bool)
    requires link < |s.w.links|
    ensures var (s1, body) := ReadBody(s, link, ParseRequest(node).hasBody);
            Serve(cfg, s, link, node, onControl) ==
            if body.Err? then s1.Log(Emit(RequestError)) else Answered(cfg, s1, link, node, onControl, body.value)
  {
    hide Deliver, FindCi, Invoke;
  }

  lemma AnsweredCalls(ctrl: nat, cfg: Config, s: State, link: nat, node: Json.Value, onControl: bool, body: Bytes)
    requires ctrl < |s.w.links| && link < |s.w.links|
    ensures var t := Answered(cfg, s, link, node, onControl, body);
            && ctrl < |t.w.links|
            && t.w.links[ctrl].inbox == s.w.links[ctrl].inbox
            && Calls(t.w.trace, ctrl) ==
               Calls(s.w.trace, ctrl) + if link == ctrl then [RequestOf(node, body)] else []
  {
    hide Deliver, FindCi, Calls, ParseRequest;
    var pr := ParseRequest(node);
    var (s2, resp) := Invoke(cfg, s);
    var handled := Handled(Call(link, onControl, pr.address, RequestOf(node, body), resp));
    CallLogged(s2.w.trace, handled, ctrl);
    var s3 := s2.Log(handled);
    DeliverAside(ctrl, cfg, s3, link, pr, resp, onControl);
    var (s4, ok) := Deliver(cfg, s3, link, pr, resp, onControl);
    LogAside(ctrl, s4, Emit(if ok then ResponseSent(resp.code) else ResponseError));
  }

  lemma ServeElsewhere(ctrl: nat, cfg: Config, s: State, link: nat, node: Json.Value, onControl: bool)
    requires ctrl < |s.w.links| && link < |s.w.links| && link != ctrl
    ensures Aside(ctrl, s, Serve(cfg, s, link, node, onControl))
  {
    hide Answered, Calls, Serve;
    ServeSplits(cfg, s, link, node, onControl);
    var (s1, body) := ReadBody(s, link, ParseRequest(node).hasBody);
    RecvAside(ctrl, s, link);
    assert Aside(ctrl, s, s1);
    if body.Err? {
      LogAside(ctrl, s1, Emit(RequestError));
    } else {
      AnsweredCalls(ctrl, cfg, s1, link, node, onControl, body.value);
    }
  }

  lemma OfferAside(ctrl: nat, cfg: Config, s: State, address: Bytes)
    requires ctrl < |s.w.links|
    ensures Aside(ctrl, s, Offer(cfg, s, address))
  {
    hide Aside, RendezvousConnect, Serve, RequestIn;
    var s0 := s.Log(Emit(Rendezvous));
    LogAside(ctrl, s, Emit(Rendezvous));
    AsideLinks(ctrl, s, s0);
    RendezvousAside(ctrl, cfg, s0, address);
    var (s1, rws) := RendezvousConnect(cfg, s0, address);
    AsideTwice(ctrl, s, s0, s1);
    AsideLinks(ctrl, s, s1);
    if rws.Err? {
      LogAside(ctrl, s1, Emit(RendezvousFailed));
      AsideTwice(ctrl, s, s1, s1.Log(Emit(RendezvousFailed)));
    } else {
      var link := rws.value;
      RecvAside(ctrl, s1, link);
      var (w, m) := s1.w.Recv(link);
      var s2 := s1.(w := w);
      AsideTwice(ctrl, s, s1, s2);
      var inner := if m.Ok? && m.value.kind == Messages.Text then RequestIn(m.value.payload) else None;
      var s3 := if inner.None? then s2 else Serve(cfg, s2, link, inner.value, false);
      if inner.Some? {
        ServeElsewhere(ctrl, cfg, s2, link, inner.value, false);
        AsideTwice(ctrl, s, s2, s3);
      }
      AsideLinks(ctrl, s, s3);
      LogAside(ctrl, s3, SaidGoodbye(link));
      AsideTwice(ctrl, s, s3, s3.Log(SaidGoodbye(link)));
    }
  }

  lemma AsideLinks(ctrl: nat, s: State, t: State)
    requires Aside(ctrl, s, t)
    ensures ctrl < |t.w.links|
  {
  }

  // ------------------------------------------------------------ the stream

  /** A control message, after some timeouts, with the body that directly follows it if it announces one. */
  datatype Item = Item(pauses: nat, text: Bytes, body: Option<Bytes>)

  /** The request a control text asks to serve here: one that carries its method. */
  function Requested(text: Bytes): Option<Json.Value> {
    match RequestIn(text)
    case None => None
    case Some(node) => if ParseRequest(node).method_.None? then None else Some(node)
  }

  predicate WellFormed(i: Item) {
    i.body.Some? <==> Requested(i.text).Some? && ParseRequest(Requested(i.text).value).hasBody
  }

  function Delivery(i: Item): seq<Result<Message>> {
    [Ok(Messages.Message(Messages.Text, i.text))] +
    match i.body
    case None => []
    case Some(b) => [Ok(Messages.Message(Messages.Binary, b))]
  }

  /** The stream once the session loop has taken one message, and what it has served. */
  function Rest(items: seq<Item>): seq<Item>
    requires items != []
  {
    if items[0].pauses > 0 then [items[0].(pauses := items[0].pauses - 1)] + items[1..] else items[1..]
  }

  function Taken(items: seq<Item>): nat
    requires items != []
  {
    if items[0].pauses > 0 then 0 else 1
  }

  /** What the control channel's `recv` calls return for such a stream, and then `end`. */
  function Arrivals(items: seq<Item>, end: seq<Result<Message>>): seq<Result<Message>>
    decreases |items|, if items == [] then 0 else items[0].pauses
  {
    if items == [] then end
    else if items[0].pauses > 0 then [Err(Timeout)] + Arrivals(Rest(items), end)
    else Delivery(items[0]) + Arrivals(items[1..], end)
  }

  function AskedFor(i: Item): seq<Request> {
    match Requested(i.text)
    case None => []
    case Some(node) => [RequestOf(node, OrElse(i.body, []))]
  }

  /** The requests such a stream asks for, with their own bodies. */
  function Expected(items: seq<Item>): seq<Request> {
    if items == [] then [] else AskedFor(items[0]) + Expected(items[1..])
  }

  /** A control message with its body next in the channel is served, body and all. */
  lemma HandleControlServes(cfg: Config, s: State, ctrl: nat, i: Item, rest: seq<Result<Message>>)
    requires ctrl < |s.w.links| && WellFormed(i)
    requires s.w.links[ctrl].inbox == Delivery(i)[1..] + rest
    ensures var t := HandleControl(cfg, s, ctrl, i.text);
            && ctrl < |t.w.links|
            && t.w.links[ctrl].inbox == rest
            && Calls(t.w.trace, ctrl) == Calls(s.w.trace, ctrl) + AskedFor(i)
  {
    hide Calls, Answered, Serve, Offer, FindCi, ParseRequest;
    LogAside(ctrl, s, Emit(Unparsable));
    LogAside(ctrl, s, Emit(AcceptIgnored));
    LogAside(ctrl, s, Emit(Control));
    LogAside(ctrl, s, Emit(RequestError));
    forall address {
      OfferAside(ctrl, cfg, s, address);
    }
    var node := Requested(i.text);
    if node.None? {
      assert Delivery(i)[1..] + rest == rest;
    } else {
      ServeSplits(cfg, s, ctrl, node.value, true);
      var (s1, body) := ReadBody(s, ctrl, ParseRequest(node.value).hasBody);
      CallLogged(s.w.trace, Received(ctrl, s.w.Recv(ctrl).1), ctrl);
      assert s1.w.links[ctrl].inbox == rest && body == Ok(OrElse(i.body, []));
      AnsweredCalls(ctrl, cfg, s1, ctrl, node.value, true, body.value);
    }
  }

  lemma ExpectedOne(i: Item)
    ensures Expected([i]) == AskedFor(i)
  {
    assert [i][1..] == [];
  }

  /** One pass of the session loop, told by the message it receives. */
  lemma IterateReceives(cfg: Config, s: State, ctrl: nat)
    requires ctrl < |s.w.links|
    ensures var inbox := s.w.links[ctrl].inbox;
            var m := if inbox == [] then Err(Closed) else inbox[0];
            var (t, goesOn) := Iterate(cfg, s, ctrl);
            && ctrl < |t.w.links|
            && (m == Err(Timeout) ==>
                  goesOn && t.w.links[ctrl].inbox == inbox[1..] && Calls(t.w.trace, ctrl) == Calls(s.w.trace, ctrl))
            && ((m.Err? && m != Err(Timeout)) || (m.Ok? && m.value.kind.Close?) ==>
                  !goesOn && Calls(t.w.trace, ctrl) == Calls(s.w.trace, ctrl))
            && (m.Ok? && m.value.kind.Text? ==>
                  goesOn && exists s2: State ::
                    && ctrl < |s2.w.links| && s2.w.links[ctrl].inbox == inbox[1..]
                    && Calls(s2.w.trace, ctrl) == Calls(s.w.trace, ctrl)
                    && t == HandleControl(cfg, s2, ctrl, m.value.payload))
  {
    hide Calls, RenewIfDue, PingIfDue, HandleControl;
    HeadAside(cfg, s, ctrl);
    var s1 := PingIfDue(RenewIfDue(cfg, s, ctrl), ctrl);
    var (w, m) := s1.w.Recv(ctrl);
    CallLogged(s1.w.trace, Received(ctrl, m), ctrl);
    var s2 := s1.(w := w);
    LogAside(ctrl, s2, Emit(Disconnected));
    if m.Ok? && m.value.kind.Text? {
      assert s2.w.links[ctrl].inbox == s.w.links[ctrl].inbox[1..];
    }
  }

  /** What may come after a stream: timeouts, and then the peer's close or the loss of the channel. */
  ghost predicate Ended(end: seq<Result<Message>>) {
    end == [] || (if end[0].Ok? then end[0].value.kind.Close? else end[0] == Err(Timeout) ==> Ended(end[1..]))
  }

  /** Does one more pass follow, when the stream is over? */
  predicate Idles(end: seq<Result<Message>>) {
    end != [] && end[0] == Err(Timeout)
  }

  lemma IterateServes(cfg: Config, s: State, ctrl: nat, items: seq<Item>, end: seq<Result<Message>>)
    requires ctrl < |s.w.links| && s.w.links[ctrl].inbox == Arrivals(items, end) && Ended(end)
    requires forall i :: 0 <= i < |items| ==> WellFormed(items[i])
    ensures var (t, goesOn) := Iterate(cfg, s, ctrl);
            && ctrl < |t.w.links|
            && (goesOn <==> items != [] || Idles(end))
            && (items != [] ==> t.w.links[ctrl].inbox == Arrivals(Rest(items), end))
            && (items == [] && goesOn ==> t.w.links[ctrl].inbox == end[1..])
            && Calls(t.w.trace, ctrl) ==
               Calls(s.w.trace, ctrl) + if items != [] then Expected(items[..Taken(items)]) else []
  {
    hide Calls, Iterate, HandleControl, Requested, Expected, WellFormed, Delivery;
    IterateReceives(cfg, s, ctrl);
    NothingExpected();
    var inbox := s.w.links[ctrl].inbox;
    if items == [] {
      assert inbox == end;
    } else if items[0].pauses > 0 {
      assert items[..0] == [];
      assert inbox[1..] == Arrivals(Rest(items), end);
    } else {
      var tail, t := Arrivals(items[1..], end), Iterate(cfg, s, ctrl).0;
      FirstDelivered(items, end, tail);
      var s2: State :|
        && ctrl < |s2.w.links| && s2.w.links[ctrl].inbox == inbox[1..]
        && Calls(s2.w.trace, ctrl) == Calls(s.w.trace, ctrl)
        && t == HandleControl(cfg, s2, ctrl, items[0].text);
      HandleControlServes(cfg, s2, ctrl, items[0], tail);
      assert items[..1] == [items[0]];
      ExpectedOne(items[0]);
    }
  }

  lemma FirstDelivered(items: seq<Item>, end: seq<Result<Message>>, tail: seq<Result<Message>>)
    requires items != [] && items[0].pauses == 0 && tail == Arrivals(items[1..], end)
    ensures Arrivals(items, end) != [] && Arrivals(items, end)[0] == Ok(Messages.Message(Messages.Text, items[0].text))
    ensures |Delivery(items[0])| >= 1 && Arrivals(items, end)[1..] == Delivery(items[0])[1..] + tail
  {
    hide Rest;
    var d := Delivery(items[0]);
    assert Arrivals(items, end) == d + tail;
    assert |d| >= 1 && d[0] == Ok(Messages.Message(Messages.Text, items[0].text)) by {
      assert items[0].body.None? || items[0].body.Some?;
    }
  }

  lemma {:induction false} ExpectedConcat(a: seq<Item>, c: seq<Item>)
    ensures Expected(a + c) == Expected(a) + Expected(c)
    decreases |a|
  {
    hide AskedFor, Expected;
    NothingExpected();
    if a == [] {
      assert a + c == c;
    } else {
      ExpectedConcat(a[1..], c);
      ExpectedFirst(a);
      ExpectedFirst(a + c);
      assert (a + c)[1..] == a[1..] + c;
      Reassociate(AskedFor(a[0]), Expected(a[1..]), Expected(c));
    }
  }

  lemma ExpectedFirst(items: seq<Item>)
    requires items != []
    ensures Expected(items) == AskedFor(items[0]) + Expected(items[1..])
  {
    hide Requested, RequestOf;
  }

  /** What is expected depends on the texts and bodies, not on the pauses. */
  lemma PauseIgnored(i: Item, j: Item, tail: seq<Item>)
    requires i.text == j.text && i.body == j.body
    ensures Expected([i] + tail) == Expected([j] + tail)
  {
    hide Requested, RequestOf;
    assert ([i] + tail)[1..] == tail && ([j] + tail)[1..] == tail;
  }

  lemma ExpectedOfRest(items: seq<Item>, k: nat)
    requires items != [] && k <= |Rest(items)|
    ensures Expected(items[..Taken(items)]) + Expected(Rest(items)[..k]) == Expected(items[..Taken(items) + k])
  {
    hide Expected;
    var less := Rest(items);
    if items[0].pauses > 0 {
      assert items[..0] == [];
      NothingExpected();
      if k > 0 {
        var tail := items[1..][..k - 1];
        assert less[..k] == [less[0]] + tail;
        assert items[..k] == [items[0]] + tail;
        PauseIgnored(less[0], items[0], tail);
      } else {
        assert less[..k] == [] && items[..k] == [];
      }
    } else {
      ExpectedConcat(items[..1], items[1..][..k]);
      assert items[..1] + items[1..][..k] == items[..1 + k];
    }
  }

  /** Served so far, served now, served later. */
  lemma Served(before: seq<Request>, items: seq<Item>, k: nat)
    requires items != [] && k <= |Rest(items)|
    ensures |Rest(items)| + Taken(items) == |items|
    ensures (before + Expected(items[..Taken(items)])) + Expected(Rest(items)[..k]) ==
            before + Expected(items[..Taken(items) + k])
  {
    hide Expected;
    ExpectedOfRest(items, k);
    Reassociate(before, Expected(items[..Taken(items)]), Expected(Rest(items)[..k]));
  }

  /**
   Over a control stream in which every announced body directly follows its
   request, a session hands the handler one request per method-carrying control
   message, in the order of arrival, each with its own fields and its own body:
   those of a prefix of the stream, and of all of it unless a stop was asked for.
   */
  lemma {:induction false} SessionServesInOrder(cfg: Config, s: State, ctrl: nat, items: seq<Item>, end: seq<Result<Message>>)
    returns (k: nat)
    requires ctrl < |s.w.links| && s.w.links[ctrl].inbox == Arrivals(items, end) && Ended(end)
    requires forall i :: 0 <= i < |items| ==> WellFormed(items[i])
    ensures k <= |items|
    ensures var t := Session(cfg, s, ctrl);
            && Calls(t.w.trace, ctrl) == Calls(s.w.trace, ctrl) + Expected(items[..k])
            && (k == |items| || (t.w.trace != [] && t.w.trace[|t.w.trace| - 1] == Asked(true)))
    decreases |s.w.stops|
  {
    hide Calls, Session, Iterate, Arrivals, WellFormed, Expected, Rest, Taken, Ended;
    SessionUnfolds(cfg, s, ctrl);
    var (w, stop) := s.w.Ask();
    CallLogged(s.w.trace, Asked(stop), ctrl);
    NothingExpected();
    k := 0;
    assert items[..0] == [];
    if items == [] {
      ArrivalsEnd(end);
      SessionIdles(cfg, s, ctrl, end);
    } else if !stop {
      var s1 := s.(w := w);
      IterateServes(cfg, s1, ctrl, items, end);
      RestWellFormed(items);
      var s2 := Iterate(cfg, s1, ctrl).0;
      var n := SessionServesInOrder(cfg, s2, ctrl, Rest(items), end);
      k := Taken(items) + n;
      Served(Calls(s.w.trace, ctrl), items, n);
    }
  }

  lemma SessionUnfolds(cfg: Config, s: State, ctrl: nat)
    requires ctrl < |s.w.links|
    ensures var (w, stop) := s.w.Ask();
            Session(cfg, s, ctrl) ==
            if stop then s.(w := w)
            else if Iterate(cfg, s.(w := w), ctrl).1 then Session(cfg, Iterate(cfg, s.(w := w), ctrl).0, ctrl)
            else Iterate(cfg, s.(w := w), ctrl).0
  {
    hide Iterate;
  }

  /** When the stream is over, nothing more is served. */
  lemma {:induction false} SessionIdles(cfg: Config, s: State, ctrl: nat, end: seq<Result<Message>>)
    requires ctrl < |s.w.links| && s.w.links[ctrl].inbox == end && Ended(end)
    ensures Calls(Session(cfg, s, ctrl).w.trace, ctrl) == Calls(s.w.trace, ctrl)
    decreases |s.w.stops|
  {
    hide Calls, Session, Iterate, Expected;
    SessionUnfolds(cfg, s, ctrl);
    var (w, stop) := s.w.Ask();
    CallLogged(s.w.trace, Asked(stop), ctrl);
    if !stop {
      var s1 := s.(w := w);
      ArrivalsEnd(end);
      IterateServes(cfg, s1, ctrl, [], end);
      var (s2, goesOn) := Iterate(cfg, s1, ctrl);
      if goesOn {
        SessionIdles(cfg, s2, ctrl, end[1..]);
      }
    }
  }

  lemma ArrivalsEnd(end: seq<Result<Message>>)
    ensures Arrivals([], end) == end
  {
  }

  lemma NothingExpected()
    ensures Expected([]) == []
  {
  }

  lemma RestWellFormed(items: seq<Item>)
    requires items != [] && forall i :: 0 <= i < |items| ==> WellFormed(items[i])
    ensures forall i :: 0 <= i < |Rest(items)| ==> WellFormed(Rest(items)[i])
  {
  }
}
