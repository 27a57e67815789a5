/** Over every run, each control channel's requests are served in turn, as they were received. */
module RelayTurns {
  import opened Common
  import opened RelayWorld
  import opened RelaySpec
  import opened RelayMonitors
  import opened RelayOrder
  import RelayAnswers
  import Messages
  import Json

  /** What the `recv` calls on a channel have returned, in order. */
  function Results(t: Trace, link: nat): seq<Result<Message>> {
    if t == [] then []
    else
      var a := t[|t| - 1];
      Results(t[..|t| - 1], link) + if a.Received? && a.link == link then [a.result] else []
  }

  /** The requests to serve for what a control channel delivered, and one whose body must come next. */
  datatype Tally = Tally(served: seq<Request>, awaiting: Option<Json.Value>)

  function Count(y: Tally, r: Result<Message>): Tally {
    match y.awaiting
    case Some(node) =>
      Tally(y.served + if IsBody(r) then [RequestOf(node, r.value.payload)] else [], None)
    case None =>
      match Summons(true, 0, r)
      case Due(_, _, node, Some(body)) => y.(served := y.served + [RequestOf(node, body)])
      case Due(_, _, node, None) => y.(awaiting := Some(node))
      case _ => y
  }

  predicate IsBody(r: Result<Message>) {
    r.Ok? && r.value.kind == Messages.Binary
  }

  function CountAll(y: Tally, rs: seq<Result<Message>>): Tally
    decreases |rs|
  {
    if rs == [] then y else CountAll(Count(y, rs[0]), rs[1..])
  }

  lemma {:induction false} CountOneMore(y: Tally, rs: seq<Result<Message>>, r: Result<Message>)
    ensures CountAll(y, rs + [r]) == Count(CountAll(y, rs), r)
    decreases |rs|
  {
    hide Count;
    if rs == [] {
      assert ([] + [r])[1..] == [] && CountAll(Count(y, r), []) == Count(y, r);
    } else {
      assert (rs + [r])[1..] == rs[1..] + [r];
      CountOneMore(Count(y, rs[0]), rs[1..], r);
    }
  }

  /** The requests a control channel asks to serve, in the order they were completed. */
  function Wanted(rs: seq<Result<Message>>): Tally {
    CountAll(Tally([], None), rs)
  }

  predicate DialsControl(a: Action, link: nat) {
    a.Dialled? && a.purpose == ForControl && a.reached == Some(link)
  }

  predicate WasControl(t: Trace, link: nat) {
    t != [] && (DialsControl(t[|t| - 1], link) || WasControl(t[..|t| - 1], link))
  }

  /** So far the requests handled are those wanted, but for the one that is due. */
  ghost predicate InTurn(t: Trace, link: nat) {
    var o, x, y := OwedOf(t), SourceOf(t), Wanted(Results(t, link));
    && (x.control.Some? ==> x.control.value < x.dialled)
    && (o.Due? ==> o.link < x.dialled && (o.onControl <==> x.control == Some(o.link)))
    && (link >= x.dialled ==> Results(t, link) == [] && Calls(t, link) == [] && !WasControl(t, link))
    && (WasControl(t, link) ==>
          && x.control.Some? && link <= x.control.value
          && (if o.Due? && o.link == link
              then x.control == Some(link) && y == WantedWhenDue(Calls(t, link), o)
              else y == Tally(Calls(t, link), None)))
  }

  ghost function WantedWhenDue(calls: seq<Request>, o: Owed): Tally
    requires o.Due?
  {
    match o.body
    case None => Tally(calls, Some(o.node))
    case Some(body) => Tally(calls + [RequestOf(o.node, body)], None)
  }

  lemma ResultLogged(t: Trace, a: Action, link: nat)
    ensures Results(t + [a], link) == Results(t, link) + if a.Received? && a.link == link then [a.result] else []
    ensures WasControl(t + [a], link) <==> WasControl(t, link) || DialsControl(a, link)
  {
    assert (t + [a])[..|t|] == t;
  }

  lemma NothingWanted()
    ensures Wanted([]) == Tally([], None)
  {
  }

  lemma WantedMore(rs: seq<Result<Message>>, r: Result<Message>)
    ensures Wanted(rs + [r]) == Count(Wanted(rs), r)
  {
    CountOneMore(Tally([], None), rs, r);
  }

  lemma InTurnStep(t: Trace, a: Action, link: nat)
    requires InTurn(t, link) && OwedOf(t + [a]) != Broken
    ensures InTurn(t + [a], link)
  {
    hide OwedOf, SourceOf, Calls, Results, RequestIn, ParseRequest, RequestOf, ResponseText, WasControl, Big, Wanted;
    hide Count, Summons;
    OwedLogged(t, a);
    CallLogged(t, a, link);
    ResultLogged(t, a, link);
    NothingWanted();
    assert Results(t, link) + [] == Results(t, link) && Calls(t, link) + [] == Calls(t, link);
    if a.Received? {
      ReceivedInTurn(t, a, link);
    }
  }

  lemma ReceivedInTurn(t: Trace, a: Action, link: nat)
    requires InTurn(t, link) && a.Received? && OwedOf(t + [a]) != Broken
    ensures InTurn(t + [a], link)
  {
    hide OwedOf, SourceOf, Calls, Results, RequestIn, ParseRequest, RequestOf, ResponseText, WasControl, Big, Wanted;
    OwedLogged(t, a);
    CallLogged(t, a, link);
    ResultLogged(t, a, link);
    assert Results(t, link) + [] == Results(t, link) && Calls(t, link) + [] == Calls(t, link);
    if a.link == link {
      WantedMore(Results(t, link), a.result);
    }
  }

  /** A trace with nothing amiss serves every control channel in turn. */
  lemma {:induction false} NothingAmiss(t: Trace, link: nat)
    requires OwedOf(t) != Broken
    ensures InTurn(t, link)
  {
    hide OwedOf, SourceOf, InTurn;
    if t == [] {
      EmptyInTurn(link);
    } else {
      var last := |t| - 1;
      assert t == t[..last] + [t[last]];
      OwedLogged(t[..last], t[last]);
      NothingAmiss(t[..last], link);
      InTurnStep(t[..last], t[last], link);
    }
  }

  lemma EmptyInTurn(link: nat)
    ensures InTurn([], link)
  {
  }

  /**
   Over every run, on every control channel it ever had, the requests handled
   are exactly those the channel delivered, in the order of their delivery, each
   with its own fields and the body received right after it: a method-carrying
   request is left out only if its announced body did not come next.
   */
  lemma RunServesInTurn(cfg: Config, s: State, backoff: nat, link: nat)
    requires s.w.trace == []
    ensures var t := Run(cfg, s, backoff).w.trace;
            WasControl(t, link) ==> Wanted(Results(t, link)) == Tally(Calls(t, link), None)
  {
    hide Run, WasControl, Calls;
    RelayAnswers.RunAnswers(cfg, s, backoff);
    NothingAmiss(Run(cfg, s, backoff).w.trace, link);
  }

  /** Every control channel of the run was served in turn. */
  ghost predicate AllInTurn(t: Trace) {
    forall link :: WasControl(t, link) ==> Wanted(Results(t, link)) == Tally(Calls(t, link), None)
  }

  lemma RunInTurn(cfg: Config, s: State, backoff: nat)
    requires s.w.trace == []
    ensures AllInTurn(Run(cfg, s, backoff).w.trace)
  {
    hide Run, WasControl, Calls, Results, Wanted;
    forall link | WasControl(Run(cfg, s, backoff).w.trace, link)
      ensures Wanted(Results(Run(cfg, s, backoff).w.trace, link)) == Tally(Calls(Run(cfg, s, backoff).w.trace, link), None)
    {
      RunServesInTurn(cfg, s, backoff, link);
    }
  }

  predicate BringsNothing(r: Result<Message>) {
    r.Err? || r.value.kind.Close?
  }

  lemma {:induction false} EndWanted(y: Tally, end: seq<Result<Message>>)
    requires y.awaiting.None? && forall r :: r in end ==> BringsNothing(r)
    ensures CountAll(y, end) == y
    decreases |end|
  {
    if end != [] {
      assert end[0] in end;
      EndWanted(y, end[1..]);
    }
  }

  /** What one control message, with its body, adds to the requests wanted. */
  lemma ItemWanted(before: seq<Request>, i: Item, rest: seq<Result<Message>>)
    requires WellFormed(i)
    ensures CountAll(Tally(before, None), Delivery(i) + rest) == CountAll(Tally(before + AskedFor(i), None), rest)
  {
    hide RequestIn, ParseRequest, RequestOf;
    var text, d := Ok(Messages.Message(Messages.Text, i.text)), Delivery(i);
    assert (d + rest)[0] == text;
    assert before + [] == before;
    var y := Count(Tally(before, None), text);
    if i.body.None? {
      assert (d + rest)[1..] == rest;
    } else {
      var body := Ok(Messages.Message(Messages.Binary, i.body.value));
      assert (d + rest)[1..] == [body] + rest && ([body] + rest)[1..] == rest;
    }
  }

  /** For a well-formed stream these are the requests expected of its items. */
  lemma {:induction false} ArrivalsWanted(items: seq<Item>, end: seq<Result<Message>>, before: seq<Request>)
    requires forall r :: r in end ==> BringsNothing(r)
    requires forall i :: 0 <= i < |items| ==> WellFormed(items[i])
    ensures CountAll(Tally(before, None), Arrivals(items, end)) == Tally(before + Expected(items), None)
    decreases |items|, if items == [] then 0 else items[0].pauses
  {
    hide WellFormed, Delivery, AskedFor;
    var y := Tally(before, None);
    if items == [] {
      assert before + [] == before;
      EndWanted(y, end);
    } else if items[0].pauses > 0 {
      RestWellFormed(items);
      var more := Arrivals(Rest(items), end);
      assert ([Err(Timeout)] + more)[1..] == more;
      ArrivalsWanted(Rest(items), end, before);
      ExpectedOfPause(items);
    } else {
      ItemWanted(before, items[0], Arrivals(items[1..], end));
      ArrivalsWanted(items[1..], end, before + AskedFor(items[0]));
      Reassociate(before, AskedFor(items[0]), Expected(items[1..]));
    }
  }

  lemma ExpectedOfPause(items: seq<Item>)
    requires items != [] && items[0].pauses > 0
    ensures Expected(Rest(items)) == Expected(items)
  {
    hide Requested, RequestOf;
    assert Rest(items)[1..] == items[1..];
  }
}
