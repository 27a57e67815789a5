/** From the octets on the control connection to the requests the handler gets. */
module RelayStream {
  import opened Common
  import opened RelayWorld
  import opened RelaySpec
  import opened RelayMonitors
  import opened RelayOrder
  import Framing
  import Messages
  import Receiving

  /** The messages of a control stream, and the peer's close if it ends with one. */
  function MessagesOf(items: seq<Item>, bye: seq<Message>): seq<Message> {
    if items == [] then bye else
    [Messages.Message(Messages.Text, items[0].text)] +
    (match items[0].body case None => [] case Some(b) => [Messages.Message(Messages.Binary, b)]) +
    MessagesOf(items[1..], bye)
  }

  ghost predicate Closing(bye: seq<Message>) {
    bye == [] || (|bye| == 1 && bye[0].kind.Close?)
  }

  predicate IsBinary(r: Result<Message>) {
    r.Ok? && r.value.kind == Messages.Binary
  }

  /** No call times out between a request and its body. */
  ghost predicate BodiesFollow(rs: seq<Result<Message>>) {
    forall k :: 0 <= k < |rs| - 1 && rs[k] == Err(Timeout) ==> !IsBinary(rs[k + 1])
  }

  /** The channel is gone: closed by the peer, or lost. */
  predicate Gone(r: Result<Message>) {
    if r.Ok? then r.value.kind.Close? else r != Err(Timeout)
  }

  /** Messages and timeouts, and at last the end of the connection. */
  ghost predicate Lost(rs: seq<Result<Message>>) {
    rs != [] && (Gone(rs[0]) <==> |rs| == 1) && (|rs| > 1 ==> Lost(rs[1..]))
  }

  lemma {:induction false} DrainIsLost(buf: Bytes, script: Receiving.Script)
    ensures Lost(Receiving.Drain(false, buf, script))
    decreases |script|, |buf|
  {
    hide Receiving.Recv;
    var o := Receiving.Recv(Messages.Idle, buf, script, false);
    var rs := Receiving.Drain(false, buf, script);
    if Receiving.Resumable(o) {
      var more := Receiving.Drain(false, o.buf, o.script);
      assert rs == [o.result] + more && rs[1..] == more;
      assert more != [];
      DrainIsLost(o.buf, o.script);
    } else {
      assert rs == [o.result];
    }
  }

  lemma {:induction false} OnlyTimeouts(rs: seq<Result<Message>>)
    requires Lost(rs) && Closing(Receiving.Delivered(rs))
    ensures Ended(rs)
  {
    if |rs| > 1 {
      NothingElseComes(rs);
      OnlyTimeouts(rs[1..]);
    }
  }

  lemma NothingElseComes(rs: seq<Result<Message>>)
    requires Lost(rs) && Closing(Receiving.Delivered(rs)) && |rs| > 1
    ensures rs[0] == Err(Timeout) && Receiving.Delivered(rs[1..]) == Receiving.Delivered(rs)
  {
  }

  /** A body that is delivered next was not waited for through a timeout. */
  lemma {:induction false} BodyIsNext(rs: seq<Result<Message>>)
    requires Lost(rs) && BodiesFollow(rs) && rs[0] == Err(Timeout)
    ensures var ms := Receiving.Delivered(rs); ms != [] ==> ms[0].kind != Messages.Binary
  {
    if |rs| > 1 {
      assert !IsBinary(rs[1]);
      BodiesFollowLater(rs);
      assert Receiving.Delivered(rs) == [] + Receiving.Delivered(rs[1..]) == Receiving.Delivered(rs[1..]);
      if rs[1] == Err(Timeout) {
        BodyIsNext(rs[1..]);
      } else if rs[1].Ok? {
        assert Receiving.Delivered(rs[1..])[0] == rs[1].value;
      } else {
        assert rs[1..][1..] == [];
      }
    }
  }

  lemma BodiesFollowLater(rs: seq<Result<Message>>)
    requires rs != [] && BodiesFollow(rs)
    ensures BodiesFollow(rs[1..])
  {
    forall k | 0 <= k < |rs[1..]| - 1 && rs[1..][k] == Err(Timeout) ensures !IsBinary(rs[1..][k + 1]) {
      assert rs[k + 1] == Err(Timeout);
    }
  }

  /** The same texts and bodies, whatever the pauses. */
  ghost predicate SameBut(items: seq<Item>, timed: seq<Item>) {
    |items| == |timed| && forall k :: 0 <= k < |items| ==> items[k].text == timed[k].text && items[k].body == timed[k].body
  }

  /** Results that deliver a control stream are its arrivals, with the pauses read off the timeouts. */
  lemma {:induction false} PausesFound(rs: seq<Result<Message>>, items: seq<Item>, bye: seq<Message>)
    returns (timed: seq<Item>, end: seq<Result<Message>>)
    requires Lost(rs) && BodiesFollow(rs) && Closing(bye) && Receiving.Delivered(rs) == MessagesOf(items, bye)
    ensures SameBut(items, timed) && Ended(end) && rs == Arrivals(timed, end)
    decreases |rs|
  {
    if items == [] {
      timed, end := [], rs;
      OnlyTimeouts(rs);
    } else {
      BodiesFollowLater(rs);
      assert MessagesOf(items, bye)[0].kind.Text?;
      if |rs| == 1 {
        OneResult(rs);
      }
      if rs[0] == Err(Timeout) {
        timed, end := PausesFound(rs[1..], items, bye);
        var first := timed[0].(pauses := timed[0].pauses + 1);
        ArrivalsPause(timed, end);
        timed := [first] + timed[1..];
      } else {
        timed, end := ItemFound(rs, items, bye);
      }
    }
  }

  lemma OneResult(rs: seq<Result<Message>>)
    requires |rs| == 1
    ensures Receiving.Delivered(rs) == if rs[0].Ok? then [rs[0].value] else []
  {
    assert rs[1..] == [];
  }

  lemma ArrivalsPause(timed: seq<Item>, end: seq<Result<Message>>)
    requires timed != []
    ensures Arrivals([timed[0].(pauses := timed[0].pauses + 1)] + timed[1..], end) == [Err(Timeout)] + Arrivals(timed, end)
  {
    var more := [timed[0].(pauses := timed[0].pauses + 1)] + timed[1..];
    assert more[1..] == timed[1..];
    assert Rest(more) == [timed[0]] + timed[1..] == timed;
  }

  lemma NextComes(rs: seq<Result<Message>>, m: Message, tail: seq<Message>)
    requires Lost(rs) && rs[0].Ok? && !m.kind.Close? && Receiving.Delivered(rs) == [m] + tail
    ensures |rs| > 1 && rs[0] == Ok(m) && Receiving.Delivered(rs[1..]) == tail && Lost(rs[1..])
  {
    assert Receiving.Delivered(rs) == [rs[0].value] + Receiving.Delivered(rs[1..]);
    assert Receiving.Delivered(rs[1..]) == Receiving.Delivered(rs)[1..];
  }

  lemma BodyComes(rs: seq<Result<Message>>, body: Message, tail: seq<Message>)
    requires Lost(rs) && BodiesFollow(rs) && body.kind == Messages.Binary && Receiving.Delivered(rs) == [body] + tail
    ensures |rs| > 1 && rs[0] == Ok(body) && Receiving.Delivered(rs[1..]) == tail && Lost(rs[1..]) && BodiesFollow(rs[1..])
  {
    hide Receiving.Delivered;
    if rs[0] == Err(Timeout) {
      BodyIsNext(rs);
    }
    if rs[0].Err? {
      LostAtOnce(rs);
    }
    NextComes(rs, body, tail);
    BodiesFollowLater(rs);
  }

  lemma LostAtOnce(rs: seq<Result<Message>>)
    requires Lost(rs) && rs[0].Err? && rs[0] != Err(Timeout)
    ensures Receiving.Delivered(rs) == []
  {
    assert rs[1..] == [];
  }

  lemma {:induction false} ItemFound(rs: seq<Result<Message>>, items: seq<Item>, bye: seq<Message>)
    returns (timed: seq<Item>, end: seq<Result<Message>>)
    requires Lost(rs) && |rs| > 1 && BodiesFollow(rs) && BodiesFollow(rs[1..])
    requires items != [] && Closing(bye) && Receiving.Delivered(rs) == MessagesOf(items, bye) && rs[0].Ok?
    ensures SameBut(items, timed) && Ended(end) && rs == Arrivals(timed, end)
    decreases |rs|, 0
  {
    hide Lost, BodiesFollow, Receiving.Delivered, Arrivals, Ended;
    var item := items[0].(pauses := 0);
    var text, tail := Messages.Message(Messages.Text, item.text), MessagesOf(items[1..], bye);
    var later;
    if item.body.None? {
      assert MessagesOf(items, bye) == [text] + tail;
      NextComes(rs, text, tail);
      later, end := PausesFound(rs[1..], items[1..], bye);
      assert rs == Delivery(item) + rs[1..];
    } else {
      var body := Messages.Message(Messages.Binary, item.body.value);
      assert MessagesOf(items, bye) == [text] + ([body] + tail);
      NextComes(rs, text, [body] + tail);
      BodyComes(rs[1..], body, tail);
      later, end := PausesFound(rs[1..][1..], items[1..], bye);
      assert rs == Delivery(item) + rs[1..][1..];
    }
    timed := [item] + later;
    ItemArrives(item, later, end);
  }

  lemma ItemArrives(item: Item, later: seq<Item>, end: seq<Result<Message>>)
    requires item.pauses == 0
    ensures Arrivals([item] + later, end) == Delivery(item) + Arrivals(later, end)
  {
    assert ([item] + later)[1..] == later;
  }

  lemma {:induction false} ExpectedSame(a: seq<Item>, b: seq<Item>)
    requires SameBut(a, b)
    ensures Expected(a) == Expected(b)
  {
    hide Requested, RequestOf;
    if a != [] {
      ExpectedSame(a[1..], b[1..]);
    }
  }

  /**
   When the control channel's calls return what the engine receives from a
   stream of octets, in any pieces and with timeouts that fall neither inside a
   fragmented message nor between a request and its body, the handler gets one
   request per method-carrying control message in the stream, in order, each
   with its own fields and its own body.
   */
  lemma SessionServesStream(
      cfg: Config, s: State, ctrl: nat, items: seq<Item>, bye: seq<Message>, script: Receiving.Script)
    returns (k: nat)
    requires ctrl < |s.w.links|
    requires s.w.links[ctrl].inbox == Receiving.Drain(false, [], script)
    requires Receiving.Calm(Messages.Idle, [], script) && BodiesFollow(Receiving.Drain(false, [], script))
    requires Messages.Decode(Messages.Idle, Receiving.Stream(script)).messages == MessagesOf(items, bye) && Closing(bye)
    requires forall i :: 0 <= i < |items| ==> WellFormed(items[i])
    ensures k <= |items|
    ensures var t := Session(cfg, s, ctrl);
            && Calls(t.w.trace, ctrl) == Calls(s.w.trace, ctrl) + Expected(items[..k])
            && (k == |items| || (t.w.trace != [] && t.w.trace[|t.w.trace| - 1] == Asked(true)))
  {
    hide Calls, Session, WellFormed, Expected, Receiving.Drain, Messages.Decode, Receiving.Calm, BodiesFollow;
    assert [] + Receiving.Stream(script) == Receiving.Stream(script);
    Receiving.DrainDecodes(false, [], script);
    DrainIsLost([], script);
    var timed, end := PausesFound(Receiving.Drain(false, [], script), items, bye);
    forall i | 0 <= i < |timed| ensures WellFormed(timed[i]) {
      WellFormedSame(items[i], timed[i]);
    }
    k := SessionServesInOrder(cfg, s, ctrl, timed, end);
    ExpectedSame(items[..k], timed[..k]);
  }

  lemma WellFormedSame(a: Item, b: Item)
    requires WellFormed(a) && a.text == b.text && a.body == b.body
    ensures WellFormed(b)
  {
  }

  lemma {:induction false} FlowingDrainsOn(buf: Bytes, script: Receiving.Script)
    requires Receiving.Flowing(script)
    ensures forall r :: r in Receiving.Drain(false, buf, script) ==> r != Err(Timeout)
    decreases |script|, |buf|
  {
    hide Receiving.Recv, Receiving.Flowing;
    Receiving.FlowingNeverTimesOut(Messages.Idle, buf, script);
    var o := Receiving.Recv(Messages.Idle, buf, script, false);
    if Receiving.Resumable(o) {
      FlowingDrainsOn(o.buf, o.script);
    }
  }

  lemma NoTimeouts(rs: seq<Result<Message>>)
    requires forall r :: r in rs ==> r != Err(Timeout)
    ensures BodiesFollow(rs)
  {
    assert forall k :: 0 <= k < |rs| ==> rs[k] in rs;
  }

  lemma {:induction false} CloseComesLast(items: seq<Item>, bye: seq<Message>)
    ensures MessagesOf(items, bye) == MessagesOf(items, []) + bye
  {
    if items != [] {
      CloseComesLast(items[1..], bye);
    }
  }

  lemma {:induction false} NoClosesIn(items: seq<Item>)
    ensures Messages.DataOnly(MessagesOf(items, []))
  {
    if items != [] {
      NoClosesIn(items[1..]);
    }
  }

  /** The frames of a control stream as an engine sends it, and a close frame if it then closes. */
  function FramesSent(items: seq<Item>, closing: Option<Bytes>): seq<Framing.Frame> {
    Messages.AllFragments(MessagesOf(items, [])) +
    match closing case None => [] case Some(payload) => [Framing.Frame(Framing.OP_CLOSE, true, payload)]
  }

  function Goodbye(closing: Option<Bytes>): seq<Message> {
    match closing case None => [] case Some(payload) => [Messages.Message(Messages.Close, payload)]
  }

  lemma SentDecodes(items: seq<Item>, closing: Option<Bytes>, masks: seq<Option<Framing.Mask>>)
    requires closing.Some? ==> |closing.value| <= Framing.MAX_MSG
    requires |masks| >= |FramesSent(items, closing)|
    ensures Messages.Decode(Messages.Idle, Messages.EncodeFrames(FramesSent(items, closing), masks)).messages ==
            MessagesOf(items, Goodbye(closing))
  {
    hide Messages.Decode, Messages.EncodeFrames, Messages.AllFragments;
    var ms, sent := MessagesOf(items, []), FramesSent(items, closing);
    NoClosesIn(items);
    Messages.AllFragmentsDecode(ms);
    var tail := sent[|Messages.AllFragments(ms)|..];
    Messages.DecodeFramesConcat(Messages.Idle, Messages.AllFragments(ms), tail);
    assert Messages.DecodeFrames(Messages.Idle, tail).messages == Goodbye(closing);
    Messages.DecodeEncoded(Messages.Idle, sent, masks);
    CloseComesLast(items, Goodbye(closing));
  }

  /**
   In particular: what a peer's engine sends for a control stream, and the close
   frame if it sends one, under any masks and read in any pieces without a
   timeout, is served in order.
   */
  lemma SessionServesSent(cfg: Config, s: State, ctrl: nat, items: seq<Item>, closing: Option<Bytes>,
                          masks: seq<Option<Framing.Mask>>, script: Receiving.Script)
    returns (k: nat)
    requires ctrl < |s.w.links|
    requires s.w.links[ctrl].inbox == Receiving.Drain(false, [], script) && Receiving.Flowing(script)
    requires closing.Some? ==> |closing.value| <= Framing.MAX_MSG
    requires |masks| >= |FramesSent(items, closing)|
    requires Receiving.Stream(script) == Messages.EncodeFrames(FramesSent(items, closing), masks)
    requires forall i :: 0 <= i < |items| ==> WellFormed(items[i])
    ensures k <= |items|
    ensures var t := Session(cfg, s, ctrl);
            && Calls(t.w.trace, ctrl) == Calls(s.w.trace, ctrl) + Expected(items[..k])
            && (k == |items| || (t.w.trace != [] && t.w.trace[|t.w.trace| - 1] == Asked(true)))
  {
    hide Calls, Session, WellFormed, Expected, Receiving.Drain, Messages.Decode, Receiving.Calm, Receiving.Flowing;
    hide FramesSent;
    Receiving.FlowingIsCalm(Messages.Idle, [], script);
    FlowingDrainsOn([], script);
    NoTimeouts(Receiving.Drain(false, [], script));
    SentDecodes(items, closing, masks);
    k := SessionServesStream(cfg, s, ctrl, items, Goodbye(closing), script);
  }
}
