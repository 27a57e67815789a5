/** Exactly which timeouts lose messages: those that fall between the fragments of one. */
module Timeouts {
  import opened Common
  import opened Framing
  import opened Messages
  import opened Receiving

  /** The stream ends between two messages: it runs out there, or a close frame stands there. */
  ghost predicate Complete(asm: Assembly, s: Bytes)
    decreases |s|
  {
    match Parse(s)
    case NeedMore => asm.Idle?
    case Bad => false
    case Got(f, n) => if IsClose(f) then asm.Idle? else Continues(asm, f) && Complete(After(asm, f), s[n..])
  }

  predicate IsClose(f: Frame) {
    f.opcode == OP_CLOSE
  }

  lemma CompleteStep(asm: Assembly, buf: Bytes, tail: Bytes)
    requires !Parse(buf).NeedMore? && Complete(asm, buf + tail)
    ensures Parse(buf).Got?
    ensures Decode(asm, buf + tail) == DecodeAfter(asm, Parse(buf).frame, buf[Parse(buf).size..] + tail)
    ensures if IsClose(Parse(buf).frame) then asm.Idle?
            else Continues(asm, Parse(buf).frame) && Complete(After(asm, Parse(buf).frame), buf[Parse(buf).size..] + tail)
  {
    hide Parse, Decode;
    DecodeStep(asm, buf, tail);
    ParsePrefixStable(buf, tail);
    if Parse(buf).Got? {
      assert (buf + tail)[Parse(buf).size..] == buf[Parse(buf).size..] + tail;
    }
  }

  /** Once a close frame is next, no timeout matters any more. */
  lemma {:induction false} CloseIsCalm(asm: Assembly, buf: Bytes, script: Script)
    requires Parse(buf).Got? && IsClose(Parse(buf).frame)
    ensures Calm(asm, buf, script)
    decreases |script|
  {
    hide Parse;
    if script == [] || IsHangup(script[0]) {
    } else if IsTimeout(script[0]) {
      CloseIsCalm(asm, buf, script[1..]);
    } else {
      ParsePrefixStable(buf, script[0].bytes);
      CloseIsCalm(asm, buf + script[0].bytes, script[1..]);
    }
  }

  lemma NothingMore(asm: Assembly, buf: Bytes)
    requires Parse(buf).NeedMore?
    ensures Decode(asm, buf + []) == Decoded([], [], Waiting(asm, buf))
    ensures Complete(asm, buf + []) <==> asm.Idle?
  {
    hide Parse;
    assert buf + [] == buf;
  }

  /** A stream that a decoder reads to its end is complete if and only if no message is then pending. */
  lemma {:induction false} IdleAtEnd(asm: Assembly, s: Bytes)
    requires Decode(asm, s).end.Waiting?
    ensures Complete(asm, s) <==> Decode(asm, s).end.asm.Idle?
    decreases |s|
  {
    hide Parse;
    var p := Parse(s);
    if p.Got? {
      IdleAtEnd(After(asm, p.frame), s[p.size..]);
    }
  }

  /** A message begun and completed is delivered. */
  lemma {:induction false} BegunIsDelivered(asm: Assembly, s: Bytes)
    requires asm.Partial? && Complete(asm, s)
    ensures Decode(asm, s).messages != []
    decreases |s|
  {
    hide Parse;
    var p := Parse(s);
    if p.Got? && Absorb(asm, p.frame).More? {
      BegunIsDelivered(Absorb(asm, p.frame).asm, s[p.size..]);
    }
  }

  /** A call that starts afresh in the middle of a message fails, or times out no better off. */
  lemma {:induction false} FreshCallStumbles(asm: Assembly, buf: Bytes, script: Script)
    requires asm.Partial? && Complete(asm, buf + Stream(script))
    ensures var o := Recv(Idle, buf, script, false);
            && !o.closed
            && (o.result == Err(Protocol) || (o.result == Err(Timeout) && Complete(asm, o.buf + Stream(o.script))))
    decreases |script|, |buf|
  {
    hide Parse, Decode;
    var p := Parse(buf);
    if p.NeedMore? {
      NothingMore(asm, buf);
      assert Stream([]) == [];
      if script == [] || IsHangup(script[0]) {
        assert false;
      } else if IsTimeout(script[0]) {
        assert Stream(script) == Stream(script[1..]);
      } else {
        assert buf + Stream(script) == (buf + script[0].bytes) + Stream(script[1..]);
        FreshCallStumbles(asm, buf + script[0].bytes, script[1..]);
      }
    } else {
      CompleteStep(asm, buf, Stream(script));
      if Absorb(Idle, p.frame).More? {
        FreshCallStumbles(asm, buf[p.size..], script);
      }
    }
  }

  lemma {:induction false} StumblingDeliversNothing(asm: Assembly, buf: Bytes, script: Script)
    requires asm.Partial? && Complete(asm, buf + Stream(script))
    ensures Delivered(Drain(false, buf, script)) == []
    decreases |script|, |buf|
  {
    hide Parse, Decode, Recv, Complete;
    FreshCallStumbles(asm, buf, script);
    var o := Recv(Idle, buf, script, false);
    if Resumable(o) {
      StumblingDeliversNothing(asm, o.buf, o.script);
      var rs := Drain(false, o.buf, o.script);
      assert ([o.result] + rs)[1..] == rs;
    } else {
      assert [o.result] + [] == [o.result];
      assert [o.result][1..] == [];
    }
  }

  lemma {:induction false} CalmBeforeFrame(asm: Assembly, buf: Bytes, script: Script)
    requires Parse(buf).Got? && Continues(asm, Parse(buf).frame)
    requires Calm(After(asm, Parse(buf).frame), buf[Parse(buf).size..], script)
    ensures Calm(asm, buf, script)
    decreases |script|
  {
    if script == [] || IsHangup(script[0]) {
    } else if IsTimeout(script[0]) {
      CalmBeforeFrame(asm, buf, script[1..]);
    } else {
      var bs, n := script[0].bytes, Parse(buf).size;
      ParsePrefixStable(buf, bs);
      assert (buf + bs)[n..] == buf[n..] + bs;
      CalmBeforeFrame(asm, buf + bs, script[1..]);
    }
  }

  /** The call passes on the trouble ahead, or loses the message it has begun. */
  ghost predicate Troubled(d: Decoded, o: Outcome) {
    && Resumable(o)
    && ((Explains(d, o) && !Calm(Idle, o.buf, o.script) && Complete(Idle, o.buf + Stream(o.script))) ||
        (o.result == Err(Timeout) && d.messages != [] &&
         exists asm: Assembly :: asm.Partial? && Complete(asm, o.buf + Stream(o.script))))
  }

  lemma TroubledReplied(d: Decoded, o: Outcome, rs: seq<Frame>)
    requires Troubled(d, o)
    ensures Troubled(Prepend([], rs, d), Replied(rs, o))
  {
    hide Calm, Complete;
    if Explains(d, o) {
      ExplainsReplied(d, o, rs);
    }
  }

  lemma {:induction false} RecvTroubled(asm: Assembly, buf: Bytes, script: Script)
    requires !Calm(asm, buf, script) && Complete(asm, buf + Stream(script))
    ensures Troubled(Decode(asm, buf + Stream(script)), Recv(asm, buf, script, false))
    decreases |script|, |buf|
  {
    hide Parse, Decode, Complete;
    var p := Parse(buf);
    if p.NeedMore? {
      ReadTroubled(asm, buf, script);
    } else {
      CompleteStep(asm, buf, Stream(script));
      var rest := buf[p.size..];
      if IsClose(p.frame) {
        CloseIsCalm(asm, buf, script);
      } else if Calm(After(asm, p.frame), rest, script) {
        CalmBeforeFrame(asm, buf, script);
      }
      var next := Absorb(asm, p.frame);
      if next.More? {
        RecvTroubled(next.asm, rest, script);
        TroubledReplied(Decode(next.asm, rest + Stream(script)), Recv(next.asm, rest, script, false), Replies(p.frame));
      }
    }
  }

  lemma {:induction false} ReadTroubled(asm: Assembly, buf: Bytes, script: Script)
    requires Parse(buf).NeedMore?
    requires !Calm(asm, buf, script) && Complete(asm, buf + Stream(script))
    ensures Troubled(Decode(asm, buf + Stream(script)), Recv(asm, buf, script, false))
    decreases |script|, |buf|, 0
  {
    hide Parse;
    if IsTimeout(script[0]) {
      var d := Decode(asm, buf + Stream(script));
      assert Stream(script) == Stream(script[1..]);
      NothingMore(asm, buf);
      assert buf + [] == buf;
      if asm.Partial? {
        BegunIsDelivered(asm, buf + Stream(script));
      } else {
        assert Prepend([], [], d) == d;
      }
    } else {
      assert buf + Stream(script) == (buf + script[0].bytes) + Stream(script[1..]);
      RecvTroubled(asm, buf + script[0].bytes, script[1..]);
    }
  }

  lemma {:induction false} TroubleLoses(buf: Bytes, script: Script)
    requires !Calm(Idle, buf, script) && Complete(Idle, buf + Stream(script))
    ensures |Delivered(Drain(false, buf, script))| < |Decode(Idle, buf + Stream(script)).messages|
    decreases |script|, |buf|
  {
    hide Parse, Decode, Recv, Calm, Complete;
    RecvTroubled(Idle, buf, script);
    var o := Recv(Idle, buf, script, false);
    var rs := Drain(false, o.buf, o.script);
    assert ([o.result] + rs)[1..] == rs;
    var d := Decode(Idle, buf + Stream(script));
    if Explains(d, o) && !Calm(Idle, o.buf, o.script) && Complete(Idle, o.buf + Stream(o.script)) {
      TroubleLoses(o.buf, o.script);
    } else {
      var asm: Assembly :| asm.Partial? && Complete(asm, o.buf + Stream(o.script));
      StumblingDeliversNothing(asm, o.buf, o.script);
    }
  }

  /**
   Over a stream that ends between two messages, by a close frame or because it
   runs out, `recv` calls with a deadline deliver all its messages if and only if no timeout falls inside a fragmented
   message; pings, pongs and the cuts between reads do not matter.
   */
  lemma DeliversAllExactlyWhenCalm(script: Script)
    requires Complete(Idle, Stream(script))
    ensures Delivered(Drain(false, [], script)) == Decode(Idle, Stream(script)).messages <==> Calm(Idle, [], script)
  {
    hide Parse, Decode, Drain, Calm, Complete;
    assert [] + Stream(script) == Stream(script);
    if Calm(Idle, [], script) {
      DrainDecodes(false, [], script);
    } else {
      TroubleLoses([], script);
    }
  }

  lemma {:induction false} CalmBehindReads(asm: Assembly, buf: Bytes, first: Script, script: Script)
    requires Flowing(first)
    ensures Calm(asm, buf, first + script) <==> Calm(asm, buf + Stream(first), script)
    decreases |first|
  {
    hide Parse, Decode;
    if first == [] {
      assert first + script == script && buf + Stream(first) == buf;
    } else {
      assert first[0] in first;
      assert (first + script)[1..] == first[1..] + script;
      CalmBehindReads(asm, buf + first[0].bytes, first[1..], script);
      assert buf + Stream(first) == (buf + first[0].bytes) + Stream(first[1..]);
    }
  }

  lemma DrainOfNothing()
    ensures Recv(Idle, [], [], false) == Outcome(Err(Closed), [], [], [], true)
    ensures Drain(false, [], []) == [Err(Closed)]
  {
    assert Parse([]) == NeedMore;
  }

  /** A stream that ends inside a message is not covered by this: a timeout there has nothing left to lose. */
  lemma NothingLeftToLose(m: Message, k: nat, masks: seq<Option<Mask>>, first: Script)
    requires 0 < k < |Fragments(m)| == |masks|
    requires Flowing(first) && Stream(first) == EncodeFrames(Fragments(m)[..k], masks[..k])
    ensures !Complete(Idle, Stream(first))
    ensures !Calm(Idle, [], first + [Fault(Timeout)])
    ensures Delivered(Drain(false, [], first + [Fault(Timeout)])) == Decode(Idle, Stream(first)).messages == []
  {
    hide Parse, EncodeFrames, Fragments, Decode, DecodeFrames, Stream, Recv, Complete;
    var late := [Fault(Timeout)];
    FragmentsOfAcceptable(m);
    CutFragmentsStillPartial(m, k);
    DecodeEncoded(Idle, Fragments(m)[..k], masks[..k]);
    assert [] + Stream(first) == Stream(first);
    var e := Decode(Idle, Stream(first)).end;
    RecvSkips(Idle, [], first, late);
    assert late + [] == late;
    TimeoutWhileWaiting(e.asm, []);
    IdleAtEnd(Idle, Stream(first));
    DrainOfNothing();
    CalmBehindReads(Idle, [], first, late);
    assert Drain(false, [], first + late) == [Err(Timeout), Err(Closed)];
    assert Delivered([Err(Timeout), Err(Closed)]) == Delivered([Err(Closed)]) == [];
  }

  /** What `send` wrote comes back whole if and only if no timeout falls inside a fragmented message. */
  lemma SentComesBackExactlyWhenCalm(ms: seq<Message>, masks: seq<Option<Mask>>, script: Script)
    requires DataOnly(ms) && |masks| >= |AllFragments(ms)|
    requires Stream(script) == EncodeFrames(AllFragments(ms), masks)
    ensures Delivered(Drain(false, [], script)) == ms <==> Calm(Idle, [], script)
  {
    hide Parse, Decode, Drain, Calm;
    SentStreamDecodes(ms, masks);
    IdleAtEnd(Idle, Stream(script));
    DeliversAllExactlyWhenCalm(script);
  }
}
