/**
 What repeated `recv` calls return, for every way the transport can cut the
 byte stream into reads and interleave timeouts with it.
 */
module Receiving {
  import opened Common
  import opened Framing
  import opened Messages

  /** The receive buffer handed to the transport. */
  const READ_SIZE: nat := 8192

  type Chunk = b: Bytes | |b| <= READ_SIZE

  /**
   One answer of the environment to a request for more octets. An empty chunk
   is an orderly close. `Fault(Timeout)` stands both for a read that timed out
   and for a deadline found expired before reading.
   */
  datatype Read = Data(bytes: Chunk) | Fault(error: ErrorCode)

  /** The script of a finite run; past its end the peer has closed. */
  type Script = seq<Read>

  predicate IsTimeout(r: Read) {
    r == Fault(Timeout)
  }

  predicate IsHangup(r: Read) {
    !IsTimeout(r) && (r.Fault? || r.bytes == [])
  }

  /** The octets delivered before the connection ends. */
  function Stream(script: Script): Bytes {
    if script == [] || IsHangup(script[0]) then []
    else (if IsTimeout(script[0]) then [] else script[0].bytes) + Stream(script[1..])
  }

  datatype Outcome = Outcome(
    result: Result<Message>, buf: Bytes, script: Script, replies: seq<Frame>, closed: bool)

  function Replied(rs: seq<Frame>, o: Outcome): Outcome {
    o.(replies := rs + o.replies)
  }

  /** A call neither ended by the peer nor stopped by a protocol violation. */
  predicate Resumable(o: Outcome) {
    !o.closed && o.result != Err(Protocol)
  }

  predicate Consumed(buf: Bytes, script: Script, buf': Bytes, script': Script) {
    |script'| < |script| || (|script'| == |script| && |buf'| < |buf|)
  }

  /** One `recv` call from a buffer; a `patient` call (negative timeout) outlives timeouts. */
  function Recv(asm: Assembly, buf: Bytes, script: Script, patient: bool): (o: Outcome)
    ensures Resumable(o) ==> Consumed(buf, script, o.buf, o.script)
    ensures o.result.Ok? ==> (o.result.value.kind.Close? <==> o.closed)
    ensures o.closed ==> o.result != Err(Timeout)
    ensures o.result.Err? && !o.closed ==> o.result == Err(Timeout) || o.result == Err(Protocol)
    decreases |script|, |buf|
  {
    match Parse(buf)
    case Bad => Outcome(Err(Protocol), buf, script, [], false)
    case NeedMore =>
      if script == [] then Outcome(Err(Closed), buf, script, [], true)
      else if IsTimeout(script[0]) then
        if patient then Recv(asm, buf, script[1..], patient)
        else Outcome(Err(Timeout), buf, script[1..], [], false)
      else if script[0].Fault? then Outcome(Err(script[0].error), buf, script[1..], [], true)
      else if script[0].bytes == [] then Outcome(Err(Closed), buf, script[1..], [], true)
      else Recv(asm, buf + script[0].bytes, script[1..], patient)
    case Got(f, n) =>
      match Absorb(asm, f)
      case More(a) => Replied(Replies(f), Recv(a, buf[n..], script, patient))
      case Violation => Outcome(Err(Protocol), buf[n..], script, Replies(f), false)
      case Deliver(m) => Outcome(Ok(m), buf[n..], script, Replies(f), m.kind.Close?)
  }

  /** The results of calling `recv` until the connection ends or is violated. */
  function Drain(patient: bool, buf: Bytes, script: Script): seq<Result<Message>>
    decreases |script|, |buf|
  {
    var o := Recv(Idle, buf, script, patient);
    [o.result] + if Resumable(o) then Drain(patient, o.buf, o.script) else []
  }

  /** The control frames sent during those calls. */
  function DrainReplies(patient: bool, buf: Bytes, script: Script): seq<Frame>
    decreases |script|, |buf|
  {
    var o := Recv(Idle, buf, script, patient);
    o.replies + if Resumable(o) then DrainReplies(patient, o.buf, o.script) else []
  }

  /** The messages among a list of results. */
  function Delivered(rs: seq<Result<Message>>): seq<Message> {
    if rs == [] then [] else (if rs[0].Ok? then [rs[0].value] else []) + Delivered(rs[1..])
  }

  // --------------------------------------------------------------- calm runs

  ghost predicate AtRest(e: End) {
    e.Waiting? ==> e.asm.Idle?
  }

  /** No timeout falls between two fragments of a message. */
  ghost predicate Calm(asm: Assembly, buf: Bytes, script: Script)
    decreases |script|
  {
    script == [] || IsHangup(script[0]) ||
    if IsTimeout(script[0]) then AtRest(Decode(asm, buf).end) && Calm(asm, buf, script[1..])
    else Calm(asm, buf + script[0].bytes, script[1..])
  }

  lemma {:induction false} CalmAfterFrame(asm: Assembly, buf: Bytes, script: Script)
    requires Parse(buf).Got? && Continues(asm, Parse(buf).frame) && Calm(asm, buf, script)
    ensures Calm(After(asm, Parse(buf).frame), buf[Parse(buf).size..], script)
    decreases |script|
  {
    if script == [] || IsHangup(script[0]) {
    } else if IsTimeout(script[0]) {
      CalmAfterFrame(asm, buf, script[1..]);
    } else {
      var bs, n := script[0].bytes, Parse(buf).size;
      ParsePrefixStable(buf, bs);
      assert (buf + bs)[n..] == buf[n..] + bs;
      CalmAfterFrame(asm, buf + bs, script[1..]);
    }
  }

  /** How the whole stream decodes, told by the outcome of the first call. */
  ghost predicate Explains(d: Decoded, o: Outcome) {
    if o.result == Err(Protocol) && !o.closed then d == Decoded([], o.replies, Broken)
    else if o.result.Ok? && o.closed then d == Decoded([o.result.value], o.replies, Shut(o.buf + Stream(o.script)))
    else if o.closed then d.messages == [] && d.replies == o.replies && d.end.Waiting? && d.end.rest == o.buf
    else d == Prepend(if o.result.Ok? then [o.result.value] else [], o.replies, Decode(Idle, o.buf + Stream(o.script)))
  }

  lemma ExplainsReplied(d: Decoded, o: Outcome, rs: seq<Frame>)
    requires Explains(d, o)
    ensures Explains(Prepend([], rs, d), Replied(rs, o))
  {
    if Resumable(o) {
      var e := Decode(Idle, o.buf + Stream(o.script));
      assert rs + (o.replies + e.replies) == (rs + o.replies) + e.replies;
    }
  }

  ghost predicate ExplainedFrom(asm: Assembly, buf: Bytes, script: Script, patient: bool) {
    var o := Recv(asm, buf, script, patient);
    && Explains(Decode(asm, buf + Stream(script)), o)
    && (Resumable(o) ==> patient || Calm(Idle, o.buf, o.script))
  }

  /** One call, compared with the ideal decoder of the stream still to come. */
  lemma {:induction false} RecvExplained(asm: Assembly, buf: Bytes, script: Script, patient: bool)
    requires patient || Calm(asm, buf, script)
    ensures ExplainedFrom(asm, buf, script, patient)
    decreases |script|, |buf|, 1
  {
    if Parse(buf).NeedMore? {
      ReadExplained(asm, buf, script, patient);
    } else {
      FrameExplained(asm, buf, script, patient);
    }
  }

  lemma {:induction false} ReadExplained(asm: Assembly, buf: Bytes, script: Script, patient: bool)
    requires Parse(buf).NeedMore? && (patient || Calm(asm, buf, script))
    ensures ExplainedFrom(asm, buf, script, patient)
    decreases |script|, |buf|, 0
  {
    hide Parse;
    if script == [] || IsHangup(script[0]) {
      assert buf + Stream(script) == buf;
    } else if IsTimeout(script[0]) {
      assert Stream(script) == Stream(script[1..]);
      if patient {
        RecvExplained(asm, buf, script[1..], patient);
      } else {
        var d := Decode(asm, buf + Stream(script));
        assert asm == Idle;
        assert Prepend([], [], d) == d;
      }
    } else {
      assert buf + Stream(script) == (buf + script[0].bytes) + Stream(script[1..]);
      RecvExplained(asm, buf + script[0].bytes, script[1..], patient);
    }
  }

  lemma {:induction false} FrameExplained(asm: Assembly, buf: Bytes, script: Script, patient: bool)
    requires !Parse(buf).NeedMore? && (patient || Calm(asm, buf, script))
    ensures ExplainedFrom(asm, buf, script, patient)
    decreases |script|, |buf|, 0
  {
    hide Parse;
    var p, tail := Parse(buf), Stream(script);
    DecodeStep(asm, buf, tail);
    if p.Got? {
      var next := Absorb(asm, p.frame);
      if Continues(asm, p.frame) && !patient {
        CalmAfterFrame(asm, buf, script);
      }
      if next.More? {
        RecvExplained(next.asm, buf[p.size..], script, patient);
        ExplainsReplied(Decode(next.asm, buf[p.size..] + tail),
                        Recv(next.asm, buf[p.size..], script, patient), Replies(p.frame));
      }
    }
  }

  /**
   Every run of `recv` calls delivers exactly the messages, and sends exactly
   the replies, of the ideal decoder, however the octets are cut into reads and
   wherever timeouts fall, as long as none falls inside a fragmented message
   (or the calls wait without a deadline).
   */
  lemma {:induction false} DrainDecodes(patient: bool, buf: Bytes, script: Script)
    requires patient || Calm(Idle, buf, script)
    ensures var d := Decode(Idle, buf + Stream(script));
            && Delivered(Drain(patient, buf, script)) == d.messages
            && DrainReplies(patient, buf, script) == d.replies
    decreases |script|, |buf|
  {
    hide Parse, Decode, Recv;
    RecvExplained(Idle, buf, script, patient);
    var o := Recv(Idle, buf, script, patient);
    if Resumable(o) {
      DrainDecodes(patient, o.buf, o.script);
      var rs := Drain(patient, o.buf, o.script);
      assert ([o.result] + rs)[1..] == rs;
    } else {
      assert [o.result] + [] == [o.result];
      assert [o.result][1..] == [];
    }
  }

  // ---------------------------------------------------------- the round trip

  /**
   What `send` writes for a list of messages of any size, under any masks,
   comes back as those messages with their kinds, in order, through any reads
   without a timeout inside a fragmented message.
   */
  lemma SendRecvRoundTrip(ms: seq<Message>, masks: seq<Option<Mask>>, script: Script, patient: bool)
    requires DataOnly(ms) && |masks| >= |AllFragments(ms)|
    requires Stream(script) == EncodeFrames(AllFragments(ms), masks)
    requires patient || Calm(Idle, [], script)
    ensures Delivered(Drain(patient, [], script)) == ms
    ensures DrainReplies(patient, [], script) == []
  {
    hide Parse, Decode, Recv, Calm;
    SentStreamDecodes(ms, masks);
    assert [] + Stream(script) == Stream(script);
    DrainDecodes(patient, [], script);
  }

  /**
   Pings and pongs anywhere in any stream, also between fragments and in one
   that a close frame or a violation ends, change nothing for the caller; each
   ping read is answered by one pong with its payload, and a close by a close.
   */
  lemma PingPongOnTheWire(fs: seq<Frame>, masks: seq<Option<Mask>>, script: Script, patient: bool)
    requires Acceptable(fs) && |masks| >= |fs|
    requires Stream(script) == EncodeFrames(fs, masks)
    requires patient || Calm(Idle, [], script)
    ensures Delivered(Drain(patient, [], script)) == DecodeFrames(Idle, WithoutPingPong(fs)).messages
    ensures DrainReplies(patient, [], script) == Answers(fs)
  {
    hide Parse, Decode, Recv, Calm, DecodeFrames, Drain, DrainReplies;
    PingPongInvisible(Idle, fs);
    RepliesExplained(Idle, fs);
    DecodeEncoded(Idle, fs, masks);
    assert [] + Stream(script) == Stream(script);
    DrainDecodes(patient, [], script);
  }

  /** In particular, what was sent arrives through any pings and pongs inserted on the way. */
  lemma PingsInvisibleOnTheWire(ms: seq<Message>, fs: seq<Frame>, masks: seq<Option<Mask>>, script: Script, patient: bool)
    requires DataOnly(ms) && WithoutPingPong(fs) == AllFragments(ms)
    requires Acceptable(fs) && |masks| >= |fs|
    requires Stream(script) == EncodeFrames(fs, masks)
    requires patient || Calm(Idle, [], script)
    ensures Delivered(Drain(patient, [], script)) == ms
    ensures DrainReplies(patient, [], script) == Pongs(fs)
  {
    hide Parse, Decode, Recv, Calm, DecodeFrames, Drain, DrainReplies, Pongs;
    AllFragmentsDecode(ms);
    PingPongInvisible(Idle, fs);
    PingPongOnTheWire(fs, masks, script, patient);
    assert fs[..|fs|] == fs;
  }

  /** What those calls write is, read back, exactly these answers, in order, every one masked. */
  lemma AnswersOnTheWire(fs: seq<Frame>, masks: seq<Option<Mask>>, script: Script, patient: bool, drawn: seq<Option<Mask>>)
    requires Acceptable(fs) && |masks| >= |fs|
    requires Stream(script) == EncodeFrames(fs, masks)
    requires patient || Calm(Idle, [], script)
    requires |drawn| >= |Answers(fs)| && forall i :: 0 <= i < |Answers(fs)| ==> drawn[i].Some?
    ensures DrainReplies(patient, [], script) == Answers(fs)
    ensures FramesOf(EncodeFrames(Answers(fs), drawn)) == Answers(fs)
    ensures MaskBits(EncodeFrames(Answers(fs), drawn)) == seq(|Answers(fs)|, _ => true)
  {
    hide Parse, Decode, Recv, Calm, DecodeFrames, Drain, DrainReplies, EncodeFrames, FramesOf, Pongs, MaskBits, Answers;
    PingPongOnTheWire(fs, masks, script, patient);
    AnswersAcceptable(fs);
    MaskBitsOfEncoded(Answers(fs), drawn);
    FramesOfEncoded(Answers(fs), drawn);
  }

  // ------------------------------------------------ streams without fragments

  ghost predicate Whole(f: Frame) {
    f.fin && f.opcode != OP_CONT
  }

  /** A prefix of the octets holds the first frame whole, or not at all. */
  lemma FirstFrameOfPrefix(f: Frame, mask: Option<Mask>, tail: Bytes, k: nat)
    requires |f.payload| <= MAX_MSG && k <= |EncodeFrame(f, mask)| + |tail|
    ensures var n := |EncodeFrame(f, mask)|;
            var s := (EncodeFrame(f, mask) + tail)[..k];
            if k < n then Parse(s).NeedMore? else Parse(s) == Got(f, n) && s[n..] == tail[..k - n]
  {
    var first := EncodeFrame(f, mask);
    var s := (first + tail)[..k];
    if k < |first| {
      assert first == s + first[k..];
      ParseInvertsEncode(f, mask, []);
      assert first + [] == first;
      if !Parse(s).NeedMore? {
        ParsePrefixStable(s, first[k..]);
      }
    } else {
      assert s == first + tail[..k - |first|];
      ParseInvertsEncode(f, mask, tail[..k - |first|]);
    }
  }

  /** Without fragments a decoder is at rest after every prefix of the octets. */
  lemma {:induction false} WholeFramesRest(fs: seq<Frame>, masks: seq<Option<Mask>>, k: nat)
    requires |masks| >= |fs| && Acceptable(fs) && (forall f :: f in fs ==> Whole(f))
    requires k <= |EncodeFrames(fs, masks)|
    ensures AtRest(Decode(Idle, EncodeFrames(fs, masks)[..k]).end)
    decreases |fs|
  {
    hide Parse, EncodeFrame;
    if fs != [] {
      FirstFrameOfPrefix(fs[0], masks[0], EncodeFrames(fs[1..], masks[1..]), k);
      var n := |EncodeFrame(fs[0], masks[0])|;
      assert fs[0] in fs;
      if n <= k {
        WholeFramesRest(fs[1..], masks[1..], k - n);
      }
    }
  }

  lemma {:induction false} PrefixesAtRestAreCalm(whole: Bytes, buf: Bytes, script: Script)
    requires buf + Stream(script) <= whole
    requires forall k :: 0 <= k <= |whole| ==> AtRest(Decode(Idle, whole[..k]).end)
    ensures Calm(Idle, buf, script)
    decreases |script|
  {
    hide Parse, Decode;
    if script == [] || IsHangup(script[0]) {
    } else if IsTimeout(script[0]) {
      assert buf == whole[..|buf|];
      PrefixesAtRestAreCalm(whole, buf, script[1..]);
    } else {
      assert buf + Stream(script) == (buf + script[0].bytes) + Stream(script[1..]);
      PrefixesAtRestAreCalm(whole, buf + script[0].bytes, script[1..]);
    }
  }

  /** Over a stream of unfragmented messages timeouts never matter, wherever they fall. */
  lemma TimeoutsHarmlessWithoutFragments(fs: seq<Frame>, masks: seq<Option<Mask>>, script: Script)
    requires |masks| >= |fs| && Acceptable(fs) && (forall f :: f in fs ==> Whole(f))
    requires Stream(script) <= EncodeFrames(fs, masks)
    ensures Calm(Idle, [], script)
    ensures Delivered(Drain(false, [], script)) == Decode(Idle, Stream(script)).messages
  {
    var whole := EncodeFrames(fs, masks);
    forall k | 0 <= k <= |whole|
      ensures AtRest(Decode(Idle, whole[..k]).end)
    {
      WholeFramesRest(fs, masks, k);
    }
    assert [] + Stream(script) == Stream(script);
    PrefixesAtRestAreCalm(whole, [], script);
    DrainDecodes(false, [], script);
  }

  // ------------------------------------------ a timeout between two fragments

  ghost predicate Flowing(script: Script) {
    forall r :: r in script ==> r.Data? && r.bytes != []
  }

  /** Reads that complete no message only move the call's state forward. */
  lemma {:induction false} RecvSkips(asm: Assembly, buf: Bytes, first: Script, script: Script)
    requires Flowing(first)
    requires var d := Decode(asm, buf + Stream(first)); d.messages == [] && d.end.Waiting?
    ensures var d := Decode(asm, buf + Stream(first));
            Recv(asm, buf, first + script, false) == Replied(d.replies, Recv(d.end.asm, d.end.rest, script, false))
    decreases |first|, |buf|, 1
  {
    hide Parse;
    if Parse(buf).NeedMore? {
      if first == [] {
        assert first + script == script && buf + Stream(first) == buf;
      } else {
        assert first[0] in first;
        assert (first + script)[1..] == first[1..] + script;
        assert buf + Stream(first) == (buf + first[0].bytes) + Stream(first[1..]);
        RecvSkips(asm, buf + first[0].bytes, first[1..], script);
      }
    } else {
      RecvSkipsFrame(asm, buf, first, script);
    }
  }

  lemma {:induction false} RecvSkipsFrame(asm: Assembly, buf: Bytes, first: Script, script: Script)
    requires Flowing(first) && !Parse(buf).NeedMore?
    requires var d := Decode(asm, buf + Stream(first)); d.messages == [] && d.end.Waiting?
    ensures var d := Decode(asm, buf + Stream(first));
            Recv(asm, buf, first + script, false) == Replied(d.replies, Recv(d.end.asm, d.end.rest, script, false))
    decreases |first|, |buf|, 0
  {
    hide Parse, Stream, Decode;
    var p := Parse(buf);
    DecodeStep(asm, buf, Stream(first));
    var next := Absorb(asm, p.frame);
    RecvSkips(next.asm, buf[p.size..], first, script);
    var d := Decode(next.asm, buf[p.size..] + Stream(first));
    var o := Recv(d.end.asm, d.end.rest, script, false);
    assert Replies(p.frame) + (d.replies + o.replies) == (Replies(p.frame) + d.replies) + o.replies;
  }

  lemma {:induction false} FlowingIsCalm(asm: Assembly, buf: Bytes, script: Script)
    requires Flowing(script)
    ensures Calm(asm, buf, script)
    decreases |script|
  {
    if script != [] {
      assert script[0] in script;
      FlowingIsCalm(asm, buf + script[0].bytes, script[1..]);
    }
  }

  lemma {:induction false} FlowingNeverTimesOut(asm: Assembly, buf: Bytes, script: Script)
    requires Flowing(script)
    ensures var o := Recv(asm, buf, script, false); o.result != Err(Timeout) && Flowing(o.script)
    decreases |script|, |buf|
  {
    hide Parse;
    var p := Parse(buf);
    if p.NeedMore? && script != [] {
      assert script[0] in script;
      FlowingNeverTimesOut(asm, buf + script[0].bytes, script[1..]);
    } else if p.Got? && Absorb(asm, p.frame).More? {
      FlowingNeverTimesOut(Absorb(asm, p.frame).asm, buf[p.size..], script);
    }
  }

  /** A call that reads a broken stream without a timeout reports the violation. */
  lemma BrokenStreamReported(script: Script)
    requires Flowing(script)
    requires var d := Decode(Idle, Stream(script)); d.messages == [] && d.end.Broken?
    ensures Drain(false, [], script) == [Err(Protocol)]
  {
    hide Parse, Decode, Calm;
    assert [] + Stream(script) == Stream(script);
    FlowingIsCalm(Idle, [], script);
    FlowingNeverTimesOut(Idle, [], script);
    RecvExplained(Idle, [], script, false);
    var o := Recv(Idle, [], script, false);
    assert o.result.Err?;
  }

  /**
   The hypothesis about timeouts is needed: a timeout at any boundary between
   the fragments of a message loses the part already read, and the next call
   takes the following fragment for a protocol violation.
   */
  lemma TimeoutBetweenFragmentsLosesMessage(
      m: Message, k: nat, masks: seq<Option<Mask>>, first: Script, second: Script)
    requires 0 < k < |Fragments(m)| == |masks|
    requires Flowing(first) && Stream(first) == EncodeFrames(Fragments(m)[..k], masks[..k])
    requires Flowing(second) && Stream(second) == EncodeFrames(Fragments(m)[k..], masks[k..])
    ensures Drain(false, [], first + [Fault(Timeout)] + second) == [Err(Timeout), Err(Protocol)]
  {
    hide Parse, EncodeFrames, Fragments, Decode, DecodeFrames, Stream, Recv;
    var fs, rest := Fragments(m), [Fault(Timeout)] + second;
    FragmentsOfAcceptable(m);
    CutFragmentsStillPartial(m, k);
    DecodeEncoded(Idle, fs[..k], masks[..k]);
    DecodeEncoded(Idle, fs[k..], masks[k..]);
    BrokenStreamReported(second);
    assert [] + Stream(first) == Stream(first);
    RecvSkips(Idle, [], first, rest);
    assert first + [Fault(Timeout)] + second == first + rest;
    TimeoutWhileWaiting(Decode(Idle, Stream(first)).end.asm, second);
  }

  lemma TimeoutWhileWaiting(asm: Assembly, script: Script)
    ensures Recv(asm, [], [Fault(Timeout)] + script, false) == Outcome(Err(Timeout), [], script, [], false)
  {
    assert Parse([]) == NeedMore;
    assert ([Fault(Timeout)] + script)[1..] == script;
  }
}
