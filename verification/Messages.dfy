/**
 Messages over frames (sections 5.4 and 5.5 of RFC 6455): fragmentation,
 reassembly, and the ideal decoder that reads a whole byte stream at once.
 */
module Messages {
  import opened Common
  import opened Framing

  datatype Kind = Text | Binary | Close

  datatype Message = Message(kind: Kind, payload: Bytes)

  // ------------------------------------------------------------- reassembly

  /** What one `recv` call has collected of a fragmented message. */
  datatype Assembly = Idle | Partial(opcode: nibble, data: Bytes)

  datatype Next = More(asm: Assembly) | Deliver(message: Message) | Violation

  function KindOf(opcode: nibble): Kind {
    if opcode == OP_TEXT then Text else Binary
  }

  function Absorb(asm: Assembly, f: Frame): Next {
    if f.opcode == OP_PING || f.opcode == OP_PONG then More(asm)
    else if f.opcode == OP_CLOSE then Deliver(Message(Close, f.payload))
    else if f.opcode == OP_CONT then
      if asm.Idle? then Violation
      else if f.fin then Deliver(Message(KindOf(asm.opcode), asm.data + f.payload))
      else More(asm.(data := asm.data + f.payload))
    else if f.opcode == OP_TEXT || f.opcode == OP_BINARY then
      if asm.Partial? then Violation
      else if f.fin then Deliver(Message(KindOf(f.opcode), f.payload))
      else More(Partial(f.opcode, f.payload))
    else Violation
  }

  /** The assembly after one more frame. */
  function After(asm: Assembly, f: Frame): Assembly {
    match Absorb(asm, f) case More(a) => a case _ => Idle
  }

  /** A close frame that echoes the status code of another, if it has one. */
  function CloseReply(f: Frame): Frame {
    Frame(OP_CLOSE, true, if |f.payload| > 2 then f.payload[..2] else f.payload)
  }

  /** The control frame sent back on reading `f`: a pong for a ping, a close for a close. */
  function Replies(f: Frame): seq<Frame> {
    if f.opcode == OP_PING then [Frame(OP_PONG, true, f.payload)]
    else if f.opcode == OP_CLOSE then [CloseReply(f)]
    else []
  }

  // ----------------------------------------------------------- the decoder

  /** Where a decoder stands at the end of the octets it was given. */
  datatype End = Waiting(asm: Assembly, rest: Bytes) | Broken | Shut(rest: Bytes)

  datatype Decoded = Decoded(messages: seq<Message>, replies: seq<Frame>, end: End)

  function Prepend(ms: seq<Message>, rs: seq<Frame>, d: Decoded): Decoded {
    Decoded(ms + d.messages, rs + d.replies, d.end)
  }

  /** The messages, replies and final state a byte stream stands for. */
  function Decode(asm: Assembly, s: Bytes): Decoded
    decreases |s|
  {
    match Parse(s)
    case NeedMore => Decoded([], [], Waiting(asm, s))
    case Bad => Decoded([], [], Broken)
    case Got(f, n) =>
      match Absorb(asm, f)
      case More(a) => Prepend([], Replies(f), Decode(a, s[n..]))
      case Violation => Decoded([], Replies(f), Broken)
      case Deliver(m) =>
        if m.kind.Close? then Decoded([m], Replies(f), Shut(s[n..]))
        else Prepend([m], Replies(f), Decode(Idle, s[n..]))
  }

  /** Decoding after a first frame that is already complete. */
  function DecodeAfter(asm: Assembly, f: Frame, rest: Bytes): Decoded {
    match Absorb(asm, f)
    case More(a) => Prepend([], Replies(f), Decode(a, rest))
    case Violation => Decoded([], Replies(f), Broken)
    case Deliver(m) =>
      if m.kind.Close? then Decoded([m], Replies(f), Shut(rest))
      else Prepend([m], Replies(f), Decode(Idle, rest))
  }

  lemma DecodeStep(asm: Assembly, s: Bytes, t: Bytes)
    requires !Parse(s).NeedMore?
    ensures Decode(asm, s + t) ==
            if Parse(s).Bad? then Decoded([], [], Broken)
            else DecodeAfter(asm, Parse(s).frame, s[Parse(s).size..] + t)
  {
    ParsePrefixStable(s, t);
    if Parse(s).Got? {
      assert (s + t)[Parse(s).size..] == s[Parse(s).size..] + t;
    }
  }

  /** Decoding may stop anywhere and resume with the state it reached. */
  lemma {:induction false} DecodeSplit(asm: Assembly, s: Bytes, t: Bytes)
    ensures Decode(asm, s + t) == Resume(Decode(asm, s), t)
    decreases |s|
  {
    hide Parse, Absorb, Replies;
    var p := Parse(s);
    if p.NeedMore? {
    } else {
      ParsePrefixStable(s, t);
      if p.Got? {
        assert (s + t)[p.size..] == s[p.size..] + t;
        var next := Absorb(asm, p.frame);
        if next.More? {
          DecodeSplit(next.asm, s[p.size..], t);
          PrependResume([], Replies(p.frame), Decode(next.asm, s[p.size..]), t);
        } else if next.Deliver? && !next.message.kind.Close? {
          DecodeSplit(Idle, s[p.size..], t);
          PrependResume([next.message], Replies(p.frame), Decode(Idle, s[p.size..]), t);
        }
      }
    }
  }

  /** A decode resumed with `t` more octets. */
  function Resume(d: Decoded, t: Bytes): Decoded {
    match d.end
    case Waiting(a, rest) => Prepend(d.messages, d.replies, Decode(a, rest + t))
    case Broken => d
    case Shut(rest) => d.(end := Shut(rest + t))
  }

  lemma PrependTwice(ms: seq<Message>, rs: seq<Frame>, d: Decoded, e: Decoded)
    ensures Prepend(Prepend(ms, rs, d).messages, Prepend(ms, rs, d).replies, e) ==
            Prepend(ms, rs, Prepend(d.messages, d.replies, e))
  {
    assert (ms + d.messages) + e.messages == ms + (d.messages + e.messages);
    assert (rs + d.replies) + e.replies == rs + (d.replies + e.replies);
  }

  lemma PrependResume(ms: seq<Message>, rs: seq<Frame>, d: Decoded, t: Bytes)
    ensures Resume(Prepend(ms, rs, d), t) == Prepend(ms, rs, Resume(d, t))
  {
    if d.end.Waiting? {
      PrependTwice(ms, rs, d, Decode(d.end.asm, d.end.rest + t));
    }
  }

  // ------------------------------------------------------------- frame lists

  /** The same decoder over frames already cut from the stream. */
  function DecodeFrames(asm: Assembly, fs: seq<Frame>): Decoded
    decreases |fs|
  {
    if fs == [] then Decoded([], [], Waiting(asm, []))
    else
      match Absorb(asm, fs[0])
      case More(a) => Prepend([], Replies(fs[0]), DecodeFrames(a, fs[1..]))
      case Violation => Decoded([], Replies(fs[0]), Broken)
      case Deliver(m) =>
        if m.kind.Close? then Decoded([m], Replies(fs[0]), Shut([]))
        else Prepend([m], Replies(fs[0]), DecodeFrames(Idle, fs[1..]))
  }

  /** Each frame with the mask it is sent under, if any. */
  function EncodeFrames(fs: seq<Frame>, masks: seq<Option<Mask>>): Bytes
    requires |masks| >= |fs|
  {
    if fs == [] then [] else EncodeFrame(fs[0], masks[0]) + EncodeFrames(fs[1..], masks[1..])
  }

  ghost predicate Acceptable(fs: seq<Frame>) {
    forall i :: 0 <= i < |fs| ==> |fs[i].payload| <= MAX_MSG
  }

  /** The stream decoder sees exactly the frames that were encoded. */
  lemma {:induction false} DecodeEncoded(asm: Assembly, fs: seq<Frame>, masks: seq<Option<Mask>>)
    requires |masks| >= |fs| && Acceptable(fs)
    ensures var d, e := Decode(asm, EncodeFrames(fs, masks)), DecodeFrames(asm, fs);
            && d.messages == e.messages && d.replies == e.replies
            && (e.end.Shut? <==> d.end.Shut?)
            && (!e.end.Shut? ==> d.end == e.end)
    decreases |fs|
  {
    if fs != [] {
      var first, rest := EncodeFrame(fs[0], masks[0]), EncodeFrames(fs[1..], masks[1..]);
      ParseInvertsEncode(fs[0], masks[0], rest);
      assert (first + rest)[|first|..] == rest;
      var next := Absorb(asm, fs[0]);
      if next.More? {
        DecodeEncoded(next.asm, fs[1..], masks[1..]);
      } else if next.Deliver? && !next.message.kind.Close? {
        DecodeEncoded(Idle, fs[1..], masks[1..]);
      }
    }
  }

  /** The complete frames at the front of a byte stream. */
  function FramesOf(s: Bytes): seq<Frame>
    decreases |s|
  {
    match Parse(s)
    case Got(f, n) => [f] + FramesOf(s[n..])
    case _ => []
  }

  /** What was written frame by frame is read back frame by frame. */
  lemma {:induction false} FramesOfEncoded(fs: seq<Frame>, masks: seq<Option<Mask>>)
    requires |masks| >= |fs| && Acceptable(fs)
    ensures FramesOf(EncodeFrames(fs, masks)) == fs
  {
    hide EncodeFrame;
    if fs != [] {
      var first, rest := EncodeFrame(fs[0], masks[0]), EncodeFrames(fs[1..], masks[1..]);
      ParseInvertsEncode(fs[0], masks[0], rest);
      assert (first + rest)[|first|..] == rest;
      FramesOfEncoded(fs[1..], masks[1..]);
    } else {
      assert Parse([]).NeedMore?;
    }
  }

  /** For each complete frame at the front of a byte stream, whether it is masked. */
  function MaskBits(s: Bytes): seq<bool>
    decreases |s|
  {
    match Parse(s)
    case Got(_, n) => [s[1] >= 128] + MaskBits(s[n..])
    case _ => []
  }

  /** Every frame written under a mask says so. */
  lemma {:induction false} MaskBitsOfEncoded(fs: seq<Frame>, masks: seq<Option<Mask>>)
    requires |masks| >= |fs| && Acceptable(fs)
    ensures |MaskBits(EncodeFrames(fs, masks))| == |fs|
    ensures forall i :: 0 <= i < |fs| ==> MaskBits(EncodeFrames(fs, masks))[i] == masks[i].Some?
  {
    hide EncodeFrame;
    if fs != [] {
      var first, rest := EncodeFrame(fs[0], masks[0]), EncodeFrames(fs[1..], masks[1..]);
      ParseInvertsEncode(fs[0], masks[0], rest);
      assert (first + rest)[|first|..] == rest && (first + rest)[1] == first[1];
      MaskBitOfEncoded(fs[0], masks[0]);
      MaskBitsOfEncoded(fs[1..], masks[1..]);
    } else {
      assert Parse([]).NeedMore?;
    }
  }

  lemma MaskBitOfEncoded(f: Frame, mask: Option<Mask>)
    ensures EncodeFrame(f, mask)[1] >= 128 <==> mask.Some?
  {
    assert LengthField(|f.payload|, mask.Some?)[0] >= 128 <==> mask.Some?;
  }

  lemma {:induction false} EncodeFramesConcat(fs: seq<Frame>, gs: seq<Frame>, masks: seq<Option<Mask>>)
    requires |masks| >= |fs| + |gs|
    ensures EncodeFrames(fs + gs, masks) == EncodeFrames(fs, masks) + EncodeFrames(gs, masks[|fs|..])
  {
    if fs == [] {
      assert fs + gs == gs && masks[|fs|..] == masks;
    } else {
      assert (fs + gs)[1..] == fs[1..] + gs;
      assert masks[1..][|fs[1..]|..] == masks[|fs|..];
      EncodeFramesConcat(fs[1..], gs, masks[1..]);
    }
  }

  /** `d` followed by what `gs` decode to from the state `d` reached. */
  function Continue(d: Decoded, gs: seq<Frame>): Decoded {
    if d.end.Waiting? then Prepend(d.messages, d.replies, DecodeFrames(d.end.asm, gs)) else d
  }

  lemma PrependContinue(ms: seq<Message>, rs: seq<Frame>, d: Decoded, gs: seq<Frame>)
    ensures Continue(Prepend(ms, rs, d), gs) == Prepend(ms, rs, Continue(d, gs))
  {
    if d.end.Waiting? {
      PrependTwice(ms, rs, d, DecodeFrames(d.end.asm, gs));
    }
  }

  lemma {:induction false} DecodeFramesConcat(asm: Assembly, fs: seq<Frame>, gs: seq<Frame>)
    ensures DecodeFrames(asm, fs + gs) == Continue(DecodeFrames(asm, fs), gs)
    decreases |fs|
  {
    if fs == [] {
      assert fs + gs == gs;
    } else {
      assert (fs + gs)[1..] == fs[1..] + gs;
      var next := Absorb(asm, fs[0]);
      if next.More? {
        DecodeFramesConcat(next.asm, fs[1..], gs);
        PrependContinue([], Replies(fs[0]), DecodeFrames(next.asm, fs[1..]), gs);
      } else if next.Deliver? && !next.message.kind.Close? {
        DecodeFramesConcat(Idle, fs[1..], gs);
        PrependContinue([next.message], Replies(fs[0]), DecodeFrames(Idle, fs[1..]), gs);
      }
    }
  }

  // ----------------------------------------------------------- fragmentation

  function OpcodeOf(kind: Kind): nibble {
    if kind == Text then OP_TEXT else OP_BINARY
  }

  /** The frames `send` cuts from `off` onwards. */
  function FragmentsFrom(opcode: nibble, data: Bytes, off: nat): seq<Frame>
    requires off <= |data|
    decreases |data| - off
  {
    var op := if off == 0 then opcode else OP_CONT;
    if |data| - off <= FRAG_SIZE then [Frame(op, true, data[off..])]
    else [Frame(op, false, data[off..off + FRAG_SIZE])] + FragmentsFrom(opcode, data, off + FRAG_SIZE)
  }

  function Fragments(m: Message): seq<Frame> {
    FragmentsFrom(OpcodeOf(m.kind), m.payload, 0)
  }

  lemma {:induction false} FragmentsAcceptable(opcode: nibble, data: Bytes, off: nat)
    requires off <= |data|
    ensures Acceptable(FragmentsFrom(opcode, data, off))
    ensures forall f :: f in FragmentsFrom(opcode, data, off) ==> |f.payload| <= 61440
    ensures |FragmentsFrom(opcode, data, off)| == if off == |data| then 1 else (|data| - off + 61439) / 61440
    decreases |data| - off
  {
    if |data| - off > FRAG_SIZE {
      FragmentsAcceptable(opcode, data, off + FRAG_SIZE);
    }
  }

  /** The fragments from `off` on, one by one. */
  lemma {:induction false} FragmentAt(opcode: nibble, data: Bytes, off: nat, i: nat)
    requires off <= |data| && off % 61440 == 0 && i < |FragmentsFrom(opcode, data, off)|
    ensures var fs, from := FragmentsFrom(opcode, data, off), off + 61440 * i;
            && from <= |data|
            && fs[i].opcode == (if from == 0 then opcode else 0)
            && (fs[i].fin <==> i == |fs| - 1)
            && (fs[i].fin <==> |data| - from <= 61440)
            && fs[i].payload == data[from..if fs[i].fin then |data| else from + 61440]
    decreases |data| - off
  {
    var fs := FragmentsFrom(opcode, data, off);
    if |data| - off > FRAG_SIZE {
      var rest := FragmentsFrom(opcode, data, off + FRAG_SIZE);
      assert fs[1..] == rest;
      if i > 0 {
        FragmentAt(opcode, data, off + FRAG_SIZE, i - 1);
        assert fs[i] == rest[i - 1];
      } else {
        FragmentsAcceptable(opcode, data, off + FRAG_SIZE);
      }
    }
  }

  /**
   What is sent for a message, in the numbers of section 11.8 of RFC 6455: text
   (1) or binary (2), then continuations (0), each of 61440 octets of it but the
   last, which alone is final.
   */
  lemma FragmentsOnTheWire(m: Message, i: nat)
    requires !m.kind.Close? && i < |Fragments(m)|
    ensures var f, from := Fragments(m)[i], 61440 * i;
            && from <= |m.payload|
            && f.opcode == (if i > 0 then 0 else if m.kind.Text? then 1 else 2)
            && (f.fin <==> i == |Fragments(m)| - 1)
            && (f.fin <==> |m.payload| - from <= 61440)
            && f.payload == m.payload[from..if f.fin then |m.payload| else from + 61440]
  {
    FragmentAt(OpcodeOf(m.kind), m.payload, 0, i);
  }

  /** What a frame makes the receiver send: a pong (10) for a ping (9), a close (8) for a close, nothing else. */
  lemma RepliesOnTheWire(f: Frame)
    ensures Replies(f) ==
            if f.opcode == 9 then [Frame(10, true, f.payload)]
            else if f.opcode == 8 then [Frame(8, true, if |f.payload| > 2 then f.payload[..2] else f.payload)]
            else []
  {
  }

  lemma {:induction false} TailReassembles(opcode: nibble, data: Bytes, off: nat)
    requires opcode == OP_TEXT || opcode == OP_BINARY
    requires 0 < off <= |data|
    ensures DecodeFrames(Partial(opcode, data[..off]), FragmentsFrom(opcode, data, off)) ==
            Decoded([Message(KindOf(opcode), data)], [], Waiting(Idle, []))
    decreases |data| - off
  {
    var fs := FragmentsFrom(opcode, data, off);
    if |data| - off <= FRAG_SIZE {
      assert data[..off] + data[off..] == data;
      assert fs[1..] == [];
    } else {
      assert data[..off] + data[off..off + FRAG_SIZE] == data[..off + FRAG_SIZE];
      assert fs[1..] == FragmentsFrom(opcode, data, off + FRAG_SIZE);
      TailReassembles(opcode, data, off + FRAG_SIZE);
    }
  }

  /** Reassembling the fragments of a message gives the message, whatever its size. */
  lemma FragmentsReassemble(m: Message)
    requires !m.kind.Close?
    ensures DecodeFrames(Idle, Fragments(m)) == Decoded([m], [], Waiting(Idle, []))
  {
    var op, fs := OpcodeOf(m.kind), Fragments(m);
    if |m.payload| <= FRAG_SIZE {
      assert m.payload[0..] == m.payload;
      assert fs[1..] == [];
    } else {
      assert m.payload[0..FRAG_SIZE] == m.payload[..FRAG_SIZE];
      assert fs[1..] == FragmentsFrom(op, m.payload, FRAG_SIZE);
      TailReassembles(op, m.payload, FRAG_SIZE);
    }
  }

  lemma {:induction false} CutAtFrameEnd(asm: Assembly, fs: seq<Frame>)
    ensures var e := DecodeFrames(asm, fs).end; e.Waiting? ==> e.rest == []
    decreases |fs|
  {
    if fs != [] {
      CutAtFrameEnd(After(asm, fs[0]), fs[1..]);
    }
  }

  lemma FragmentsOfAcceptable(m: Message)
    ensures Acceptable(Fragments(m))
  {
    FragmentsAcceptable(OpcodeOf(m.kind), m.payload, 0);
  }

  /** After some but not all later fragments, a message is still being collected. */
  lemma {:induction false} TailStillPartial(opcode: nibble, data: Bytes, off: nat, k: nat)
    requires 0 < off <= |data| && k < |FragmentsFrom(opcode, data, off)|
    ensures var fs := FragmentsFrom(opcode, data, off);
            && fs[k].opcode == OP_CONT
            && DecodeFrames(Partial(opcode, data[..off]), fs[..k]).messages == []
            && DecodeFrames(Partial(opcode, data[..off]), fs[..k]).end.Waiting?
            && DecodeFrames(Partial(opcode, data[..off]), fs[..k]).end.asm.Partial?
    decreases |data| - off
  {
    var fs := FragmentsFrom(opcode, data, off);
    if k > 0 {
      assert data[..off] + data[off..off + FRAG_SIZE] == data[..off + FRAG_SIZE];
      assert fs[1..] == FragmentsFrom(opcode, data, off + FRAG_SIZE);
      assert fs[..k][1..] == fs[1..][..k - 1];
      TailStillPartial(opcode, data, off + FRAG_SIZE, k - 1);
    }
  }

  lemma CutFragmentsStillPartial(m: Message, k: nat)
    requires 0 < k < |Fragments(m)|
    ensures Fragments(m)[k].opcode == OP_CONT
    ensures DecodeFrames(Idle, Fragments(m)[..k]).messages == []
    ensures DecodeFrames(Idle, Fragments(m)[..k]).end.Waiting? && DecodeFrames(Idle, Fragments(m)[..k]).end.asm.Partial?
    ensures DecodeFrames(Idle, Fragments(m)[..k]).end == Waiting(DecodeFrames(Idle, Fragments(m)[..k]).end.asm, [])
    ensures DecodeFrames(Idle, Fragments(m)[k..]) == Decoded([], [], Broken)
  {
    CutAtFrameEnd(Idle, Fragments(m)[..k]);
    var op, fs := OpcodeOf(m.kind), Fragments(m);
    assert m.payload[0..FRAG_SIZE] == m.payload[..FRAG_SIZE];
    assert fs[1..] == FragmentsFrom(op, m.payload, FRAG_SIZE);
    assert fs[..k][1..] == fs[1..][..k - 1];
    TailStillPartial(op, m.payload, FRAG_SIZE, k - 1);
  }

  /** The frames of a list of messages, sent one after the other. */
  function AllFragments(ms: seq<Message>): seq<Frame> {
    if ms == [] then [] else Fragments(ms[0]) + AllFragments(ms[1..])
  }

  ghost predicate DataOnly(ms: seq<Message>) {
    forall i :: 0 <= i < |ms| ==> !ms[i].kind.Close?
  }

  lemma {:induction false} AllFragmentsDecode(ms: seq<Message>)
    requires DataOnly(ms)
    ensures DecodeFrames(Idle, AllFragments(ms)) == Decoded(ms, [], Waiting(Idle, []))
    ensures Acceptable(AllFragments(ms))
  {
    if ms != [] {
      FragmentsReassemble(ms[0]);
      FragmentsAcceptable(OpcodeOf(ms[0].kind), ms[0].payload, 0);
      AllFragmentsDecode(ms[1..]);
      DecodeFramesConcat(Idle, Fragments(ms[0]), AllFragments(ms[1..]));
      assert [ms[0]] + ms[1..] == ms;
    }
  }

  /** The stream `send` writes for `ms` decodes to `ms`, under any masks. */
  lemma SentStreamDecodes(ms: seq<Message>, masks: seq<Option<Mask>>)
    requires DataOnly(ms) && |masks| >= |AllFragments(ms)|
    ensures Decode(Idle, EncodeFrames(AllFragments(ms), masks)) == Decoded(ms, [], Waiting(Idle, []))
  {
    AllFragmentsDecode(ms);
    DecodeEncoded(Idle, AllFragments(ms), masks);
  }

  // ------------------------------------------------------------ control frames

  predicate IsPingPong(f: Frame) {
    f.opcode == OP_PING || f.opcode == OP_PONG
  }

  function WithoutPingPong(fs: seq<Frame>): seq<Frame> {
    if fs == [] then []
    else if IsPingPong(fs[0]) then WithoutPingPong(fs[1..])
    else [fs[0]] + WithoutPingPong(fs[1..])
  }

  /** The pongs owed for the pings of `fs`, in order. */
  function Pongs(fs: seq<Frame>): seq<Frame> {
    if fs == [] then []
    else (if fs[0].opcode == OP_PING then [Frame(OP_PONG, true, fs[0].payload)] else []) + Pongs(fs[1..])
  }

  lemma {:induction false} PongsAcceptable(fs: seq<Frame>)
    requires Acceptable(fs)
    ensures Acceptable(Pongs(fs)) && |Pongs(fs)| <= |fs|
  {
    if fs != [] {
      PongsAcceptable(fs[1..]);
    }
  }

  /** Pings and pongs, wherever they fall, leave the messages and the final state alone. */
  lemma {:induction false} PingPongInvisible(asm: Assembly, fs: seq<Frame>)
    ensures DecodeFrames(asm, fs).messages == DecodeFrames(asm, WithoutPingPong(fs)).messages
    ensures DecodeFrames(asm, fs).end == DecodeFrames(asm, WithoutPingPong(fs)).end
    decreases |fs|
  {
    if fs != [] {
      if IsPingPong(fs[0]) {
        PingPongInvisible(asm, fs[1..]);
      } else {
        var w := WithoutPingPong(fs);
        assert w[0] == fs[0] && w[1..] == WithoutPingPong(fs[1..]);
        var next := Absorb(asm, fs[0]);
        if next.More? {
          PingPongInvisible(next.asm, fs[1..]);
        } else if next.Deliver? && !next.message.kind.Close? {
          PingPongInvisible(Idle, fs[1..]);
        }
      }
    }
  }

  /** How many frames are read before a stream ends: up to a close frame or a violation. */
  function Used(asm: Assembly, fs: seq<Frame>): (n: nat)
    ensures n <= |fs|
    ensures DecodeFrames(asm, fs).end.Shut? ==> n > 0 && fs[n - 1].opcode == OP_CLOSE
    ensures DecodeFrames(asm, fs).end.Waiting? ==> n == |fs|
    decreases |fs|
  {
    if fs == [] then 0
    else
      match Absorb(asm, fs[0])
      case More(a) => 1 + Used(a, fs[1..])
      case Violation => 1
      case Deliver(m) => if m.kind.Close? then 1 else 1 + Used(Idle, fs[1..])
  }

  /** One pong for each ping read, with its payload, and a close for the close frame that ends the stream. */
  function Answers(fs: seq<Frame>): seq<Frame> {
    var n := Used(Idle, fs);
    Pongs(fs[..n]) + if DecodeFrames(Idle, fs).end.Shut? then [CloseReply(fs[n - 1])] else []
  }

  /** The replies to any frames at all, also to those a close frame or a violation cuts short. */
  lemma {:induction false} RepliesExplained(asm: Assembly, fs: seq<Frame>)
    ensures var n, d := Used(asm, fs), DecodeFrames(asm, fs);
            d.replies == Pongs(fs[..n]) + if d.end.Shut? then [CloseReply(fs[n - 1])] else []
    decreases |fs|
  {
    hide Pongs, Absorb, Replies, Used, DecodeFrames, CloseReply, Continues, After;
    Nothing(asm);
    NoPongs();
    var n, d := Used(asm, fs), DecodeFrames(asm, fs);
    if fs == [] {
      assert fs[..n] == [];
    } else {
      UsedStep(asm, fs);
      FirstPong(fs, n);
      if Continues(asm, fs[0]) {
        RepliesExplained(After(asm, fs[0]), fs[1..]);
        var bye := if d.end.Shut? then [CloseReply(fs[n - 1])] else [];
        Reassociate(Replies(fs[0]), Pongs(fs[1..][..n - 1]), bye);
      } else {
        assert fs[1..][..0] == [];
      }
    }
  }

  lemma Nothing(asm: Assembly)
    ensures Used(asm, []) == 0 && DecodeFrames(asm, []).replies == [] && !DecodeFrames(asm, []).end.Shut?
  {
  }

  lemma UsedStep(asm: Assembly, fs: seq<Frame>)
    requires fs != []
    ensures Used(asm, fs) == 1 + if Continues(asm, fs[0]) then Used(After(asm, fs[0]), fs[1..]) else 0
    ensures DecodeFrames(asm, fs).replies ==
            Replies(fs[0]) + if Continues(asm, fs[0]) then DecodeFrames(After(asm, fs[0]), fs[1..]).replies else []
    ensures var e := DecodeFrames(asm, fs).end;
            if Continues(asm, fs[0]) then e == DecodeFrames(After(asm, fs[0]), fs[1..]).end
            else (e.Shut? <==> fs[0].opcode == OP_CLOSE) && !e.Waiting?
    ensures Replies(fs[0]) == if fs[0].opcode == OP_PING then [Frame(OP_PONG, true, fs[0].payload)]
                              else if fs[0].opcode == OP_CLOSE then [CloseReply(fs[0])] else []
    ensures fs[0].opcode == OP_PING ==> Continues(asm, fs[0])
    ensures fs[0].opcode == OP_CLOSE ==> !Continues(asm, fs[0])
  {
    assert Replies(fs[0]) + [] == Replies(fs[0]);
  }

  lemma NoPongs()
    ensures Pongs([]) == []
  {
  }

  lemma FirstPong(fs: seq<Frame>, n: nat)
    requires 0 < n <= |fs|
    ensures Pongs(fs[..n]) == (if fs[0].opcode == OP_PING then Replies(fs[0]) else []) + Pongs(fs[1..][..n - 1])
  {
    assert fs[..n][1..] == fs[1..][..n - 1];
  }

  /** The decoder goes on behind this frame. */
  ghost predicate Continues(asm: Assembly, f: Frame) {
    var next := Absorb(asm, f);
    next.More? || (next.Deliver? && !next.message.kind.Close?)
  }

  lemma {:induction false} AnswersAcceptable(fs: seq<Frame>)
    requires Acceptable(fs)
    ensures Acceptable(Answers(fs))
  {
    var n := Used(Idle, fs);
    PongsAcceptable(fs[..n]);
  }
}
