/** Which lists of frames stand for which messages, however a peer cuts them (section 5.4 of RFC 6455). */
module Grouping {
  import opened Common
  import opened Framing
  import opened Messages

  /** A message in pieces: text or binary, the first piece, and those that continue it. */
  datatype Group = Group(binary: bool, first: Bytes, more: seq<Bytes>)

  /** One frame for each piece but the last, none of them final. */
  function OpenFrames(g: Group): seq<Frame>
    decreases |g.more|
  {
    if g.more == [] then [Frame(if g.binary then 2 else 1, false, g.first)]
    else OpenFrames(g.(more := g.more[..|g.more| - 1])) + [Frame(0, false, g.more[|g.more| - 1])]
  }

  /** One frame for each piece, the last of them final. */
  function GroupFrames(g: Group): seq<Frame> {
    if g.more == [] then [Frame(if g.binary then 2 else 1, true, g.first)]
    else OpenFrames(g.(more := g.more[..|g.more| - 1])) + [Frame(0, true, g.more[|g.more| - 1])]
  }

  function GroupData(g: Group): Bytes
    decreases |g.more|
  {
    if g.more == [] then g.first
    else GroupData(g.(more := g.more[..|g.more| - 1])) + g.more[|g.more| - 1]
  }

  function GroupMessage(g: Group): Message {
    Message(if g.binary then Binary else Text, GroupData(g))
  }

  /** The frames of some messages, each in pieces of its own, and of a message that is not complete. */
  function StreamFrames(groups: seq<Group>, open: Option<Group>): seq<Frame> {
    var front := if groups == [] then []
                 else StreamFrames(groups[..|groups| - 1], None) + GroupFrames(groups[|groups| - 1]);
    match open case None => front case Some(g) => front + OpenFrames(g)
  }

  function GroupMessages(groups: seq<Group>): seq<Message> {
    if groups == [] then []
    else GroupMessages(groups[..|groups| - 1]) + [GroupMessage(groups[|groups| - 1])]
  }

  /** What has been collected of the message that is not complete. */
  function Collected(open: Option<Group>): Assembly {
    match open
    case None => Idle
    case Some(g) => Partial(if g.binary then 2 else 1, GroupData(g))
  }

  /** The frames that are neither pings (9) nor pongs (10). */
  function DataFrames(fs: seq<Frame>): seq<Frame> {
    if fs == [] then []
    else if fs[0].opcode == 9 || fs[0].opcode == 10 then DataFrames(fs[1..])
    else [fs[0]] + DataFrames(fs[1..])
  }

  lemma {:induction false} DataFramesAre(fs: seq<Frame>)
    ensures DataFrames(fs) == WithoutPingPong(fs)
    ensures forall i :: 0 <= i < |DataFrames(fs)| ==> !IsPingPong(DataFrames(fs)[i])
  {
    if fs != [] {
      DataFramesAre(fs[1..]);
    }
  }

  // ----------------------------------------------------- groups are delivered

  lemma OneFrame(asm: Assembly, f: Frame)
    ensures DecodeFrames(asm, [f]) ==
            match Absorb(asm, f)
            case More(a) => Decoded([], Replies(f), Waiting(a, []))
            case Violation => Decoded([], Replies(f), Broken)
            case Deliver(m) => Decoded([m], Replies(f), if m.kind.Close? then Shut([]) else Waiting(Idle, []))
  {
    hide Absorb, Replies;
    assert Replies(f) + [] == Replies(f) && [f][1..] == [];
  }

  lemma {:induction false} OpenDecodes(g: Group)
    ensures DecodeFrames(Idle, OpenFrames(g)) == Decoded([], [], Waiting(Collected(Some(g)), []))
    decreases |g.more|
  {
    if g.more == [] {
      OneFrame(Idle, OpenFrames(g)[0]);
    } else {
      hide DecodeFrames, Prepend;
      var front, last := g.(more := g.more[..|g.more| - 1]), Frame(0, false, g.more[|g.more| - 1]);
      OpenDecodes(front);
      OneFrame(Collected(Some(front)), last);
      DecodeFramesConcat(Idle, OpenFrames(front), [last]);
      PrependNothing(DecodeFrames(Collected(Some(front)), [last]));
    }
  }

  lemma PrependNothing(d: Decoded)
    ensures Prepend([], [], d) == d
  {
    assert [] + d.messages == d.messages && [] + d.replies == d.replies;
  }

  lemma GroupDecodes(g: Group)
    ensures DecodeFrames(Idle, GroupFrames(g)) == Decoded([GroupMessage(g)], [], Waiting(Idle, []))
  {
    if g.more == [] {
      OneFrame(Idle, GroupFrames(g)[0]);
    } else {
      hide DecodeFrames, Prepend;
      var front, last := g.(more := g.more[..|g.more| - 1]), Frame(0, true, g.more[|g.more| - 1]);
      OpenDecodes(front);
      OneFrame(Collected(Some(front)), last);
      DecodeFramesConcat(Idle, OpenFrames(front), [last]);
      PrependNothing(DecodeFrames(Collected(Some(front)), [last]));
    }
  }

  lemma {:induction false} GroupsDecode(groups: seq<Group>, open: Option<Group>)
    ensures DecodeFrames(Idle, StreamFrames(groups, open)) ==
            Decoded(GroupMessages(groups), [], Waiting(Collected(open), []))
    decreases |groups|, if open.None? then 0 else 1
  {
    hide DecodeFrames, GroupFrames, OpenFrames, GroupMessage, Collected;
    NothingDecodes();
    match open
    case None =>
      if groups != [] {
        var front, g := groups[..|groups| - 1], groups[|groups| - 1];
        GroupsDecode(front, None);
        GroupDecodes(g);
        DecodeFramesConcat(Idle, StreamFrames(front, None), GroupFrames(g));
      }
    case Some(g) =>
      GroupsDecode(groups, None);
      OpenDecodes(g);
      DecodeFramesConcat(Idle, StreamFrames(groups, None), OpenFrames(g));
      assert GroupMessages(groups) + [] == GroupMessages(groups);
  }

  lemma NothingDecodes()
    ensures DecodeFrames(Idle, []) == Decoded([], [], Waiting(Collected(None), [])) && Collected(None) == Idle
  {
  }

  // --------------------------------------------- all that is read are groups

  lemma {:induction false} GroupsFound(fs: seq<Frame>) returns (groups: seq<Group>, open: Option<Group>)
    requires DecodeFrames(Idle, fs).end.Waiting? && forall i :: 0 <= i < |fs| ==> !IsPingPong(fs[i])
    ensures fs == StreamFrames(groups, open)
    decreases |fs|
  {
    hide DecodeFrames, GroupFrames, OpenFrames, Absorb, Replies, StreamFrames, Prepend;
    if fs == [] {
      groups, open := [], None;
      NothingStreams();
    } else {
      var front, f := fs[..|fs| - 1], fs[|fs| - 1];
      assert fs == front + [f];
      DecodeFramesConcat(Idle, front, [f]);
      CutAtFrameEnd(Idle, front);
      groups, open := GroupsFound(front);
      GroupsDecode(groups, open);
      PrependEnd(GroupMessages(groups), [], DecodeFrames(Collected(open), [f]));
      OneFrame(Collected(open), f);
      groups, open := FrameAdded(groups, open, f);
    }
  }

  lemma PrependEnd(ms: seq<Message>, rs: seq<Frame>, d: Decoded)
    ensures Prepend(ms, rs, d).end == d.end
  {
  }

  lemma NothingStreams()
    ensures StreamFrames([], None) == []
  {
  }

  lemma StreamsClosed(groups: seq<Group>, g: Group)
    ensures StreamFrames(groups + [g], None) == StreamFrames(groups, None) + GroupFrames(g)
    ensures StreamFrames(groups, Some(g)) == StreamFrames(groups, None) + OpenFrames(g)
  {
    hide GroupFrames, OpenFrames;
    assert (groups + [g])[..|groups|] == groups;
  }

  /** A group with one more piece. */
  lemma Grown(h: Group, piece: Bytes) returns (g: Group)
    ensures g.binary == h.binary
    ensures OpenFrames(g) == OpenFrames(h) + [Frame(0, false, piece)]
    ensures GroupFrames(g) == OpenFrames(h) + [Frame(0, true, piece)]
  {
    g := h.(more := h.more + [piece]);
    assert g.more[..|g.more| - 1] == h.more;
  }

  /** One more frame, which is no violation and does not close the connection. */
  lemma FrameAdded(groups: seq<Group>, open: Option<Group>, f: Frame) returns (gs: seq<Group>, o: Option<Group>)
    requires var next := Absorb(Collected(open), f);
             next.More? || (next.Deliver? && !next.message.kind.Close?)
    requires !IsPingPong(f)
    ensures StreamFrames(gs, o) == StreamFrames(groups, open) + [f]
  {
    hide StreamFrames;
    var g := Group(f.opcode == 2, f.payload, []);
    var before := StreamFrames(groups, None);
    if open.Some? {
      hide OpenFrames, GroupFrames;
      g := Grown(open.value, f.payload);
      StreamsClosed(groups, open.value);
      Reassociate(before, OpenFrames(open.value), [f]);
    }
    StreamsClosed(groups, g);
    gs, o := if f.fin then groups + [g] else groups, if f.fin then None else Some(g);
  }

  // ---------------------------------------------------------------- results

  /**
   Which frames are read without a violation or a close: exactly those that, but
   for pings and pongs, are the pieces of some messages one after the other, each
   cut in any way, and perhaps the first pieces of one more; and those messages
   are then delivered.
   */
  lemma StreamGrammar(fs: seq<Frame>)
    ensures DecodeFrames(Idle, fs).end.Waiting? <==>
            exists groups, open :: DataFrames(fs) == StreamFrames(groups, open)
    ensures forall groups, open :: DataFrames(fs) == StreamFrames(groups, open) ==>
              && DecodeFrames(Idle, fs).messages == GroupMessages(groups)
              && DecodeFrames(Idle, fs).end == Waiting(Collected(open), [])
  {
    hide DecodeFrames, StreamFrames, GroupMessages, Collected;
    DataFramesAre(fs);
    PingPongInvisible(Idle, fs);
    if DecodeFrames(Idle, fs).end.Waiting? {
      var groups, open := GroupsFound(DataFrames(fs));
    }
    forall groups, open | DataFrames(fs) == StreamFrames(groups, open)
      ensures DecodeFrames(Idle, DataFrames(fs)).messages == GroupMessages(groups)
      ensures DecodeFrames(Idle, DataFrames(fs)).end == Waiting(Collected(open), [])
    {
      GroupsDecode(groups, open);
    }
  }

  /**
   Which frames are read up to a close: exactly those with a close frame (8)
   behind frames that are read without a violation or a close. Whatever else is
   a violation.
   */
  lemma CloseGrammar(fs: seq<Frame>)
    ensures DecodeFrames(Idle, fs).end.Shut? <==>
            exists k :: 0 <= k < |fs| && fs[k].opcode == 8 && DecodeFrames(Idle, fs[..k]).end.Waiting?
    ensures forall k :: 0 <= k < |fs| && fs[k].opcode == 8 && DecodeFrames(Idle, fs[..k]).end.Waiting? ==>
              DecodeFrames(Idle, fs).messages ==
              DecodeFrames(Idle, fs[..k]).messages + [Message(Close, fs[k].payload)]
  {
    hide DecodeFrames;
    if DecodeFrames(Idle, fs).end.Shut? {
      var k := CloseFound(Idle, fs);
    }
    forall k | 0 <= k < |fs| && fs[k].opcode == 8 && DecodeFrames(Idle, fs[..k]).end.Waiting?
      ensures DecodeFrames(Idle, fs).end.Shut?
      ensures DecodeFrames(Idle, fs).messages ==
              DecodeFrames(Idle, fs[..k]).messages + [Message(Close, fs[k].payload)]
    {
      CloseReads(fs, k);
    }
  }

  lemma CloseReads(fs: seq<Frame>, k: nat)
    requires k < |fs| && fs[k].opcode == 8 && DecodeFrames(Idle, fs[..k]).end.Waiting?
    ensures DecodeFrames(Idle, fs).end.Shut?
    ensures DecodeFrames(Idle, fs).messages ==
            DecodeFrames(Idle, fs[..k]).messages + [Message(Close, fs[k].payload)]
  {
    assert fs == fs[..k] + fs[k..];
    DecodeFramesConcat(Idle, fs[..k], fs[k..]);
  }

  lemma {:induction false} CloseFound(asm: Assembly, fs: seq<Frame>) returns (k: nat)
    requires DecodeFrames(asm, fs).end.Shut?
    ensures k < |fs| && fs[k].opcode == 8 && DecodeFrames(asm, fs[..k]).end.Waiting?
    decreases |fs|
  {
    hide Replies;
    if fs[0].opcode == 8 {
      k := 0;
      assert fs[..0] == [];
    } else {
      var j := CloseFound(After(asm, fs[0]), fs[1..]);
      k := j + 1;
      assert fs[..k][1..] == fs[1..][..j];
    }
  }
}
