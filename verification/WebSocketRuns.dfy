/** Whole uses of the engine: many sends, many receives, and both together. */
module WebSocketRuns {
  import opened Common
  import opened Framing
  import opened Messages
  import opened Receiving
  import opened WebSocketEngine

  // ------------------------------------------------------------------ sending

  /** Sends messages one after the other, as long as that succeeds. */
  method SendAll(ws: WebSocket, ms: seq<Message>) returns (r: Status)
    requires !ws.closed && DataOnly(ms)
    modifies ws.wire, ws.rng
    ensures ws.wire.script == old(ws.wire.script)
    ensures Wrote(AllFragments(ms), Before(old(ws.rng.pool), Reliable(old(ws.wire.refusals)), old(ws.wire.out)),
                  ws.rng.pool, ws.wire.refusals, ws.wire.out, r)
  {
    ghost var was := Before(ws.rng.pool, Reliable(ws.wire.refusals), ws.wire.out);
    r := Ok(());
    assert AllFragments(ms[..0]) == [];
    hide Wrote, Reliable, Fragments, AllFragments;
    WroteNothing(was, ws.wire.refusals);
    for i := 0 to |ms|
      invariant ws.wire.script == old(ws.wire.script)
      invariant r.Ok? && Wrote(AllFragments(ms[..i]), was, ws.rng.pool, ws.wire.refusals, ws.wire.out, r)
    {
      ghost var mid, midRefusals := Before(ws.rng.pool, Reliable(ws.wire.refusals), ws.wire.out), ws.wire.refusals;
      ghost var before := r;
      assert DataOnly([ms[i]]);
      r := ws.Send(ms[i].kind, ms[i].payload);
      WroteMore(AllFragments(ms[..i]), Fragments(ms[i]), was, before, mid, midRefusals,
                ws.rng.pool, ws.wire.refusals, ws.wire.out, r);
      AllFragmentsMore(ms, i);
      if r.Err? {
        WroteFailed(AllFragments(ms[..i + 1]), AllFragments(ms), was, ws.rng.pool, ws.wire.refusals, ws.wire.out, r);
        return;
      }
    }
    assert ms[..|ms|] == ms;
  }

  lemma {:induction false} AllFragmentsConcat(a: seq<Message>, b: seq<Message>)
    requires DataOnly(a) && DataOnly(b) && DataOnly(a + b)
    ensures AllFragments(a + b) == AllFragments(a) + AllFragments(b)
  {
    hide Fragments;
    if a == [] {
      assert a + b == b;
    } else {
      assert (a + b)[1..] == a[1..] + b;
      AllFragmentsConcat(a[1..], b);
      Reassociate(Fragments(a[0]), AllFragments(a[1..]), AllFragments(b));
    }
  }

  lemma AllFragmentsMore(ms: seq<Message>, i: nat)
    requires DataOnly(ms) && i < |ms|
    ensures AllFragments(ms[..i + 1]) == AllFragments(ms[..i]) + Fragments(ms[i])
    ensures |AllFragments(ms[..i + 1])| <= |AllFragments(ms)|
  {
    hide Fragments;
    assert ms[..i + 1] == ms[..i] + [ms[i]];
    AllFragmentsConcat(ms[..i], [ms[i]]);
    assert [ms[i]][1..] == [];
    assert AllFragments([ms[i]]) == Fragments(ms[i]) + AllFragments([]);
    assert ms == ms[..i + 1] + ms[i + 1..];
    AllFragmentsConcat(ms[..i + 1], ms[i + 1..]);
  }

  // ---------------------------------------------------------------- receiving

  /** Receives until the connection ends or is violated. */
  method RecvAll(ws: WebSocket, timeoutMs: int) returns (rs: seq<Result<Message>>)
    requires !ws.closed
    modifies ws, ws.wire, ws.rng
    ensures rs == Drain(timeoutMs < 0, old(ws.inbuf), old(ws.wire.script))
    ensures Accounted(DrainReplies(timeoutMs < 0, old(ws.inbuf), old(ws.wire.script)),
                      Before(old(ws.rng.pool), Reliable(old(ws.wire.refusals)), old(ws.wire.out)),
                      ws.rng.pool, ws.wire.refusals, ws.wire.out)
  {
    hide Receiving.Recv, EncodeFrames, Reliable;
    ghost var patient, was := timeoutMs < 0, Before(ws.rng.pool, Reliable(ws.wire.refusals), ws.wire.out);
    ghost var done: seq<Frame> := [];
    rs := [];
    AccountedNothing(was, ws.wire.refusals);
    hide Accounted;
    var goesOn := true;
    while goesOn
      invariant goesOn ==> !ws.closed
      invariant Drain(patient, old(ws.inbuf), old(ws.wire.script)) ==
                rs + if goesOn then Drain(patient, ws.inbuf, ws.wire.script) else []
      invariant DrainReplies(patient, old(ws.inbuf), old(ws.wire.script)) ==
                done + if goesOn then DrainReplies(patient, ws.inbuf, ws.wire.script) else []
      invariant Accounted(done, was, ws.rng.pool, ws.wire.refusals, ws.wire.out)
      decreases goesOn, |ws.wire.script|, |ws.inbuf|
    {
      ghost var o := Receiving.Recv(Idle, ws.inbuf, ws.wire.script, patient);
      ghost var mid := Before(ws.rng.pool, Reliable(ws.wire.refusals), ws.wire.out);
      ghost var midRefusals := ws.wire.refusals;
      DrainStep(patient, ws.inbuf, ws.wire.script, rs, done);
      var r := ws.Recv(timeoutMs);
      AccountedMore(done, o.replies, was, mid, midRefusals, ws.rng.pool, ws.wire.refusals, ws.wire.out);
      rs := rs + [r];
      done := done + o.replies;
      goesOn := !ws.closed && r != Err(Protocol);
    }
    assert rs + [] == rs && done + [] == done;
  }

  lemma DrainStep(patient: bool, buf: Bytes, script: Script, rs: seq<Result<Message>>, done: seq<Frame>)
    ensures var o := Receiving.Recv(Idle, buf, script, patient);
            && rs + Drain(patient, buf, script) ==
               rs + [o.result] + (if Resumable(o) then Drain(patient, o.buf, o.script) else [])
            && done + DrainReplies(patient, buf, script) ==
               done + o.replies + (if Resumable(o) then DrainReplies(patient, o.buf, o.script) else [])
  {
    hide Receiving.Recv;
    var o := Receiving.Recv(Idle, buf, script, patient);
    var later := if Resumable(o) then Drain(patient, o.buf, o.script) else [];
    var more := if Resumable(o) then DrainReplies(patient, o.buf, o.script) else [];
    Reassociate(rs, [o.result], later);
    Reassociate(done, o.replies, more);
  }

  lemma AccountedNothing(was: Before, refusals: seq<bool>)
    requires was.sound ==> Reliable(refusals)
    ensures Accounted([], was, was.pool, refusals, was.out)
  {
    assert was.pool[0..] == was.pool;
    assert was.out + [] == was.out;
  }

  lemma AccountedMore(done: seq<Frame>, more: seq<Frame>, was: Before, mid: Before, midRefusals: seq<bool>,
                      pool: seq<Option<Mask>>, refusals: seq<bool>, out: Bytes)
    requires Accounted(done, was, mid.pool, midRefusals, mid.out) && mid.sound == Reliable(midRefusals)
    requires Accounted(more, mid, pool, refusals, out)
    ensures Accounted(done + more, was, pool, refusals, out)
  {
    hide EncodeFrames, Reliable;
    var n := |done|;
    if was.sound && Supplied(was.pool, |done + more|) {
      assert mid.pool == was.pool[n..];
      assert forall i :: 0 <= i < |more| ==> mid.pool[i] == was.pool[n + i];
      EncodeFramesConcat(done, more, was.pool);
      Reassociate(was.out, EncodeFrames(done, was.pool), EncodeFrames(more, mid.pool));
    }
  }

  // ----------------------------------------------------------------- together

  /** Pieces of the sizes asked for, as far as a read can deliver them; then the rest in full reads. */
  method Cut(s: Bytes, sizes: seq<nat>) returns (script: Script)
    ensures Stream(script) == s && Flowing(script)
  {
    hide Flowing;
    script := [];
    var left, i := s, 0;
    NothingFlows();
    while left != []
      invariant Flowing(script) && Stream(script) + left == s
      decreases |left|
    {
      var n := if i < |sizes| && sizes[i] > 0 then sizes[i] else READ_SIZE;
      n := if n < READ_SIZE then n else READ_SIZE;
      n := if n < |left| then n else |left|;
      StreamMore(script, left[..n]);
      assert left == left[..n] + left[n..];
      Reassociate(Stream(script), left[..n], left[n..]);
      script := script + [Data(left[..n])];
      left := left[n..];
      i := i + 1;
    }
    assert Stream(script) + [] == Stream(script);
  }

  lemma NothingFlows()
    ensures Flowing([])
  {
  }

  lemma {:induction false} StreamMore(script: Script, piece: Chunk)
    requires Flowing(script) && piece != []
    ensures Flowing(script + [Data(piece)]) && Stream(script + [Data(piece)]) == Stream(script) + piece
  {
    if script == [] {
      assert [Data(piece)][1..] == [];
      assert Stream([Data(piece)]) == piece + Stream([]);
    } else {
      assert script[0] in script;
      assert (script + [Data(piece)])[1..] == script[1..] + [Data(piece)];
      StreamMore(script[1..], piece);
      Reassociate(script[0].bytes, Stream(script[1..]), piece);
    }
  }

  /**
   Messages sent by one engine and read by another, in pieces of any sizes, are
   those messages, in order and with their kinds, and nothing is sent back.
   */
  method Convey(sender: WebSocket, ms: seq<Message>, sizes: seq<nat>, timeoutMs: int) returns (rs: seq<Result<Message>>)
    requires !sender.closed && sender.wire.out == [] && DataOnly(ms)
    requires Reliable(sender.wire.refusals) && Supplied(sender.rng.pool, |AllFragments(ms)|)
    modifies sender.wire, sender.rng
    ensures Delivered(rs) == ms
  {
    hide Receiving.Recv, EncodeFrames, AllFragments, Drain, Stream, Calm, Flowing;
    var sent := SendAll(sender, ms);
    assert [] + EncodeFrames(AllFragments(ms), old(sender.rng.pool)) == EncodeFrames(AllFragments(ms), old(sender.rng.pool));
    var script := Cut(sender.wire.out, sizes);
    var wire := new Wire(script, []);
    var rng := new Entropy([]);
    var receiver := new WebSocket(wire, rng, []);
    rs := RecvAll(receiver, timeoutMs);
    FlowingIsCalm(Idle, [], script);
    SendRecvRoundTrip(ms, old(sender.rng.pool), script, timeoutMs < 0);
  }

  /**
   Receiving any stream, whatever ends it, delivers what it holds without its
   pings and pongs, and leaves on the wire one masked pong for each ping read,
   with its payload, in order, and then a close if a close was read, if sends
   succeed and masks can be drawn.
   */
  method Listen(ws: WebSocket, timeoutMs: int, ghost fs: seq<Frame>, ghost masks: seq<Option<Mask>>)
    returns (rs: seq<Result<Message>>)
    requires !ws.closed && ws.inbuf == [] && ws.wire.out == []
    requires Acceptable(fs) && |masks| >= |fs|
    requires Stream(ws.wire.script) == EncodeFrames(fs, masks)
    requires timeoutMs < 0 || Calm(Idle, [], ws.wire.script)
    modifies ws, ws.wire, ws.rng
    ensures Delivered(rs) == DecodeFrames(Idle, WithoutPingPong(fs)).messages
    ensures Reliable(old(ws.wire.refusals)) && Supplied(old(ws.rng.pool), |Answers(fs)|) ==>
              && FramesOf(ws.wire.out) == Answers(fs)
              && MaskBits(ws.wire.out) == seq(|Answers(fs)|, _ => true)
  {
    hide Receiving.Recv, EncodeFrames, Drain, DrainReplies, Stream, Calm, FramesOf, MaskBits, Answers;
    hide DecodeFrames, WithoutPingPong;
    ghost var script, pool := ws.wire.script, ws.rng.pool;
    PingPongOnTheWire(fs, masks, script, timeoutMs < 0);
    rs := RecvAll(ws, timeoutMs);
    if Reliable(old(ws.wire.refusals)) && Supplied(pool, |Answers(fs)|) {
      AnswersOnTheWire(fs, masks, script, timeoutMs < 0, pool);
      assert [] + EncodeFrames(Answers(fs), pool) == EncodeFrames(Answers(fs), pool);
    }
  }
}
