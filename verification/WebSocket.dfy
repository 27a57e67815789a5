/** The WebSocket engine: a client connection over a scripted transport. */
module WebSocketEngine {
  import opened Common
  import opened Framing
  import opened Messages
  import opened Receiving

  type Status = Result<()>

  ghost predicate Reliable(refusals: seq<bool>) {
    forall i :: 0 <= i < |refusals| ==> !refusals[i]
  }

  /** The transport: what it will deliver, which sends it will refuse, what it has carried. */
  class Wire {
    var script: Script
    var refusals: seq<bool>
    var out: Bytes
    var shut: bool

    constructor (script: Script, refusals: seq<bool>)
      ensures this.script == script && this.refusals == refusals && out == [] && !shut
    {
      this.script, this.refusals, out, shut := script, refusals, [], false;
    }

    method Close()
      modifies this`shut
      ensures shut
    {
      shut := true;
    }

    /** Carries every octet of the span, or none and fails. */
    method Send(data: array<byte>, n: nat) returns (ok: bool)
      requires n <= data.Length
      modifies this
      ensures script == old(script)
      ensures out == if ok then old(out) + data[..n] else old(out)
      ensures Reliable(old(refusals)) ==> ok && Reliable(refusals)
    {
      ok := refusals == [] || !refusals[0];
      if refusals != [] {
        refusals := refusals[1..];
      }
      if ok {
        out := out + data[..n];
      }
    }

    /** Fills the front of `tmp`; zero octets is an orderly close. */
    method Recv(tmp: array<byte>) returns (r: Result<nat>)
      requires tmp.Length == READ_SIZE
      modifies this, tmp
      ensures out == old(out) && refusals == old(refusals)
      ensures old(script) == [] ==> r == Ok(0) && script == []
      ensures old(script) != [] ==> script == old(script)[1..]
      ensures old(script) != [] && old(script)[0].Fault? ==> r == Err(old(script)[0].error)
      ensures old(script) != [] && old(script)[0].Data? ==>
                r == Ok(|old(script)[0].bytes|) && tmp[..|old(script)[0].bytes|] == old(script)[0].bytes
    {
      if script == [] {
        return Ok(0);
      }
      var head := script[0];
      script := script[1..];
      match head
      case Fault(e) => return Err(e);
      case Data(b) =>
        forall i | 0 <= i < |b| {
          tmp[i] := b[i];
        }
        return Ok(|b|);
    }
  }

  /** The source of masks; an entry `None`, or the end, is a failure of the generator. */
  class Entropy {
    var pool: seq<Option<Mask>>

    constructor (pool: seq<Option<Mask>>)
      ensures this.pool == pool
    {
      this.pool := pool;
    }

    method RandomBytes() returns (mask: Option<Mask>)
      modifies this
      ensures old(pool) == [] ==> mask == None && pool == []
      ensures old(pool) != [] ==> mask == old(pool)[0] && pool == old(pool)[1..]
    {
      if pool == [] {
        return None;
      }
      mask := pool[0];
      pool := pool[1..];
    }
  }

  /** The first `n` masks are available. */
  ghost predicate Supplied(pool: seq<Option<Mask>>, n: nat) {
    n <= |pool| && forall i :: 0 <= i < n ==> pool[i].Some?
  }

  /** The masks left once `n` frames have asked for one. */
  function Rest(pool: seq<Option<Mask>>, n: nat): seq<Option<Mask>> {
    if n <= |pool| then pool[n..] else []
  }

  /** Where a connection stood before some control frames were sent. */
  datatype Before = Before(pool: seq<Option<Mask>>, sound: bool, out: Bytes)

  /** A send of `fs` ended with `r`: all of them are on the wire, masked as drawn, or the call failed. */
  ghost predicate Wrote(
      fs: seq<Frame>, was: Before, pool: seq<Option<Mask>>, refusals: seq<bool>, out: Bytes, r: Status) {
    && was.out <= out
    && (r.Ok? ==>
          Supplied(was.pool, |fs|) && pool == was.pool[|fs|..] && out == was.out + EncodeFrames(fs, was.pool))
    && (was.sound ==> Reliable(refusals))
    && (was.sound && Supplied(was.pool, |fs|) ==> r.Ok?)
  }

  /** The connection has since sent, or tried to send, the frames `done`. */
  ghost predicate Accounted(done: seq<Frame>, was: Before, pool: seq<Option<Mask>>, refusals: seq<bool>, out: Bytes) {
    && pool == Rest(was.pool, |done|)
    && (was.sound ==> Reliable(refusals))
    && (was.sound && Supplied(was.pool, |done|) ==> out == was.out + EncodeFrames(done, was.pool))
  }

  /**
   A single frame was to be sent: it is on the wire; or no mask could be drawn and
   nothing is; or the transport refused and a proper prefix is. It never fails
   otherwise.
   */
  ghost predicate SentOne(
      f: Frame, was: Before, pool: seq<Option<Mask>>, refusals: seq<bool>, out: Bytes, r: Status) {
    && pool == Rest(was.pool, 1)
    && (r == Err(Fail) <==> !Supplied(was.pool, 1))
    && (r == Err(Fail) ==> out == was.out)
    && (r.Ok? ==> out == was.out + EncodeFrame(f, was.pool[0]))
    && (r.Err? && r.error != Fail ==>
          r == Err(Io) && !was.sound && was.out <= out && out < was.out + EncodeFrame(f, was.pool[0]))
    && (was.sound ==> Reliable(refusals))
  }

  class WebSocket {
    const wire: Wire
    const rng: Entropy
    var inbuf: Bytes
    var closed: bool

    constructor (wire: Wire, rng: Entropy, leftover: Bytes)
      ensures this.wire == wire && this.rng == rng && inbuf == leftover && !closed
    {
      this.wire, this.rng, inbuf, closed := wire, rng, leftover, false;
    }

    /** Writes one masked frame; a refused send leaves a proper prefix of it on the wire. */
    method SendFrame(opcode: nibble, fin: bool, data: Bytes) returns (r: Status)
      modifies wire, rng
      ensures wire.script == old(wire.script)
      ensures rng.pool == Rest(old(rng.pool), 1)
      ensures r == Err(Fail) <==> !Supplied(old(rng.pool), 1)
      ensures r == Err(Fail) ==> wire.out == old(wire.out)
      ensures r.Ok? ==> wire.out == old(wire.out) + EncodeFrame(Frame(opcode, fin, data), old(rng.pool)[0])
      ensures r.Err? && r.error != Fail ==>
                && r == Err(Io) && !Reliable(old(wire.refusals))
                && old(wire.out) <= wire.out
                && wire.out < old(wire.out) + EncodeFrame(Frame(opcode, fin, data), old(rng.pool)[0])
      ensures Reliable(old(wire.refusals)) ==> Reliable(wire.refusals)
    {
      hide LengthField, Reliable, Masked, EncodeFrame;
      var len := |data|;
      ghost var f := Frame(opcode, fin, data);
      var hdr, h := BuildHeader(opcode, fin, len);
      ghost var head := hdr[..h];
      var drawn := rng.RandomBytes();
      if drawn.None? {
        return Err(Fail);
      }
      var mask := drawn.value;
      forall i | 0 <= i < 4 {
        hdr[h + i] := mask[i];
      }
      h := h + 4;
      assert hdr[..h] == head + mask;
      FrameSplits(f, mask, head);
      Reassociate(old(wire.out), head + mask, Masked(data, mask));
      Nonempty(old(wire.out), head + mask, Masked(data, mask));
      var ok := wire.Send(hdr, h);
      if !ok {
        return Err(Io);
      }
      assert wire.out == old(wire.out) + (head + mask);
      ok := SendMasked(data, mask);
      return if ok then Ok(()) else Err(Io);
    }

    /** Writes the payload in masked pieces of at most 8192 octets. */
    method SendMasked(data: Bytes, mask: Mask) returns (ok: bool)
      modifies wire
      ensures wire.script == old(wire.script)
      ensures ok ==> wire.out == old(wire.out) + Masked(data, mask)
      ensures !ok ==> old(wire.out) <= wire.out && wire.out < old(wire.out) + Masked(data, mask)
      ensures Reliable(old(wire.refusals)) ==> ok && Reliable(wire.refusals)
    {
      hide Masked, Reliable;
      var len, off := |data|, 0;
      ghost var hidden := Masked(data, mask);
      var chunk := new byte[8192];
      while off < len
        invariant 0 <= off <= len
        invariant wire.out == old(wire.out) + hidden[..off]
        invariant wire.script == old(wire.script)
        invariant Reliable(old(wire.refusals)) ==> Reliable(wire.refusals)
      {
        var n := if len - off > 8192 then 8192 else len - off;
        MaskPiece(data, mask, off, n, chunk);
        ok := wire.Send(chunk, n);
        if !ok {
          return;
        }
        assert hidden[..off] + hidden[off..off + n] == hidden[..off + n];
        off := off + n;
      }
      assert hidden[..len] == hidden;
      ok := true;
    }

    /** One masked piece of the payload. */
    static method MaskPiece(data: Bytes, mask: Mask, off: nat, n: nat, chunk: array<byte>)
      requires off + n <= |data| && n <= chunk.Length
      modifies chunk
      ensures chunk[..n] == Masked(data, mask)[off..off + n]
    {
      ghost var hidden := Masked(data, mask);
      for i := 0 to n
        invariant chunk[..i] == hidden[off..off + i]
      {
        chunk[i] := Xor(data[off + i], mask[(off + i) % 4]);
        assert chunk[..i + 1] == chunk[..i] + [hidden[off + i]];
        assert hidden[off..off + i + 1] == hidden[off..off + i] + [hidden[off + i]];
      }
    }

    /** The octets of a frame before its mask, with room for the mask behind them. */
    method BuildHeader(opcode: nibble, fin: bool, len: nat) returns (hdr: array<byte>, h: nat)
      ensures fresh(hdr) && hdr.Length == 14 && h + 4 <= 14
      ensures hdr[..h] == [(if fin then 128 else 0) + opcode] + LengthField(len, true)
    {
      hide ToBigEndian;
      hdr := new byte[14];
      hdr[0] := (if fin then 128 else 0) + opcode;
      if len < 126 {
        hdr[1] := 128 + len;
        h := 2;
        assert hdr[..h] == [hdr[0], hdr[1]];
      } else if len <= 0xFFFF {
        hdr[1] := 128 + 126;
        hdr[2] := (len / 256) % 256;
        hdr[3] := len % 256;
        h := 4;
        TwoOctets(len);
        assert hdr[..h] == [hdr[0], hdr[1], hdr[2], hdr[3]] == [hdr[0]] + ([hdr[1]] + [hdr[2], hdr[3]]);
      } else {
        hdr[1] := 128 + 127;
        EightOctets(hdr, len);
        h := 10;
        assert hdr[..h] == [hdr[0]] + ([hdr[1]] + hdr[2..h]);
      }
    }

    /** The longest form of the length, most significant octet first. */
    static method EightOctets(hdr: array<byte>, len: nat)
      requires hdr.Length == 14
      modifies hdr
      ensures hdr[0] == old(hdr[0]) && hdr[1] == old(hdr[1])
      ensures hdr[2..10] == ToBigEndian(len, 8)
    {
      var i, h := 8, 2;
      while i > 0
        invariant 0 <= i <= 8 && h == 10 - i
        invariant hdr[0] == old(hdr[0]) && hdr[1] == old(hdr[1])
        invariant hdr[2..h] == ToBigEndian(len, 8)[..8 - i]
      {
        i := i - 1;
        ToBigEndianAt(len, 8, 7 - i);
        hdr[h] := ShiftOctets(len, i) % 256;
        h := h + 1;
        assert hdr[2..h] == hdr[2..h - 1] + [hdr[h - 1]];
      }
      assert ToBigEndian(len, 8)[..8] == ToBigEndian(len, 8);
    }

    /** As `SendFrame`, told as a send of one frame. */
    method SendOne(opcode: nibble, fin: bool, data: Bytes) returns (r: Status)
      modifies wire, rng
      ensures wire.script == old(wire.script)
      ensures Wrote([Frame(opcode, fin, data)], Before(old(rng.pool), Reliable(old(wire.refusals)), old(wire.out)),
                    rng.pool, wire.refusals, wire.out, r)
    {
      hide EncodeFrame, Reliable;
      r := SendFrame(opcode, fin, data);
      if |old(rng.pool)| > 0 {
        EncodeOneFrame(Frame(opcode, fin, data), old(rng.pool));
      }
    }

    /** One more frame of a send in progress. */
    method SendNext(opcode: nibble, fin: bool, data: Bytes,
                    ghost sent: seq<Frame>, ghost was: Before, ghost before: Status) returns (r: Status)
      requires before.Ok? && Wrote(sent, was, rng.pool, wire.refusals, wire.out, before)
      modifies wire, rng
      ensures wire.script == old(wire.script)
      ensures Wrote(sent + [Frame(opcode, fin, data)], was, rng.pool, wire.refusals, wire.out, r)
    {
      hide Wrote, Reliable;
      ghost var mid, midRefusals := Before(rng.pool, Reliable(wire.refusals), wire.out), wire.refusals;
      r := SendOne(opcode, fin, data);
      WroteMore(sent, [Frame(opcode, fin, data)], was, before, mid, midRefusals, rng.pool, wire.refusals, wire.out, r);
    }

    /** Writes one message, cut into frames of at most `FRAG_SIZE` octets. */
    method Send(kind: Kind, data: Bytes) returns (r: Status)
      modifies wire, rng
      ensures wire.script == old(wire.script)
      ensures closed ==> r == Err(Closed) && wire.out == old(wire.out) && rng.pool == old(rng.pool)
      ensures !closed ==>
                Wrote(Fragments(Message(kind, data)),
                      Before(old(rng.pool), Reliable(old(wire.refusals)), old(wire.out)),
                      rng.pool, wire.refusals, wire.out, r)
    {
      hide Wrote, Reliable;
      if closed {
        return Err(Closed);
      }
      if |data| <= FRAG_SIZE {
        assert data[0..] == data;
        r := SendOne(OpcodeOf(kind), true, data);
      } else {
        r := SendFragments(OpcodeOf(kind), data);
      }
    }

    method SendFragments(opcode: nibble, data: Bytes) returns (r: Status)
      requires |data| > 0
      modifies wire, rng
      ensures wire.script == old(wire.script)
      ensures Wrote(FragmentsFrom(opcode, data, 0),
                    Before(old(rng.pool), Reliable(old(wire.refusals)), old(wire.out)),
                    rng.pool, wire.refusals, wire.out, r)
    {
      hide Wrote, Reliable, FragmentsFrom, FragmentsLeft;
      ghost var fs, was := FragmentsFrom(opcode, data, 0), Before(rng.pool, Reliable(wire.refusals), wire.out);
      ghost var sent: seq<Frame> := [];
      var off, first := 0, true;
      r := Ok(());
      WroteNothing(was, wire.refusals);
      AllLeft(opcode, data);
      assert fs == sent + FragmentsLeft(opcode, data, off);
      while off < |data|
        invariant 0 <= off <= |data| && (first <==> off == 0)
        invariant fs == sent + FragmentsLeft(opcode, data, off)
        invariant r.Ok? && Wrote(sent, was, rng.pool, wire.refusals, wire.out, r)
        invariant wire.script == old(wire.script)
      {
        var n := if |data| - off > FRAG_SIZE then FRAG_SIZE else |data| - off;
        var op := if first then opcode else OP_CONT;
        ghost var f := Frame(op, off + n == |data|, data[off..off + n]);
        NextFragment(opcode, data, off);
        ghost var left := FragmentsLeft(opcode, data, off + n);
        Reassociate(sent, [f], left);
        r := SendNext(op, off + n == |data|, data[off..off + n], sent, was, r);
        sent := sent + [f];
        if r.Err? {
          WroteFailed(sent, fs, was, rng.pool, wire.refusals, wire.out, r);
          return;
        }
        first, off := false, off + n;
      }
      NoneLeft(opcode, data);
      assert sent + [] == sent;
    }

    method SendPing() returns (r: Status)
      modifies wire, rng
      ensures wire.script == old(wire.script)
      ensures closed ==> r == Err(Closed) && wire.out == old(wire.out) && rng.pool == old(rng.pool)
      ensures !closed ==>
                SentOne(Frame(OP_PING, true, []), Before(old(rng.pool), Reliable(old(wire.refusals)), old(wire.out)),
                        rng.pool, wire.refusals, wire.out, r)
    {
      hide EncodeFrame;
      if closed {
        return Err(Closed);
      }
      r := SendFrame(OP_PING, true, []);
    }

    /** Announces the end; the connection itself stays open for this side. */
    method SendClose(code: nat) returns (r: Status)
      requires code < 65536
      modifies wire, rng
      ensures wire.script == old(wire.script) && closed == old(closed)
      ensures closed ==> r == Err(Closed) && wire.out == old(wire.out) && rng.pool == old(rng.pool)
      ensures !closed ==>
                SentOne(Frame(OP_CLOSE, true, ToBigEndian(code, 2)),
                        Before(old(rng.pool), Reliable(old(wire.refusals)), old(wire.out)),
                        rng.pool, wire.refusals, wire.out, r)
    {
      hide EncodeFrame;
      if closed {
        return Err(Closed);
      }
      var payload := [code / 256 % 256, code % 256];
      assert payload == ToBigEndian(code, 2);
      r := SendFrame(OP_CLOSE, true, payload);
    }

    /** Cuts one frame off the front of the buffer, if it holds one. */
    method ParseFrame() returns (r: Parsed)
      modifies this`inbuf
      ensures r == Parse(old(inbuf))
      ensures inbuf == if r.Got? then old(inbuf)[r.size..] else old(inbuf)
    {
      var avail := |inbuf|;
      if avail < 2 {
        return NeedMore;
      }
      var fin, opcode, masked := inbuf[0] >= 128, inbuf[0] % 16, inbuf[1] >= 128;
      var length := ParseLength();
      if length.None? {
        return NeedMore;
      }
      var (len, pos) := length.value;
      if len > MAX_MSG {
        return Bad;
      }
      var mask: Mask := [0, 0, 0, 0];
      if masked {
        if avail < pos + 4 {
          return NeedMore;
        }
        mask := inbuf[pos..pos + 4];
        pos := pos + 4;
      }
      if avail < pos + len {
        return NeedMore;
      }
      var payload := inbuf[pos..pos + len];
      if masked {
        payload := Unmask(payload, mask);
      }
      inbuf := inbuf[pos + len..];
      return Got(Frame(opcode, fin, payload), pos + len);
    }

    /** Takes the mask off a payload, in place in a buffer of its own. */
    method Unmask(raw: Bytes, mask: Mask) returns (payload: Bytes)
      ensures payload == Masked(raw, mask)
    {
      var buf := new byte[|raw|](i requires 0 <= i < |raw| => raw[i]);
      for i := 0 to |raw|
        modifies buf
        invariant buf[..i] == Masked(raw, mask)[..i]
        invariant buf[i..] == raw[i..]
      {
        assert buf[i] == buf[i..][0];
        buf[i] := Xor(buf[i], mask[i % 4]);
        assert buf[..i + 1] == buf[..i] + [buf[i]];
        assert buf[i + 1..] == raw[i..][1..];
      }
      payload := buf[..];
    }

    /** The length a buffer announces and where its octets end, once they are all there. */
    method ParseLength() returns (r: Option<(nat, nat)>)
      requires |inbuf| >= 2
      ensures r.Some? <==> |inbuf| >= 2 + ExtendedLength(inbuf[1])
      ensures r.Some? ==> r.value == (AnnouncedLength(inbuf), 2 + ExtendedLength(inbuf[1]))
    {
      var avail := |inbuf|;
      var len: nat := inbuf[1] % 128;
      if len == 126 {
        if avail < 4 {
          return None;
        }
        BigEndianTwo(inbuf[2..4]);
        return Some((256 * (inbuf[2] as int) + inbuf[3], 4));
      }
      if len == 127 {
        if avail < 10 {
          return None;
        }
        len := 0;
        for i := 0 to 8
          invariant len == BigEndian(inbuf[2..2 + i])
        {
          BigEndianSnoc(inbuf[2..2 + i], inbuf[2 + i]);
          assert inbuf[2..2 + i] + [inbuf[2 + i]] == inbuf[2..2 + i + 1];
          len := 256 * len + inbuf[2 + i];
        }
        return Some((len, 10));
      }
      return Some((len, 2));
    }

    /** Appends one read to the buffer. */
    method ReadMore() returns (r: Result<nat>)
      modifies this`inbuf, wire
      ensures wire.out == old(wire.out) && wire.refusals == old(wire.refusals)
      ensures var s := old(wire.script);
              && wire.script == (if s == [] then [] else s[1..])
              && inbuf == old(inbuf) + (if s != [] && s[0].Data? then s[0].bytes else [])
              && r == if s == [] then Err(Closed)
                      else if s[0].Fault? then Err(s[0].error)
                      else if s[0].bytes == [] then Err(Closed) else Ok(|s[0].bytes|)
    {
      var tmp := new byte[READ_SIZE];
      var n := wire.Recv(tmp);
      if n.Err? {
        return n;
      }
      if n.value == 0 {
        return Err(Closed);
      }
      inbuf := inbuf + tmp[..n.value];
      return n;
    }

    /** The next data message, or a close, or why there is none. */
    method Recv(timeoutMs: int) returns (r: Result<Message>)
      modifies this, wire, rng
      ensures old(closed) ==>
                && r == Err(Closed) && closed && inbuf == old(inbuf)
                && wire.script == old(wire.script) && wire.out == old(wire.out) && rng.pool == old(rng.pool)
      ensures !old(closed) ==>
                var o := Receiving.Recv(Idle, old(inbuf), old(wire.script), timeoutMs < 0);
                && Outcome(r, inbuf, wire.script, o.replies, closed) == o
                && Accounted(o.replies, Before(old(rng.pool), Reliable(old(wire.refusals)), old(wire.out)),
                             rng.pool, wire.refusals, wire.out)
    {
      if closed {
        return Err(Closed);
      }
      ghost var done;
      r, done := RecvOpen(timeoutMs);
    }

    method RecvOpen(timeoutMs: int) returns (r: Result<Message>, ghost done: seq<Frame>)
      requires !closed
      modifies this, wire, rng
      ensures Outcome(r, inbuf, wire.script, done, closed) ==
              Receiving.Recv(Idle, old(inbuf), old(wire.script), timeoutMs < 0)
      ensures Accounted(done, Before(old(rng.pool), Reliable(old(wire.refusals)), old(wire.out)),
                        rng.pool, wire.refusals, wire.out)
    {
      ghost var patient, was := timeoutMs < 0, Before(rng.pool, Reliable(wire.refusals), wire.out);
      done := [];
      var msg: Bytes, msgOpcode: nibble, inFragmented := [], 0, false;
      assert Accounted(done, was, rng.pool, wire.refusals, wire.out);
      assert Collected(inFragmented, msgOpcode, msg) == Idle;
      hide Parse, Accounted, Receiving.Recv, Reliable, EncodeFrames, Absorb, Replies, Collected;
      while true
        invariant !closed
        invariant Receiving.Recv(Idle, old(inbuf), old(wire.script), patient) ==
                  Replied(done, Receiving.Recv(Collected(inFragmented, msgOpcode, msg), inbuf, wire.script, patient))
        invariant !inFragmented ==> msg == []
        invariant Accounted(done, was, rng.pool, wire.refusals, wire.out)
        decreases |wire.script|, |inbuf|
      {
        ghost var asm, buf := Collected(inFragmented, msgOpcode, msg), inbuf;
        var pf := ParseFrame();
        RecvBeforeFrame(asm, buf, wire.script, patient);
        assert done + [] == done && buf + [] == buf;
        if pf.Bad? {
          return Err(Protocol), done;
        }
        if pf.NeedMore? {
          var n := ReadMore();
          if n.Err? {
            if n.error == Timeout {
              if timeoutMs < 0 {
                continue;
              }
              return Err(Timeout), done;
            }
            closed := true;
            return Err(n.error), done;
          }
          continue;
        }
        RecvAfterFrame(asm, buf, wire.script, patient, done);
        var taken;
        taken, inFragmented, msgOpcode, msg := Take(pf.frame, inFragmented, msgOpcode, msg, done, was);
        done := done + Replies(pf.frame);
        if taken.Some? {
          return taken.value, done;
        }
      }
    }

    /** What one frame does to a call: it may end it, and it may extend the message collected. */
    method Take(f: Frame, inFragmented: bool, msgOpcode: nibble, msg: Bytes, ghost done: seq<Frame>, ghost was: Before)
      returns (r: Option<Result<Message>>, fragmented: bool, opcode: nibble, collected: Bytes)
      requires !closed && (!inFragmented ==> msg == [])
      requires Accounted(done, was, rng.pool, wire.refusals, wire.out)
      modifies this`closed, wire, rng
      ensures wire.script == old(wire.script)
      ensures Accounted(done + Replies(f), was, rng.pool, wire.refusals, wire.out)
      ensures !fragmented ==> collected == []
      ensures var next := Absorb(Collected(inFragmented, msgOpcode, msg), f);
              && closed == (next.Deliver? && next.message.kind.Close?)
              && (next.More? ==> r == None && Collected(fragmented, opcode, collected) == next.asm)
              && (next.Violation? ==> r == Some(Err(Protocol)))
              && (next.Deliver? ==> r == Some(Ok(next.message)))
    {
      hide Accounted;
      r, fragmented, opcode, collected := None, inFragmented, msgOpcode, msg;
      assert done + [] == done;
      match f.opcode {
        case 9 =>
          Reply(OP_PONG, f.payload, done, was);
        case 10 =>
        case 8 =>
          Reply(OP_CLOSE, if |f.payload| > 2 then f.payload[..2] else f.payload, done, was);
          closed := true;
          r := Some(Ok(Message(Kind.Close, f.payload)));
        case 0 =>
          if !inFragmented {
            r := Some(Err(Protocol));
            return;
          }
          collected := collected + f.payload;
          if f.fin {
            r := Some(Ok(Message(if msgOpcode == OP_TEXT then Text else Binary, collected)));
          }
        case 1 | 2 =>
          if inFragmented {
            r := Some(Err(Protocol));
            return;
          }
          if f.fin {
            r := Some(Ok(Message(if f.opcode == OP_TEXT then Text else Binary, f.payload)));
            return;
          }
          fragmented, opcode := true, f.opcode;
          collected := collected + f.payload;
          assert [] + f.payload == f.payload;
        case _ =>
          r := Some(Err(Protocol));
      }
    }

    /** Sends a control frame, ignoring any failure to do so. */
    method Reply(opcode: nibble, payload: Bytes, ghost done: seq<Frame>, ghost was: Before)
      requires Accounted(done, was, rng.pool, wire.refusals, wire.out)
      modifies wire, rng
      ensures wire.script == old(wire.script)
      ensures Accounted(done + [Frame(opcode, true, payload)], was, rng.pool, wire.refusals, wire.out)
    {
      hide EncodeFrame, EncodeFrames;
      var _ := SendFrame(opcode, true, payload);
      if Supplied(was.pool, |done| + 1) {
        AppendFrame(done, Frame(opcode, true, payload), was.pool);
      }
    }

    /** Drops the connection and everything buffered. */
    method Close()
      modifies this, wire`shut
      ensures wire.shut && closed && inbuf == []
    {
      wire.Close();
      inbuf, closed := [], true;
    }
  }

  lemma TwoOctets(len: nat)
    ensures ToBigEndian(len, 2) == [len / 256 % 256, len % 256]
  {
    assert ToBigEndian(len / 256, 1) == ToBigEndian(len / 256 / 256, 0) + [len / 256 % 256];
  }

  lemma FrameSplits(f: Frame, mask: Mask, head: Bytes)
    requires head == [(if f.fin then 128 else 0) + f.opcode] + LengthField(|f.payload|, true)
    ensures EncodeFrame(f, Some(mask)) == (head + mask) + Masked(f.payload, mask)
  {
    hide LengthField, Masked;
  }

  lemma Nonempty(out: Bytes, a: Bytes, b: Bytes)
    requires a != []
    ensures out < out + (a + b)
  {
  }

  /** The fragments of `data` still to be sent from `off` on. */
  function FragmentsLeft(opcode: nibble, data: Bytes, off: nat): seq<Frame>
    requires off <= |data|
  {
    if off < |data| then FragmentsFrom(opcode, data, off) else []
  }

  lemma AllLeft(opcode: nibble, data: Bytes)
    requires data != []
    ensures FragmentsLeft(opcode, data, 0) == FragmentsFrom(opcode, data, 0)
  {
  }

  lemma NoneLeft(opcode: nibble, data: Bytes)
    ensures FragmentsLeft(opcode, data, |data|) == []
  {
  }

  lemma NextFragment(opcode: nibble, data: Bytes, off: nat)
    requires off < |data|
    ensures var n := if |data| - off > FRAG_SIZE then FRAG_SIZE else |data| - off;
            FragmentsLeft(opcode, data, off) ==
            [Frame(if off == 0 then opcode else OP_CONT, off + n == |data|, data[off..off + n])] +
            FragmentsLeft(opcode, data, off + n)
  {
    assert data[off..] == data[off..|data|];
  }

  lemma WroteNothing(was: Before, refusals: seq<bool>)
    requires was.sound ==> Reliable(refusals)
    ensures Wrote([], was, was.pool, refusals, was.out, Ok(()))
  {
    assert was.out + [] == was.out;
  }

  lemma WroteMore(sent: seq<Frame>, fs: seq<Frame>, was: Before, before: Status, mid: Before, midRefusals: seq<bool>,
                  pool: seq<Option<Mask>>, refusals: seq<bool>, out: Bytes, r: Status)
    requires Wrote(sent, was, mid.pool, midRefusals, mid.out, before) && before.Ok? && mid.sound == Reliable(midRefusals)
    requires Wrote(fs, mid, pool, refusals, out, r)
    ensures Wrote(sent + fs, was, pool, refusals, out, r)
  {
    hide EncodeFrames, Reliable;
    var n := |sent|;
    assert mid.pool == was.pool[n..];
    if r.Ok? || Supplied(was.pool, |sent + fs|) {
      assert Supplied(mid.pool, |fs|) ==> forall i :: n <= i < n + |fs| ==> was.pool[i] == mid.pool[i - n];
      assert Supplied(was.pool, |sent + fs|) ==> forall i :: 0 <= i < |fs| ==> mid.pool[i] == was.pool[n + i];
      EncodeFramesConcat(sent, fs, was.pool);
      assert (was.out + EncodeFrames(sent, was.pool)) + EncodeFrames(fs, mid.pool) ==
             was.out + (EncodeFrames(sent, was.pool) + EncodeFrames(fs, mid.pool));
    }
  }

  lemma WroteFailed(sent: seq<Frame>, fs: seq<Frame>, was: Before,
                    pool: seq<Option<Mask>>, refusals: seq<bool>, out: Bytes, r: Status)
    requires Wrote(sent, was, pool, refusals, out, r) && r.Err? && |sent| <= |fs|
    ensures Wrote(fs, was, pool, refusals, out, r)
  {
  }

  /** The state `recv` keeps in its three local variables. */
  function Collected(inFragmented: bool, opcode: nibble, msg: Bytes): Assembly {
    if inFragmented then Partial(opcode, msg) else Idle
  }

  lemma RecvBeforeFrame(asm: Assembly, buf: Bytes, script: Script, patient: bool)
    ensures Parse(buf).Bad? ==>
              Receiving.Recv(asm, buf, script, patient) == Outcome(Err(Protocol), buf, script, [], false)
    ensures Parse(buf).NeedMore? ==>
              Receiving.Recv(asm, buf, script, patient) == AfterRead(asm, buf, script, patient)
  {
  }

  /** The rest of a `recv` call that needs more octets. */
  function AfterRead(asm: Assembly, buf: Bytes, script: Script, patient: bool): Outcome {
    if script == [] then Outcome(Err(Closed), buf, script, [], true)
    else if IsTimeout(script[0]) then
      if patient then Receiving.Recv(asm, buf, script[1..], patient)
      else Outcome(Err(Timeout), buf, script[1..], [], false)
    else if IsHangup(script[0]) then
      Outcome(Err(if script[0].Fault? then script[0].error else Closed), buf, script[1..], [], true)
    else Receiving.Recv(asm, buf + script[0].bytes, script[1..], patient)
  }

  /** The rest of a `recv` call once a frame has been cut off the buffer. */
  function AfterFrame(asm: Assembly, f: Frame, rest: Bytes, script: Script, patient: bool, done: seq<Frame>): Outcome {
    match Absorb(asm, f)
    case More(next) => Replied(done + Replies(f), Receiving.Recv(next, rest, script, patient))
    case Violation => Outcome(Err(Protocol), rest, script, done + Replies(f), false)
    case Deliver(m) => Outcome(Ok(m), rest, script, done + Replies(f), m.kind.Close?)
  }

  lemma RecvAfterFrame(asm: Assembly, buf: Bytes, script: Script, patient: bool, done: seq<Frame>)
    requires Parse(buf).Got?
    ensures Replied(done, Receiving.Recv(asm, buf, script, patient)) ==
            AfterFrame(asm, Parse(buf).frame, buf[Parse(buf).size..], script, patient, done)
  {
    hide Parse;
    var f, rest := Parse(buf).frame, buf[Parse(buf).size..];
    if Absorb(asm, f).More? {
      var o := Receiving.Recv(Absorb(asm, f).asm, rest, script, patient);
      assert done + (Replies(f) + o.replies) == (done + Replies(f)) + o.replies;
    }
  }

  lemma EncodeOneFrame(f: Frame, pool: seq<Option<Mask>>)
    requires |pool| >= 1
    ensures EncodeFrames([f], pool) == EncodeFrame(f, pool[0])
  {
    assert [f][1..] == [];
    assert EncodeFrames([f][1..], pool[1..]) == [];
  }

  lemma AppendFrame(sent: seq<Frame>, f: Frame, pool: seq<Option<Mask>>)
    requires |pool| > |sent|
    ensures EncodeFrames(sent + [f], pool) == EncodeFrames(sent, pool) + EncodeFrame(f, pool[|sent|])
  {
    EncodeFramesConcat(sent, [f], pool);
    EncodeOneFrame(f, pool[|sent|..]);
  }
}
