/**
 WebSocket frames (section 5.2 of RFC 6455): their encoding, the incremental
 parse, and the stream of messages a byte stream stands for.
 */
module Framing {
  import opened Common

  /** Outgoing messages above this size are fragmented. */
  const FRAG_SIZE: nat := 61440
  /** Frames announcing more than this are refused. */
  const MAX_MSG: nat := 67108864

  const OP_CONT: nibble := 0
  const OP_TEXT: nibble := 1
  const OP_BINARY: nibble := 2
  const OP_CLOSE: nibble := 8
  const OP_PING: nibble := 9
  const OP_PONG: nibble := 10

  type nibble = x: int | 0 <= x < 16

  type Mask = m: Bytes | |m| == 4 witness [0, 0, 0, 0]

  datatype Frame = Frame(opcode: nibble, fin: bool, payload: Bytes)

  // ---------------------------------------------------------------- encoding

  function Masked(data: Bytes, mask: Mask): (r: Bytes)
    ensures |r| == |data|
  {
    seq(|data|, i requires 0 <= i < |data| => Xor(data[i], mask[i % 4]))
  }

  lemma MaskedTwice(data: Bytes, mask: Mask)
    ensures Masked(Masked(data, mask), mask) == data
  {
    forall i | 0 <= i < |data|
      ensures Masked(Masked(data, mask), mask)[i] == data[i]
    {
      XorTwice(data[i], mask[i % 4]);
    }
  }

  /** The length octets; `bit` is 128 when a mask follows and 0 otherwise. */
  function LengthField(len: nat, masked: bool): (r: Bytes)
    ensures |r| >= 1
  {
    var bit := if masked then 128 else 0;
    if len < 126 then [bit + len]
    else if len <= 0xFFFF then [bit + 126] + ToBigEndian(len, 2)
    else [bit + 127] + ToBigEndian(len, 8)
  }

  /** What follows the length octets. */
  function Body(f: Frame, mask: Option<Mask>): (r: Bytes)
    ensures |r| == |f.payload| + if mask.Some? then 4 else 0
  {
    match mask
    case None => f.payload
    case Some(m) => m + Masked(f.payload, m)
  }

  /** A frame on the wire, masked (as clients send) or not (as servers do). */
  function EncodeFrame(f: Frame, mask: Option<Mask>): (r: Bytes)
    ensures |r| >= 2 + |f.payload|
  {
    [(if f.fin then 128 else 0) + f.opcode] + LengthField(|f.payload|, mask.Some?) + Body(f, mask)
  }

  /** A frame on the wire, octet by octet and the masked payload bit by bit (sections 5.2 and 5.3 of RFC 6455). */
  lemma FrameLayout(f: Frame, mask: Option<Mask>)
    requires |f.payload| <= 0xFFFF_FFFF_FFFF_FFFF
    ensures var e, n := EncodeFrame(f, mask), |f.payload|;
            var bit, head := if mask.Some? then 128 else 0, |EncodeFrame(f, mask)| - |f.payload|;
            && e[0] == (if f.fin then 128 else 0) + f.opcode
            && head == (if n < 126 then 2 else if n <= 0xFFFF then 4 else 10) + (if mask.Some? then 4 else 0)
            && e[1] == bit + (if n < 126 then n else if n <= 0xFFFF then 126 else 127)
            && (126 <= n <= 0xFFFF ==> n == 256 * (e[2] as int) + e[3])
            && (n > 0xFFFF ==>
                  n == 0x100000000000000 * (e[2] as int) + 0x1000000000000 * (e[3] as int) +
                       0x10000000000 * (e[4] as int) + 0x100000000 * (e[5] as int) +
                       0x1000000 * (e[6] as int) + 0x10000 * (e[7] as int) + 0x100 * (e[8] as int) + e[9])
            && (mask.None? ==> e[head..] == f.payload)
            && (mask.Some? ==>
                  && e[head - 4..head] == mask.value
                  && forall i, k :: 0 <= i < n && 0 <= k < 8 ==>
                       (Bit(e[head + i], k) <==> Bit(f.payload[i], k) != Bit(mask.value[i % 4], k)))
  {
    hide ToBigEndian, Bit, Masked;
    var e, n := EncodeFrame(f, mask), |f.payload|;
    var length, body := LengthField(n, mask.Some?), Body(f, mask);
    if 126 <= n <= 0xFFFF {
      TwoPlaces(n);
    } else if n > 0xFFFF {
      EightPlaces(n);
    }
    var start := 1 + |length|;
    assert e[1..start] == length && e[start..] == body;
    if mask.Some? {
      MaskedBody(e, start, mask.value, f.payload);
    }
  }

  lemma MaskedBody(e: Bytes, start: nat, mask: Mask, payload: Bytes)
    requires start <= |e| && e[start..] == mask + Masked(payload, mask)
    ensures |e| == start + 4 + |payload| && e[start..start + 4] == mask
    ensures forall i, k :: 0 <= i < |payload| && 0 <= k < 8 ==>
              (Bit(e[start + 4 + i], k) <==> Bit(payload[i], k) != Bit(mask[i % 4], k))
  {
    hide Bit, Masked;
    var hidden := Masked(payload, mask);
    SliceOfDrop(e, start, 0, 4);
    assert e[start..][0..4] == mask;
    forall i, k | 0 <= i < |payload| && 0 <= k < 8
      ensures Bit(e[start + 4 + i], k) <==> Bit(payload[i], k) != Bit(mask[i % 4], k)
    {
      assert e[start + 4 + i] == e[start..][4 + i] == hidden[i];
      MaskedBit(payload, mask, i, k);
    }
  }

  lemma MaskedBit(data: Bytes, mask: Mask, i: nat, k: nat)
    requires i < |data| && k < 8
    ensures Bit(Masked(data, mask)[i], k) <==> Bit(data[i], k) != Bit(mask[i % 4], k)
  {
    XorBit(data[i], mask[i % 4], k);
  }

  // ----------------------------------------------------------------- parsing

  datatype Parsed = NeedMore | Bad | Got(frame: Frame, size: nat)

  /** The octets of extended length a second header octet announces. */
  function ExtendedLength(b: byte): nat {
    if b % 128 == 126 then 2 else if b % 128 == 127 then 8 else 0
  }

  /** The payload length a complete header announces. */
  function AnnouncedLength(s: Bytes): nat
    requires |s| >= 2 && |s| >= 2 + ExtendedLength(s[1])
  {
    if ExtendedLength(s[1]) == 0 then s[1] % 128 else BigEndian(s[2..2 + ExtendedLength(s[1])])
  }

  /** What the front of a receive buffer holds. */
  function Parse(s: Bytes): (r: Parsed)
    ensures r.Got? ==> 2 <= r.size <= |s| && |r.frame.payload| <= MAX_MSG
  {
    if |s| < 2 || |s| < 2 + ExtendedLength(s[1]) then NeedMore else
    var len := AnnouncedLength(s);
    if len > MAX_MSG then Bad else
    var pos := 2 + ExtendedLength(s[1]) + if s[1] >= 128 then 4 else 0;
    if |s| < pos + len then NeedMore else
    Got(Frame(s[0] % 16, s[0] >= 128, Payload(s, pos, len)), pos + len)
  }

  /** The payload between `pos` and `pos + len`, unmasked if the header says it is masked. */
  function Payload(s: Bytes, pos: nat, len: nat): (r: Bytes)
    requires 2 <= pos && pos + len <= |s| && (s[1] >= 128 ==> pos >= 6)
    ensures |r| == len
  {
    if s[1] >= 128 then Masked(s[pos..pos + len], s[pos - 4..pos]) else s[pos..pos + len]
  }

  lemma BigEndianPrefix(s: Bytes, k: nat)
    requires k < |s|
    ensures BigEndian(s[..k + 1]) == 256 * BigEndian(s[..k]) + s[k]
  {
    BigEndianSnoc(s[..k], s[k]);
    assert s[..k + 1] == s[..k] + [s[k]];
  }

  lemma EightOctets(s: Bytes)
    requires |s| == 8
    ensures BigEndian(s) ==
            0x100000000000000 * (s[0] as int) + 0x1000000000000 * (s[1] as int) +
            0x10000000000 * (s[2] as int) + 0x100000000 * (s[3] as int) +
            0x1000000 * (s[4] as int) + 0x10000 * (s[5] as int) + 0x100 * (s[6] as int) + s[7]
  {
    hide BigEndian;
    assert s[..8] == s;
    BigEndianPrefix(s, 7);
    BigEndianPrefix(s, 6);
    BigEndianPrefix(s, 5);
    BigEndianPrefix(s, 4);
    BigEndianPrefix(s, 3);
    BigEndianPrefix(s, 2);
    BigEndianTwo(s[..2]);
  }

  /** The length behind the first two octets, in place values. */
  function LengthOctets(s: Bytes): nat
    requires |s| >= 2 && (s[1] % 128 == 126 ==> |s| >= 4) && (s[1] % 128 == 127 ==> |s| >= 10)
  {
    if s[1] % 128 == 126 then 0x100 * (s[2] as int) + s[3]
    else if s[1] % 128 == 127 then
      0x100000000000000 * (s[2] as int) + 0x1000000000000 * (s[3] as int) +
      0x10000000000 * (s[4] as int) + 0x100000000 * (s[5] as int) +
      0x1000000 * (s[6] as int) + 0x10000 * (s[7] as int) + 0x100 * (s[8] as int) + s[9]
    else s[1] % 128
  }

  /**
   What any octets are read as: the header by its bits and place values, and the
   payload bit by bit; a length above 64 MiB is refused before the rest is there.
   */
  lemma ParseLayout(s: Bytes)
    ensures var short := if |s| < 2 then 0 else s[1] % 128;
            var head := if short == 126 then 4 else if short == 127 then 10 else 2;
            if |s| < head then Parse(s) == NeedMore
            else if LengthOctets(s) > 0x400_0000 then Parse(s) == Bad
            else
              var len, from := LengthOctets(s), head + if s[1] >= 128 then 4 else 0;
              if |s| < from + len then Parse(s) == NeedMore
              else
                && Parse(s).Got? && Parse(s).size == from + len
                && var f := Parse(s).frame;
                   && f.opcode == s[0] % 16 && (f.fin <==> s[0] >= 128) && |f.payload| == len
                   && forall i, k :: 0 <= i < len && 0 <= k < 8 ==>
                        (Bit(f.payload[i], k) <==>
                         Bit(s[from + i], k) != (s[1] >= 128 && Bit(s[from - 4 + i % 4], k)))
  {
    hide BigEndian, Payload, Bit, LengthOctets, AnnouncedLength;
    if |s| >= 2 && |s| >= 2 + ExtendedLength(s[1]) {
      LengthIs(s);
      var len := LengthOctets(s);
      var from := 2 + ExtendedLength(s[1]) + if s[1] >= 128 then 4 else 0;
      if len <= MAX_MSG && from + len <= |s| {
        PayloadBits(s, from, len);
      }
    }
  }

  lemma PayloadBits(s: Bytes, from: nat, len: nat)
    requires 2 <= from && from + len <= |s| && (s[1] >= 128 ==> from >= 6)
    ensures forall i, k :: 0 <= i < len && 0 <= k < 8 ==>
              (Bit(Payload(s, from, len)[i], k) <==>
               Bit(s[from + i], k) != (s[1] >= 128 && Bit(s[from - 4 + i % 4], k)))
  {
    hide Masked, Bit;
    var data := s[from..from + len];
    forall i, k | 0 <= i < len && 0 <= k < 8
      ensures Bit(Payload(s, from, len)[i], k) <==>
              Bit(s[from + i], k) != (s[1] >= 128 && Bit(s[from - 4 + i % 4], k))
    {
      assert data[i] == s[from + i];
      if s[1] >= 128 {
        var mask := FourFrom(s, from - 4);
        MaskedBit(data, mask, i, k);
      }
    }
  }

  lemma FourFrom(s: Bytes, at: nat) returns (mask: Mask)
    requires at + 4 <= |s|
    ensures mask == s[at..at + 4] && forall j :: 0 <= j < 4 ==> mask[j] == s[at + j]
  {
    mask := s[at..at + 4];
  }

  lemma LengthIs(s: Bytes)
    requires |s| >= 2 && |s| >= 2 + ExtendedLength(s[1])
    ensures AnnouncedLength(s) == LengthOctets(s)
  {
    hide BigEndian;
    if s[1] % 128 == 126 {
      BigEndianTwo(s[2..4]);
    } else if s[1] % 128 == 127 {
      EightOctets(s[2..10]);
    }
  }

  /** A frame or an error found on a prefix is found, unchanged, with more octets appended. */
  lemma ParsePrefixStable(s: Bytes, t: Bytes)
    requires !Parse(s).NeedMore?
    ensures Parse(s + t) == Parse(s)
  {
    hide BigEndian, Masked;
    var st := s + t;
    var ext := ExtendedLength(s[1]);
    assert st[0] == s[0] && st[1] == s[1];
    assert st[2..2 + ext] == s[2..2 + ext];
    var len := AnnouncedLength(s);
    if len <= MAX_MSG {
      var pos := 2 + ext + if s[1] >= 128 then 4 else 0;
      assert st[pos..pos + len] == s[pos..pos + len];
      if s[1] >= 128 {
        assert st[pos - 4..pos] == s[pos - 4..pos];
      }
      assert Payload(st, pos, len) == Payload(s, pos, len);
    }
  }

  lemma LengthFieldParses(len: nat, masked: bool)
    requires len < TWO_TO_THE_64
    ensures var r := LengthField(len, masked);
            var short := r[0] % 128;
            && (r[0] >= 128 <==> masked)
            && |r| == 1 + (if short == 126 then 2 else if short == 127 then 8 else 0)
            && (if |r| == 1 then short else BigEndian(r[1..])) == len
  {
    var r := LengthField(len, masked);
    if 126 <= len <= 0xFFFF {
      assert r[1..] == ToBigEndian(len, 2);
      assert Pow256(2) == 256 * (256 * Pow256(0));
      BigEndianRoundTrip(len, 2);
    } else if len > 0xFFFF {
      assert r[1..] == ToBigEndian(len, 8);
      Pow256Eight();
      BigEndianRoundTrip(len, 8);
    }
  }

  lemma Pow256Eight()
    ensures Pow256(8) == TWO_TO_THE_64
  {
    assert Pow256(2) == 256 * (256 * Pow256(0));
    assert Pow256(4) == 256 * (256 * Pow256(2));
    assert Pow256(6) == 256 * (256 * Pow256(4));
    assert Pow256(8) == 256 * (256 * Pow256(6));
  }

  lemma EncodedHeader(f: Frame, mask: Option<Mask>, rest: Bytes)
    requires |f.payload| < TWO_TO_THE_64
    ensures var s := EncodeFrame(f, mask) + rest;
            var ext := ExtendedLength(s[1]);
            && |s| >= 2 + ext
            && s[0] == (if f.fin then 128 else 0) + f.opcode
            && (s[1] >= 128 <==> mask.Some?)
            && AnnouncedLength(s) == |f.payload|
            && s[2 + ext..] == Body(f, mask) + rest
            && |EncodeFrame(f, mask)| == 2 + ext + |Body(f, mask)|
  {
    var lf := LengthField(|f.payload|, mask.Some?);
    LengthFieldParses(|f.payload|, mask.Some?);
    var s := EncodeFrame(f, mask) + rest;
    assert s == [(if f.fin then 128 else 0) + f.opcode] + lf + (Body(f, mask) + rest);
    assert s[2..1 + |lf|] == lf[1..];
  }

  /**
   Parsing inverts encoding, whatever follows, exactly when the payload is at
   most `MAX_MSG` octets; a longer one is a protocol error.
   */
  lemma ParseInvertsEncode(f: Frame, mask: Option<Mask>, rest: Bytes)
    requires |f.payload| < TWO_TO_THE_64
    ensures Parse(EncodeFrame(f, mask) + rest) ==
            if |f.payload| <= 0x400_0000 then Got(f, |EncodeFrame(f, mask)|) else Bad
  {
    hide EncodeFrame, Body, LengthField, AnnouncedLength, Payload;
    EncodedHeader(f, mask, rest);
    if |f.payload| <= MAX_MSG {
      var s := EncodeFrame(f, mask) + rest;
      var head := 2 + ExtendedLength(s[1]);
      PayloadOfBody(s, head, f, mask, rest);
    }
  }

  lemma PayloadOfBody(s: Bytes, head: nat, f: Frame, mask: Option<Mask>, rest: Bytes)
    requires 2 <= head <= |s| && (s[1] >= 128 <==> mask.Some?)
    requires s[head..] == Body(f, mask) + rest
    ensures var pos := head + if mask.Some? then 4 else 0;
            pos + |f.payload| <= |s| && Payload(s, pos, |f.payload|) == f.payload
  {
    hide LengthField, Masked;
    var len, tail := |f.payload|, s[head..];
    match mask
    case None =>
      SliceOfDrop(s, head, 0, len);
      assert tail[0..len] == f.payload;
    case Some(m) =>
      var hidden := Masked(f.payload, m);
      Reassociate(m, hidden, rest);
      ThreeParts(m, hidden, rest);
      SliceOfDrop(s, head, 0, 4);
      SliceOfDrop(s, head, 4, 4 + len);
      assert tail[0..4] == m;
      MaskedTwice(f.payload, m);
  }
}
