/** The chunked transfer coding (section 7.1 of RFC 9112), as the HTTP client decodes it. */
module Chunked {
  import opened Common

  const CR: byte := 13
  const LF: byte := 10

  /** The most a chunk may announce. */
  const MAX_CHUNK: nat := 64 * 1024 * 1024

  // ------------------------------------------------------------- numerals

  function DigitValue(c: byte): (r: Option<nat>)
    ensures r.Some? ==> r.value < 16
  {
    if 0x30 <= c <= 0x39 then Some(c as int - 0x30)
    else if 0x41 <= c <= 0x46 then Some(c as int - 0x41 + 10)
    else if 0x61 <= c <= 0x66 then Some(c as int - 0x61 + 10)
    else None
  }

  predicate HexDigit(c: byte) {
    DigitValue(c).Some?
  }

  predicate Hexadecimal(s: Bytes) {
    forall i :: 0 <= i < |s| ==> HexDigit(s[i])
  }

  function HexNumber(s: Bytes): nat
    requires Hexadecimal(s)
  {
    if s == [] then 0 else 16 * HexNumber(s[..|s| - 1]) + DigitValue(s[|s| - 1]).value
  }

  /** An unsigned hexadecimal number of at most 64 bits, no greater than `max`; all of `text` must be digits. */
  function ParseHex(text: Bytes, max: nat): Option<nat> {
    if text == [] || !Hexadecimal(text) then None
    else if HexNumber(text) >= TWO_TO_THE_64 || HexNumber(text) > max then None
    else Some(HexNumber(text))
  }

  const LOWER_DIGITS: Bytes := Ascii("0123456789abcdef")
  const UPPER_DIGITS: Bytes := Ascii("0123456789ABCDEF")

  /** `s` writes `n` in base 16, with letters in either case and any number of leading zeros. */
  predicate Numeral(s: Bytes, n: nat) {
    if s == [] then n == 0
    else
      var last := s[|s| - 1];
      && (last == LOWER_DIGITS[n % 16] || last == UPPER_DIGITS[n % 16])
      && Numeral(s[..|s| - 1], n / 16)
  }

  lemma DigitOf(c: byte, v: nat)
    requires v < 16
    ensures DigitValue(c) == Some(v) <==> c == LOWER_DIGITS[v] || c == UPPER_DIGITS[v]
  {
    hide Ascii;
    LowerHexAt(v);
    UpperHexAt(v);
  }

  lemma DigitIs(c: byte)
    ensures HexDigit(c) <==> c in LOWER_DIGITS || c in UPPER_DIGITS
  {
    hide DigitValue, LOWER_DIGITS, UPPER_DIGITS;
    Sixteen();
    if HexDigit(c) {
      DigitOf(c, DigitValue(c).value);
    }
    if v :| 0 <= v < 16 && LOWER_DIGITS[v] == c {
      DigitOf(c, v);
    } else if v :| 0 <= v < 16 && UPPER_DIGITS[v] == c {
      DigitOf(c, v);
    }
  }

  lemma Sixteen()
    ensures |LOWER_DIGITS| == 16 && |UPPER_DIGITS| == 16
  {
  }

  /** A number is read from its own digits, and only from them. */
  lemma {:induction false} NumeralReads(s: Bytes, n: nat)
    ensures Numeral(s, n) <==> Hexadecimal(s) && HexNumber(s) == n
  {
    hide DigitValue;
    if s != [] {
      var front, last := s[..|s| - 1], s[|s| - 1];
      NumeralReads(front, n / 16);
      DigitOf(last, n % 16);
      if Hexadecimal(s) && HexNumber(s) == n {
        LastDigit(HexNumber(front), DigitValue(last).value);
      }
      if Numeral(s, n) {
        assert s == front + [last];
      }
    }
  }

  lemma LastDigit(h: nat, d: nat)
    requires d < 16
    ensures (16 * h + d) / 16 == h && (16 * h + d) % 16 == d
  {
  }

  // ------------------------------------------------------------- decoding

  function HexRun(s: Bytes): (n: nat)
    ensures n <= |s| && Hexadecimal(s[..n])
    ensures n < |s| ==> !HexDigit(s[n])
  {
    if s == [] || !HexDigit(s[0]) then 0
    else
      var n := 1 + HexRun(s[1..]);
      assert forall i :: 1 <= i < n ==> s[..n][i] == s[1..][..n - 1][i - 1];
      n
  }

  predicate LineEnd(s: Bytes) {
    |s| >= 2 && s[0] == CR && s[1] == LF
  }

  /** Where the first line of `s` ends. */
  function FindLineEnd(s: Bytes): (r: Option<nat>)
    ensures r.Some? ==> r.value + 2 <= |s|
  {
    if |s| < 2 then None
    else if LineEnd(s) then Some(0)
    else match FindLineEnd(s[1..]) case None => None case Some(n) => Some(n + 1)
  }

  /** The size a chunk announces and where its data starts; nothing if it is malformed or cut off. */
  function Header(s: Bytes): (r: Option<(nat, nat)>)
    ensures r.Some? ==> 2 < r.value.1 <= |s|
  {
    var digits := HexRun(s);
    match ParseHex(s[..digits], MAX_CHUNK)
    case None => None
    case Some(size) =>
      match FindLineEnd(s[digits..])
      case None => None
      case Some(at) => Some((size, digits + at + 2))
  }

  /** What is left behind a chunk's data. */
  function SkipLineEnd(s: Bytes): (r: Bytes)
    ensures |r| <= |s|
  {
    if LineEnd(s) then s[2..] else s
  }

  function Min(a: nat, b: nat): nat {
    if a < b then a else b
  }

  function Decoded(s: Bytes): (r: Bytes)
    decreases |s|
  {
    match Header(s)
    case None => []
    case Some((size, start)) =>
      if size == 0 then [] else
      var end := start + Min(size, |s| - start);
      s[start..end] + Decoded(SkipLineEnd(s[end..]))
  }

  lemma DecodedIs(s: Bytes)
    ensures s == [] ==> Header(s) == None
    ensures Header(s).None? || Header(s).value.0 == 0 ==> Decoded(s) == []
    ensures Header(s).Some? && Header(s).value.0 != 0 ==>
              var (size, start) := Header(s).value;
              var end := start + Min(size, |s| - start);
              Decoded(s) == s[start..end] + Decoded(SkipLineEnd(s[end..]))
  {
    hide Header;
  }

  method Decode(body: Bytes) returns (out: Bytes)
    ensures out == Decoded(body)
  {
    hide Decoded, Header, SkipLineEnd;
    out := [];
    var p := 0;
    assert body[0..] == body;
    DecodedIs([]);
    while p < |body|
      invariant p <= |body|
      invariant out + Decoded(body[p..]) == Decoded(body)
      decreases |body| - p
    {
      DecodedFrom(body, p);
      var header := ReadHeader(body, p);
      if header.None? {
        return;
      }
      var chunk, start := header.value.0, header.value.1;
      if chunk == 0 {
        return;
      }
      var data, next := TakeChunk(body, start, chunk);
      Reassociate(out, data, Decoded(body[next..]));
      out := out + data;
      p := next;
    }
    assert body[p..] == [];
  }

  method TakeChunk(body: Bytes, start: nat, chunk: nat) returns (data: Bytes, next: nat)
    requires start <= |body|
    ensures start <= next <= |body|
    ensures var end := start + Min(chunk, |body| - start);
            data == body[start..end] && body[next..] == SkipLineEnd(body[end..])
  {
    var take := chunk;
    if start + take > |body| {
      take := |body| - start;
    }
    data := body[start..start + take];
    next := start + take;
    if next + 2 <= |body| && body[next] == CR && body[next + 1] == LF {
      assert body[next..][2..] == body[next + 2..];
      next := next + 2;
    }
  }

  /** `DecodedIs`, in positions of the whole body. */
  lemma DecodedFrom(body: Bytes, p: nat)
    requires p < |body|
    ensures var h := Header(body[p..]);
            && (h.None? || h.value.0 == 0 ==> Decoded(body[p..]) == [])
            && (h.Some? && h.value.0 != 0 ==>
                  var size, start := h.value.0, p + h.value.1;
                  var end := start + Min(size, |body| - start);
                  Decoded(body[p..]) == body[start..end] + Decoded(SkipLineEnd(body[end..])))
  {
    hide Header, Decoded, SkipLineEnd;
    var s := body[p..];
    DecodedIs(s);
    if Header(s).Some? {
      var size, start := Header(s).value.0, Header(s).value.1;
      var end := start + Min(size, |s| - start);
      assert s[start..end] == body[p + start..p + end];
      assert s[end..] == body[p + end..];
    }
  }

  /** The header at `p`, with its end as a position in the whole body. */
  method ReadHeader(body: Bytes, p: nat) returns (r: Option<(nat, nat)>)
    requires p < |body|
    ensures r == match Header(body[p..]) case None => None case Some((size, start)) => Some((size, p + start))
    ensures r.Some? ==> p < r.value.1 <= |body|
  {
    hide ParseHex, HexRun, FindLineEnd;
    var sizeEnd := p;
    while sizeEnd < |body| && HexDigit(body[sizeEnd])
      invariant p <= sizeEnd <= |body|
      invariant HexRun(body[p..]) == sizeEnd - p + HexRun(body[sizeEnd..])
    {
      HexRunStep(body, sizeEnd);
      sizeEnd := sizeEnd + 1;
    }
    HexRunStep(body, sizeEnd);
    assert body[p..][..sizeEnd - p] == body[p..sizeEnd];
    assert body[p..][sizeEnd - p..] == body[sizeEnd..];
    var parsed := ParseHex(body[p..sizeEnd], MAX_CHUNK);
    if parsed.None? {
      return None;
    }
    var q := sizeEnd;
    while q + 1 < |body| && !(body[q] == CR && body[q + 1] == LF)
      invariant sizeEnd <= q <= |body|
      invariant FindLineEnd(body[sizeEnd..]) ==
                match FindLineEnd(body[q..]) case None => None case Some(n) => Some(n + q - sizeEnd)
    {
      FindLineEndStep(body, q);
      q := q + 1;
    }
    FindLineEndStep(body, q);
    if q + 1 >= |body| {
      return None;
    }
    return Some((parsed.value, q + 2));
  }

  lemma HexRunStep(body: Bytes, i: nat)
    requires i <= |body|
    ensures i < |body| && HexDigit(body[i]) ==> HexRun(body[i..]) == 1 + HexRun(body[i + 1..])
    ensures i == |body| || !HexDigit(body[i]) ==> HexRun(body[i..]) == 0
  {
    if i < |body| {
      assert body[i..][1..] == body[i + 1..];
    }
  }

  lemma FindLineEndStep(body: Bytes, i: nat)
    requires i <= |body|
    ensures i + 1 >= |body| ==> FindLineEnd(body[i..]) == None
    ensures i + 1 < |body| && body[i] == CR && body[i + 1] == LF ==> FindLineEnd(body[i..]) == Some(0)
    ensures i + 1 < |body| && !(body[i] == CR && body[i + 1] == LF) ==>
              FindLineEnd(body[i..]) ==
              match FindLineEnd(body[i + 1..]) case None => None case Some(n) => Some(n + 1)
  {
    if i + 1 < |body| {
      assert body[i..][1..] == body[i + 1..];
    }
  }

  // ----------------------------------------------------- what decoding keeps

  /** What is decoded is no longer than what was read. */
  lemma {:induction false} DecodedIsShort(s: Bytes)
    ensures |Decoded(s)| <= |s|
    decreases |s|
  {
    hide Decoded, Header;
    DecodedIs(s);
    if Header(s).Some? && Header(s).value.0 != 0 {
      var (size, start) := Header(s).value;
      DecodedIsShort(SkipLineEnd(s[start + Min(size, |s| - start)..]));
    }
  }

  lemma {:induction false} HexRunConcat(s: Bytes, t: Bytes)
    ensures HexRun(s) < |s| ==> HexRun(s + t) == HexRun(s)
    ensures HexRun(s) == |s| ==> HexRun(s + t) == |s| + HexRun(t)
  {
    if s == [] {
      assert s + t == t;
    } else {
      assert (s + t)[1..] == s[1..] + t;
      HexRunConcat(s[1..], t);
    }
  }

  lemma {:induction false} FindLineEndConcat(s: Bytes, t: Bytes)
    requires FindLineEnd(s).Some?
    ensures FindLineEnd(s + t) == FindLineEnd(s)
  {
    assert (s + t)[1..] == s[1..] + t;
    if !LineEnd(s) {
      FindLineEndConcat(s[1..], t);
    }
  }

  /** A header that is complete is not changed by what comes later. */
  lemma HeaderStable(s: Bytes, t: Bytes)
    requires Header(s).Some?
    ensures Header(s + t) == Header(s)
  {
    hide ParseHex, FindLineEnd, HexRun;
    var digits := HexRun(s);
    HexRunConcat(s, t);
    assert digits < |s|;
    assert (s + t)[..digits] == s[..digits];
    assert (s + t)[digits..] == s[digits..] + t;
    FindLineEndConcat(s[digits..], t);
  }

  /** Whatever is cut off the end of a body, what remains decodes to a prefix. */
  lemma {:induction false} TruncationGivesPrefix(s: Bytes, t: Bytes)
    ensures Decoded(s) <= Decoded(s + t)
    decreases |s|
  {
    hide Decoded, Header, SkipLineEnd, LineEnd;
    DecodedIs(s);
    DecodedIs(s + t);
    if Header(s).Some? && Header(s).value.0 != 0 {
      HeaderStable(s, t);
      var (size, start) := Header(s).value;
      DataStable(s, t, start, size);
      var end := start + Min(size, |s| - start);
      if start + size <= |s| {
        var rest := s[end..];
        if |rest| >= 2 || t == [] {
          SkipConcat(rest, t);
          TruncationGivesPrefix(SkipLineEnd(rest), t);
        } else {
          LoneOctet(rest, t);
        }
      } else {
        LoneOctet(s[end..], t);
      }
    }
  }

  lemma DataStable(s: Bytes, t: Bytes, start: nat, size: nat)
    requires start <= |s|
    ensures var end, longer := start + Min(size, |s| - start), start + Min(size, |s + t| - start);
            && s[start..end] <= (s + t)[start..longer]
            && (start + size <= |s| ==> end == longer && (s + t)[start..end] == s[start..end] && (s + t)[end..] == s[end..] + t)
            && (start + size > |s| ==> s[end..] == [])
  {
  }

  lemma SkipConcat(rest: Bytes, t: Bytes)
    requires |rest| >= 2 || t == []
    ensures SkipLineEnd(rest + t) == SkipLineEnd(rest) + t
  {
    if t == [] {
      assert rest + t == rest && SkipLineEnd(rest) + t == SkipLineEnd(rest);
    }
  }

  /** Less than two octets hold no chunk. */
  lemma LoneOctet(rest: Bytes, t: Bytes)
    requires |rest| < 2
    ensures Decoded(SkipLineEnd(rest)) == []
  {
    assert FindLineEnd(rest[HexRun(rest)..]) == None;
    DecodedIs(rest);
  }

  // ------------------------------------------------------------- round trip

  /** A chunk as a server may write it: any spelling of its size, any extension, its data. */
  datatype Chunk = Chunk(size: Bytes, extension: Bytes, data: Bytes)

  predicate WellFormed(c: Chunk) {
    && c.size != [] && Numeral(c.size, |c.data|)
    && 0 < |c.data| <= 0x400_0000
    && Extension(c.extension)
  }

  /** Extension text: no carriage return in it, and not mistaken for more of the size. */
  predicate Extension(e: Bytes) {
    (e != [] ==> e[0] !in LOWER_DIGITS && e[0] !in UPPER_DIGITS) && 13 !in e
  }

  /** A chunk's header and what follows it. */
  function Headed(size: Bytes, extension: Bytes, t: Bytes): Bytes {
    size + (extension + ([13, 10] + t))
  }

  function Written(chunks: seq<Chunk>): Bytes {
    if chunks == [] then []
    else Headed(chunks[0].size, chunks[0].extension, chunks[0].data + ([13, 10] + Written(chunks[1..])))
  }

  function Data(chunks: seq<Chunk>): Bytes {
    if chunks == [] then [] else chunks[0].data + Data(chunks[1..])
  }

  lemma {:induction false} HexRunAll(s: Bytes)
    requires Hexadecimal(s)
    ensures HexRun(s) == |s|
  {
    if s != [] {
      HexRunAll(s[1..]);
    }
  }

  lemma {:induction false} FindAfter(e: Bytes, t: Bytes)
    requires 13 !in e
    ensures FindLineEnd(e + ([13, 10] + t)) == Some(|e|)
  {
    if e == [] {
      assert e + ([13, 10] + t) == [13, 10] + t;
    } else {
      assert (e + ([13, 10] + t))[1..] == e[1..] + ([13, 10] + t);
      FindAfter(e[1..], t);
    }
  }

  lemma HeaderReads(size: Bytes, n: nat, extension: Bytes, t: Bytes)
    requires size != [] && Numeral(size, n) && Extension(extension)
    ensures Header(Headed(size, extension, t)) ==
            if n <= 0x400_0000 then Some((n, |size| + |extension| + 2)) else None
    ensures Headed(size, extension, t)[|size| + |extension| + 2..] == t
  {
    hide HexRun, FindLineEnd, Hexadecimal, Numeral, HexDigit, LOWER_DIGITS, UPPER_DIGITS;
    NumeralReads(size, n);
    if extension != [] {
      DigitIs(extension[0]);
    }
    DigitIs(13);
    NoReturn();
    var after := extension + ([13, 10] + t);
    var s := size + after;
    HexRunAll(size);
    HexRunConcat(size, after);
    NoDigit(after);
    Halves(size, after);
    FindAfter(extension, t);
    HeadedConcat(size, extension, t, []);
  }

  lemma NoReturn()
    ensures 13 !in LOWER_DIGITS && 13 !in UPPER_DIGITS
  {
  }

  lemma Halves(a: Bytes, b: Bytes)
    ensures (a + b)[..|a|] == a && (a + b)[|a|..] == b
  {
  }

  lemma NoDigit(s: Bytes)
    requires s != [] && !HexDigit(s[0])
    ensures HexRun(s) == 0
  {
  }

  lemma HeadedConcat(size: Bytes, extension: Bytes, t: Bytes, rest: Bytes)
    ensures Headed(size, extension, t) + rest == Headed(size, extension, t + rest)
    ensures Headed(size, extension, t)[|size| + |extension| + 2..] == t
  {
  }

  lemma ChunkReads(c: Chunk, t: Bytes)
    requires WellFormed(c)
    ensures Decoded(Headed(c.size, c.extension, c.data + ([13, 10] + t))) == c.data + Decoded(t)
  {
    hide Decoded, Header, Headed, Numeral, Extension, SkipLineEnd;
    var behind := c.data + ([13, 10] + t);
    var s := Headed(c.size, c.extension, behind);
    HeaderReads(c.size, |c.data|, c.extension, behind);
    DecodedIs(s);
    var start := |c.size| + |c.extension| + 2;
    Inner(s, start, |c.data|);
    Halves(c.data, [13, 10] + t);
    Skipped(t);
  }

  lemma Inner(s: Bytes, start: nat, n: nat)
    requires start <= |s| && n <= |s[start..]|
    ensures s[start..start + n] == s[start..][..n] && s[start + n..] == s[start..][n..]
  {
  }

  lemma Skipped(t: Bytes)
    ensures SkipLineEnd([13, 10] + t) == t
  {
  }

  /**
   Chunks of any sizes up to the limit, however their sizes are spelled and
   whatever their extensions, decode to the concatenation of their data,
   followed by what the rest of the body decodes to.
   */
  lemma {:induction false} DecodeReassembles(chunks: seq<Chunk>, rest: Bytes)
    requires forall i :: 0 <= i < |chunks| ==> WellFormed(chunks[i])
    ensures Decoded(Written(chunks) + rest) == Data(chunks) + Decoded(rest)
  {
    hide Decoded, Headed, WellFormed;
    if chunks == [] {
      assert [] + rest == rest;
      assert [] + Decoded(rest) == Decoded(rest);
    } else {
      var c, more := chunks[0], Written(chunks[1..]);
      DecodeReassembles(chunks[1..], rest);
      HeadedConcat(c.size, c.extension, c.data + ([13, 10] + more), rest);
      Reassociate(c.data, [13, 10] + more, rest);
      Reassociate([13, 10], more, rest);
      ChunkReads(c, more + rest);
      Reassociate(c.data, Data(chunks[1..]), Decoded(rest));
    }
  }

  /**
   A chunked body decodes to the data before its last chunk, or before a chunk
   that announces more than the limit; cut anywhere, to a prefix of it.
   */
  lemma ChunkedRoundTrip(chunks: seq<Chunk>, size: Bytes, n: nat, extension: Bytes, trailer: Bytes, cut: nat)
    requires forall i :: 0 <= i < |chunks| ==> WellFormed(chunks[i])
    requires size != [] && Numeral(size, n) && Extension(extension) && (n == 0 || n > 0x400_0000)
    ensures var body := Written(chunks) + Headed(size, extension, trailer);
            && Decoded(body) == Data(chunks)
            && (cut <= |body| ==> Decoded(body[..cut]) <= Data(chunks))
  {
    hide Decoded, Written, Data, Header, Extension, Numeral, Headed, WellFormed;
    var last := Headed(size, extension, trailer);
    var body := Written(chunks) + last;
    DecodeReassembles(chunks, last);
    HeaderReads(size, n, extension, trailer);
    DecodedIs(last);
    if cut <= |body| {
      assert body[..cut] + body[cut..] == body;
      TruncationGivesPrefix(body[..cut], body[cut..]);
    }
  }
}
