/** The quoted-string decoder (`gcfg_parse_string`) and its UTF-8 encoder
    (`encode_utf8`): a string runs from `"` to `"`, with the escapes
    `\b \t \n \r \\ \"` and `\u+`/`\U+` followed by hexadecimal digits
    naming a code point that is written out in UTF-8. */
module Strings {
  import opened Base
  import opened Utf8

  const BACKSPACE: Byte := 8 as char

  // ---------------------------------------------------------------------
  // encode_utf8

  /** `encode_utf8`: the code point in one to four bytes; the lead byte
      carries the length marker and the top bits, each trailing byte six
      bits. Bits above the 21 a four-byte form holds are dropped, as the
      masks of the source drop them. */
  function EncodeUtf8(cp: nat): (b: seq<Byte>)
    requires cp < U32_LIMIT
    ensures |b| == (if cp >= 0x1_0000 then 4 else if cp >= 0x800 then 3 else if cp >= 0x80 then 2 else 1)
  {
    if cp >= 0x1_0000 then
      [(0xF0 + cp / 0x4_0000 % 0x08) as char, (0x80 + cp / 0x1000 % 0x40) as char,
       (0x80 + cp / 0x40 % 0x40) as char, (0x80 + cp % 0x40) as char]
    else if cp >= 0x800 then
      [(0xE0 + cp / 0x1000 % 0x10) as char, (0x80 + cp / 0x40 % 0x40) as char, (0x80 + cp % 0x40) as char]
    else if cp >= 0x80 then
      [(0xC0 + cp / 0x40 % 0x20) as char, (0x80 + cp % 0x40) as char]
    else
      [cp as char]
  }

  /** Round trip with the reference decoder of RFC 3629: the bytes written
      for a valid code point are one well-formed sequence of exactly that
      length, and it decodes back to the code point. */
  lemma {:induction false} EncodeUtf8Decodes(cp: nat)
    requires IsValidCp(cp)
    ensures var b := EncodeUtf8(cp); Rfc3629Length(b, 0) == |b| && Rfc3629Value(b, 0, |b|) == cp
  {
    if cp >= 0x1_0000 {
      EncodeFour(cp, EncodeUtf8(cp));
    } else if cp >= 0x800 {
      EncodeThree(cp, EncodeUtf8(cp));
    } else if cp >= 0x80 {
      EncodeTwo(cp, EncodeUtf8(cp));
    }
  }

  lemma EncodeTwo(cp: nat, b: seq<Byte>)
    requires 0x80 <= cp < 0x800 && b == EncodeUtf8(cp)
    ensures Rfc3629Length(b, 0) == 2 && Rfc3629Value(b, 0, 2) == cp
  {
    var hi, lo := cp / 0x40, cp % 0x40;
    assert cp == hi * 0x40 + lo;
    assert b[0] as nat == 0xC0 + hi && b[1] as nat == 0x80 + lo;
  }

  lemma EncodeThree(cp: nat, b: seq<Byte>)
    requires 0x800 <= cp < 0x1_0000 && !(0xD800 <= cp <= 0xDFFF) && b == EncodeUtf8(cp)
    ensures Rfc3629Length(b, 0) == 3 && Rfc3629Value(b, 0, 3) == cp
  {
    var x, r := cp / 0x1000, cp % 0x1000;
    var y, z := r / 0x40, r % 0x40;
    Split64(r, y, z);
    Split64(cp, x * 0x40 + y, z);
    Split64(x * 0x40 + y, x, y);
    assert b[0] as nat == 0xE0 + x && b[1] as nat == 0x80 + y && b[2] as nat == 0x80 + z;
    assert x == 0 ==> y >= 0x20;
    assert x == 0xD ==> y < 0x20;
    assert TailsAt(b, 2, 1);
  }

  lemma EncodeFour(cp: nat, b: seq<Byte>)
    requires 0x1_0000 <= cp <= 0x10_FFFF && b == EncodeUtf8(cp)
    ensures Rfc3629Length(b, 0) == 4 && Rfc3629Value(b, 0, 4) == cp
  {
    var w, r := cp / 0x4_0000, cp % 0x4_0000;
    var x, r' := r / 0x1000, r % 0x1000;
    var y, z := r' / 0x40, r' % 0x40;
    Split4096(r, x, r');
    Split64(r', y, z);
    Split4096(cp, w * 0x40 + x, r');
    Split64(w * 0x40 + x, w, x);
    Split64(cp, (w * 0x40 + x) * 0x40 + y, z);
    Split64((w * 0x40 + x) * 0x40 + y, w * 0x40 + x, y);
    assert b[0] as nat == 0xF0 + w && b[1] as nat == 0x80 + x && b[2] as nat == 0x80 + y && b[3] as nat == 0x80 + z;
    assert w == 0 ==> x >= 0x10;
    assert w == 4 ==> x < 0x10;
    assert TailsAt(b, 2, 2);
  }

  /** Quotient and remainder by 64 are determined by the division
      identity. */
  lemma Split64(n: nat, q: nat, r: nat)
    requires r < 0x40 && n == q * 0x40 + r
    ensures n / 0x40 == q && n % 0x40 == r
  {
  }

  lemma Split4096(n: nat, q: nat, r: nat)
    requires r < 0x1000 && n == q * 0x1000 + r
    ensures n / 0x1000 == q && n % 0x1000 == r
  {
  }

  // ---------------------------------------------------------------------
  // The decoder as functions

  /** The single-letter escapes of the `switch`: `\b`, `\t`, `\n`, `\r`,
      `\\` and `\"`. */
  function Escaped(e: Byte): (x: Option<Byte>)
    ensures x.Some? <==> e in ['b', 't', 'n', 'r', '\\', '"']
  {
    if e == 'b' then Some(BACKSPACE)
    else if e == 't' then Some('\t')
    else if e == 'n' then Some('\n')
    else if e == 'r' then Some('\r')
    else if e == '\\' then Some('\\')
    else if e == '"' then Some('"')
    else None
  }

  /** The number hexadecimal digits spell, most significant first. */
  function HexValue(ds: seq<Byte>): (v: nat)
    requires forall k :: 0 <= k < |ds| ==> IsHexDigit(ds[k])
    ensures v < Pow2(4 * |ds|)
  {
    if ds == [] then 0
    else
      var v := HexValue(ds[..|ds| - 1]);
      Pow2Four(4 * (|ds| - 1));
      v * 16 + Xdigit(ds[|ds| - 1])
  }

  /** Where a run of at most `room` hexadecimal digits from `q` ends. */
  function DigitsEnd(s: seq<Byte>, q: nat, room: nat): (e: nat)
    ensures q <= e <= q + room && (e == q || e <= |s|)
    ensures forall k :: q <= k < e ==> k < |s| && IsHexDigit(s[k])
    ensures e < q + room ==> !IsHexDigit(At(s, e))
    decreases room
  {
    if room == 0 || !IsHexDigit(At(s, q)) then q else DigitsEnd(s, q + 1, room - 1)
  }

  /** One element of the body at `p`, which is not the closing quote: the
      bytes it stands for and where the next element starts. A NUL (the end
      of the line) or an unknown escape fails, and so does a `\u+` escape
      naming an invalid code point. With `capped` the digit loop stops
      after six digits, as its counter evidently intends; without it, as
      written, the counter never advances, every digit is read and the
      value is kept modulo 2^32 (`room` |s| is never reached). */
  function ElementAt(s: seq<Byte>, p: nat, capped: bool): (r: Res<seq<Byte>>)
    requires At(s, p) != '"'
    ensures r.Ok? ==> p < r.next <= |s| && 1 <= |r.value| <= r.next - p
  {
    var c := At(s, p);
    if c == '\0' then Fail
    else if c != '\\' then Ok([c], p + 1)
    else
      var e := At(s, p + 1);
      match Escaped(e)
      case Some(x) => Ok([x], p + 2)
      case None =>
        if (e != 'u' && e != 'U') || At(s, p + 2) != '+' then Fail
        else CodePointAt(s, p + 3, capped)
  }

  /** The digits of a `\u+` escape from `q` on, as the UTF-8 bytes of the
      code point they name; an invalid code point fails. */
  function CodePointAt(s: seq<Byte>, q: nat, capped: bool): (r: Res<seq<Byte>>)
    requires q <= |s|
    ensures r.Ok? ==> q <= r.next <= |s| && 1 <= |r.value| <= r.next - q + 3
  {
    var e := DigitsEnd(s, q, if capped then 6 else |s|);
    var cp := HexValue(s[q..e]) % U32_LIMIT;
    if IsValidCp(cp) then
      EncodeFits(HexValue(s[q..e]), e - q);
      Ok(EncodeUtf8(cp), e)
    else Fail
  }

  /** A code point spelled by `n` digits takes at most `n + 3` bytes, so
      the escape `\u+` and its digits are at least as long as what they
      stand for. */
  lemma {:induction false} EncodeFits(v: nat, n: nat)
    requires v < Pow2(4 * n)
    ensures |EncodeUtf8(v % U32_LIMIT)| <= n + 3
  {
    var cp := v % U32_LIMIT;
    assert cp <= v;
    if n <= 4 {
      Pow2Monotone(4 * n, 16);
      Pow2Values();
    }
  }

  lemma Pow2Four(n: nat)
    ensures Pow2(n + 4) == 16 * Pow2(n)
  {
    assert Pow2(n + 4) == 2 * Pow2(n + 3) == 4 * Pow2(n + 2) == 8 * Pow2(n + 1);
  }

  lemma {:induction false} Pow2Monotone(a: nat, b: nat)
    requires a <= b
    ensures Pow2(a) <= Pow2(b)
    decreases b - a
  {
    if a < b {
      Pow2Monotone(a, b - 1);
    }
  }

  /** What the body loop produces from `p` on: the bytes written, and the
      position past the closing quote, or none when an element fails. */
  datatype Body = Body(text: seq<Byte>, next: Option<nat>)

  function Scan(s: seq<Byte>, p: nat, capped: bool): (b: Body)
    requires p <= |s|
    ensures |b.text| <= |s| - p
    ensures b.next.Some? ==> p + |b.text| < b.next.value <= |s| && s[b.next.value - 1] == '"'
    decreases |s| - p
  {
    if At(s, p) == '"' then Body([], Some(p + 1))
    else match ElementAt(s, p, capped)
      case Fail => Body([], None)
      case Ok(x, q) =>
        var rest := Scan(s, q, capped);
        Body(x + rest.text, rest.next)
  }

  /** `gcfg_parse_string`: a quote at `i`, then the body up to the closing
      quote; the result is the decoded text and the position past the
      closing quote. */
  function StringAt(s: seq<Byte>, i: nat, capped: bool): (r: Res<seq<Byte>>)
    ensures r.Ok? ==> i + 2 + |r.value| <= r.next <= |s| && s[i] == '"' && s[r.next - 1] == '"'
  {
    if At(s, i) != '"' then Fail
    else
      var b := Scan(s, i + 1, capped);
      if b.next.None? then Fail else Ok(b.text, b.next.value)
  }

  /** The decoder with its digit loop bounded at six digits. */
  function ParseStringSpec(s: seq<Byte>, i: nat): Res<seq<Byte>>
  {
    StringAt(s, i, true)
  }

  /** The decoder as written, whose digit loop has no bound. */
  function ParseStringAsWritten(s: seq<Byte>, i: nat): Res<seq<Byte>>
  {
    StringAt(s, i, false)
  }

  /** The line buffer after decoding the string at `i` into the same
      buffer from its start: the bytes produced, then the terminating NUL
      when the string closed, then the line as it was. */
  function InPlace(s: seq<Byte>, i: nat): (t: seq<Byte>)
    ensures |t| == |s|
  {
    if At(s, i) != '"' then s
    else
      var b := Scan(s, i + 1, false);
      var w := if b.next.Some? then b.text + ['\0'] else b.text;
      w + s[|w|..]
  }

  // ---------------------------------------------------------------------
  // The decoder's loops, in place on the line buffer

  /** The code-point loop: hexadecimal digits from `q`, shifted in four
      bits at a time into a 32-bit accumulator. The digit counter never
      advances, so its bound `i < 6` never stops the loop: every digit of
      the run is read and the high bits shift out of the accumulator. */
  method HexDigits(buf: array<Byte>, q: nat) returns (cp: nat, e: nat)
    requires q <= buf.Length
    ensures e == DigitsEnd(buf[..], q, buf.Length)
    ensures cp == HexValue(buf[q..e]) % U32_LIMIT
  {
    ghost var s := buf[..];
    cp, e := 0, q;
    while Xdigit(At(buf[..], e)) >= 0
      invariant q <= e <= |s|
      invariant DigitsEnd(s, e, |s| - (e - q)) == DigitsEnd(s, q, |s|)
      invariant forall k :: q <= k < e ==> IsHexDigit(s[k])
      invariant cp == HexValue(s[q..e]) % U32_LIMIT
      decreases |s| - e
    {
      var d := Xdigit(buf[e]);
      NextDigit(s, q, e, cp);
      cp := (cp * 16) % U32_LIMIT + d;
      e := e + 1;
    }
  }

  lemma NextDigit(s: seq<Byte>, q: nat, e: nat, cp: nat)
    requires q <= e < |s| && IsHexDigit(s[e])
    requires forall k :: q <= k < e ==> IsHexDigit(s[k])
    requires cp == HexValue(s[q..e]) % U32_LIMIT
    ensures (cp * 16) % U32_LIMIT + Xdigit(s[e]) == HexValue(s[q..e + 1]) % U32_LIMIT
  {
    var ds := s[q..e + 1];
    assert ds[..e - q] == s[q..e] && ds[e - q] == s[e];
    ShiftDigitIn(ds, cp);
  }

  /** Shifting the next digit into the 32-bit accumulator (`cp <<= 4`,
      then `cp |= digit` on the freed low bits) extends the value by that
      digit, modulo 2^32. */
  lemma ShiftDigitIn(ds: seq<Byte>, cp: nat)
    requires 1 <= |ds| && forall k :: 0 <= k < |ds| ==> IsHexDigit(ds[k])
    requires cp == HexValue(ds[..|ds| - 1]) % U32_LIMIT
    ensures (cp * 16) % U32_LIMIT + Xdigit(ds[|ds| - 1]) == HexValue(ds) % U32_LIMIT
  {
    HexMore(ds);
    ShiftValue(cp, HexValue(ds[..|ds| - 1]), Xdigit(ds[|ds| - 1]), HexValue(ds));
  }

  /** `WrapShift` for an accumulator `cp` holding `h` modulo 2^32 and a
      value `v` that extends `h` by the digit `d`. */
  lemma ShiftValue(cp: nat, h: nat, d: nat, v: nat)
    requires d < 16 && cp == h % U32_LIMIT && v == h * 16 + d
    ensures (cp * 16) % U32_LIMIT + d == v % U32_LIMIT
  {
    WrapShift(h, d);
  }

  /** Shifting by four bits and filling the low bits commutes with
      reduction modulo 2^32. */
  lemma WrapShift(h: nat, d: nat)
    requires d < 16
    ensures ((h % U32_LIMIT) * 16) % U32_LIMIT + d == (h * 16 + d) % U32_LIMIT
  {
    var r, a := h % U32_LIMIT, h / U32_LIMIT;
    var c, b := (r * 16) % U32_LIMIT, (r * 16) / U32_LIMIT;
    assert r * 16 == b * U32_LIMIT + c;
    assert c == 16 * (r - b * 0x1000_0000);
    assert c + d < U32_LIMIT;
    assert h * 16 + d == (a * 16 + b) * U32_LIMIT + (c + d);
    Split32(h * 16 + d, a * 16 + b, c + d);
  }

  lemma Split32(n: nat, q: nat, r: nat)
    requires r < U32_LIMIT && n == q * U32_LIMIT + r
    ensures n % U32_LIMIT == r
  {
  }

  /** One element of the body, read from the buffer. */
  method ReadElement(buf: array<Byte>, p: nat) returns (r: Res<seq<Byte>>)
    requires At(buf[..], p) != '"'
    ensures r == ElementAt(buf[..], p, false)
  {
    var c := At(buf[..], p);
    if c == '\0' {
      return Fail;
    }
    if c != '\\' {
      return Ok([c], p + 1);
    }
    var e := At(buf[..], p + 1);
    var x := Escaped(e);
    if x.Some? {
      return Ok([x.value], p + 2);
    }
    if (e != 'u' && e != 'U') || At(buf[..], p + 2) != '+' {
      return Fail;
    }
    r := ReadCodePoint(buf, p + 3);
  }

  /** The code-point escape's digits, checked and written out in UTF-8. */
  method ReadCodePoint(buf: array<Byte>, q: nat) returns (r: Res<seq<Byte>>)
    requires q <= buf.Length
    ensures r == CodePointAt(buf[..], q, false)
  {
    var cp, e := HexDigits(buf, q);
    if !IsValidCp(cp) {
      return Fail;
    }
    return Ok(EncodeUtf8(cp), e);
  }

  /** Six digits or fewer never reach 2^32. */
  lemma HexValueSmall(ds: seq<Byte>)
    requires |ds| <= 6 && forall k :: 0 <= k < |ds| ==> IsHexDigit(ds[k])
    ensures HexValue(ds) % U32_LIMIT == HexValue(ds)
  {
    Pow2Monotone(4 * |ds|, 24);
    Pow2Values();
  }

  lemma Pow2Values()
    ensures Pow2(16) == 0x1_0000 && Pow2(20) == 0x10_0000 && Pow2(24) == 0x100_0000
  {
    Pow2Four(0);
    Pow2Four(4);
    Pow2Four(8);
    Pow2Four(12);
    Pow2Four(16);
    Pow2Four(20);
  }

  /** Copies `b` into the buffer from `at` on. */
  method WriteBytes(buf: array<Byte>, at: nat, b: seq<Byte>)
    requires at + |b| <= buf.Length
    modifies buf
    ensures buf[..] == old(buf[..])[..at] + b + old(buf[..])[at + |b|..]
  {
    var k := 0;
    while k < |b|
      invariant k <= |b|
      invariant buf[..] == old(buf[..])[..at] + b[..k] + old(buf[..])[at + k..]
    {
      buf[at + k] := b[k];
      k := k + 1;
    }
  }

  /** `gcfg_parse_string` as the engine calls it: the string at `i` of the
      line buffer is decoded into the same buffer from its start. The
      bytes written never reach the bytes still to be read, so the outcome
      is the decoder's on the line as it was, and the buffer ends up
      holding the decoded text, its NUL and the rest of the line. */
  method ParseString(buf: array<Byte>, i: nat) returns (r: Option<nat>)
    modifies buf
    ensures var sp := ParseStringAsWritten(old(buf[..]), i); (r.Some? <==> sp.Ok?) && (r.Some? ==> r.value == sp.next)
    ensures buf[..] == InPlace(old(buf[..]), i)
  {
    ghost var s := buf[..];
    if At(buf[..], i) != '"' {
      return None;
    }
    Started(s, i + 1);
    var closed, p, dst, out := ReadBody(buf, i, s, Scan(s, i + 1, false));
    Unread(s, buf[..], out, p);
    if !closed {
      Failed(s, i, out, p);
      return None;
    }
    Closed(s, i, out, p);
    buf[dst] := '\0';
    Terminated(s, out, buf[..]);
    r := Some(p + 1);
  }

  /** The body loop: elements are read from `i + 1` on and their bytes
      written from the start of the buffer, until the closing quote or a
      failing element. */
  method ReadBody(buf: array<Byte>, i: nat, ghost s: seq<Byte>, ghost whole: Body)
    returns (closed: bool, p: nat, dst: nat, ghost out: seq<Byte>)
    requires buf[..] == s && At(s, i) == '"' && i + 1 <= |s| && Continues(s, whole, [], i + 1)
    modifies buf
    ensures BodyState(s, i, whole, buf[..], p, dst, out)
    ensures closed <==> At(s, p) == '"'
    ensures !closed ==> ElementAt(s, p, false) == Fail
  {
    p, dst, out := i + 1, 0, [];
    var ok := true;
    while ok && At(buf[..], p) != '"'
      invariant BodyState(s, i, whole, buf[..], p, dst, out)
      invariant !ok ==> At(s, p) != '"' && ElementAt(s, p, false) == Fail
      decreases |s| - p, ok
    {
      ok, p, dst, out := CopyElement(buf, i, s, whole, p, dst, out);
    }
    ReadSame(s, buf[..], out, p);
    closed := ok;
  }

  ghost predicate BodyState(s: seq<Byte>, i: nat, whole: Body, t: seq<Byte>, p: nat, dst: nat, out: seq<Byte>)
  {
    Behind(s, i, t, p, dst, out) && Continues(s, whole, out, p)
  }

  ghost predicate Behind(s: seq<Byte>, i: nat, t: seq<Byte>, p: nat, dst: nat, out: seq<Byte>)
  {
    i + 1 <= p <= |s| && dst == |out| && dst + i + 1 <= p && t == out + s[dst..]
  }

  method CopyElement(buf: array<Byte>, i: nat, ghost s: seq<Byte>, ghost whole: Body, p: nat, dst: nat, ghost out: seq<Byte>)
    returns (ok: bool, p': nat, dst': nat, ghost out': seq<Byte>)
    requires BodyState(s, i, whole, buf[..], p, dst, out) && At(buf[..], p) != '"'
    modifies buf
    ensures BodyState(s, i, whole, buf[..], p', dst', out')
    ensures ok ==> p < p'
    ensures !ok ==> p' == p && At(s, p) != '"' && ElementAt(s, p, false) == Fail
  {
    ReadSame(s, buf[..], out, p);
    var x := ReadElement(buf, p);
    if x.Fail? {
      return false, p, dst, out;
    }
    WriteBytes(buf, dst, x.value);
    Advanced(s, whole, out, p, x.value, x.next);
    Written(s, out, x.value, buf[..]);
    return true, x.next, dst + |x.value|, out + x.value;
  }

  ghost predicate Continues(s: seq<Byte>, whole: Body, out: seq<Byte>, p: nat)
    requires p <= |s|
  {
    whole == Body(out + Scan(s, p, false).text, Scan(s, p, false).next)
  }

  lemma Started(s: seq<Byte>, q: nat)
    requires q <= |s|
    ensures Continues(s, Scan(s, q, false), [], q)
  {
    assert [] + Scan(s, q, false).text == Scan(s, q, false).text;
  }

  /** One more element read: what the body loop produces from `p` on is
      the element's bytes, then what it produces after them. */
  lemma Advanced(s: seq<Byte>, whole: Body, out: seq<Byte>, p: nat, x: seq<Byte>, e: nat)
    requires p <= |s| && Continues(s, whole, out, p)
    requires At(s, p) != '"' && ElementAt(s, p, false) == Ok(x, e)
    ensures Continues(s, whole, out + x, e)
  {
    assert out + (x + Scan(s, e, false).text) == out + x + Scan(s, e, false).text;
  }

  /** The element's bytes written after `out`: the buffer holds them in
      front of the rest of the line. */
  lemma Written(s: seq<Byte>, out: seq<Byte>, x: seq<Byte>, t: seq<Byte>)
    requires |out| + |x| <= |s|
    requires t == (out + s[|out|..])[..|out|] + x + (out + s[|out|..])[|out| + |x|..]
    ensures t == out + x + s[|out + x|..]
  {
    assert (out + s[|out|..])[..|out|] == out;
    assert (out + s[|out|..])[|out| + |x|..] == s[|out| + |x|..];
  }

  /** The closing quote at `p`: the string decodes to `out`. */
  lemma Closed(s: seq<Byte>, i: nat, out: seq<Byte>, p: nat)
    requires At(s, i) == '"' && i + 1 <= p <= |s| && Continues(s, Scan(s, i + 1, false), out, p) && At(s, p) == '"'
    ensures ParseStringAsWritten(s, i) == Ok(out, p + 1)
    ensures |out| < |s| && InPlace(s, i) == out + ['\0'] + s[|out| + 1..]
  {
    assert out + [] == out;
  }

  /** An element fails at `p`: so does the string, with `out` written. */
  lemma Failed(s: seq<Byte>, i: nat, out: seq<Byte>, p: nat)
    requires At(s, i) == '"' && i + 1 <= p <= |s| && Continues(s, Scan(s, i + 1, false), out, p)
    requires At(s, p) != '"' && ElementAt(s, p, false) == Fail
    ensures ParseStringAsWritten(s, i) == Fail
    ensures InPlace(s, i) == out + s[|out|..]
  {
    assert out + [] == out;
  }

  /** The buffer after the terminating NUL is stored. */
  lemma Terminated(s: seq<Byte>, out: seq<Byte>, t: seq<Byte>)
    requires |out| < |s| && t == (out + s[|out|..])[|out| := '\0']
    ensures t == out + ['\0'] + s[|out| + 1..]
  {
  }

  /** The buffer agrees with the line from the read position on. */
  lemma Unread(s: seq<Byte>, t: seq<Byte>, out: seq<Byte>, p: nat)
    requires |out| <= p <= |s| && t == out + s[|out|..]
    ensures |t| == |s| && t[p..] == s[p..] && At(t, p) == At(s, p)
  {
  }

  /** The buffer reads like the line at `p`, where the next element
      starts. */
  lemma ReadSame(s: seq<Byte>, t: seq<Byte>, out: seq<Byte>, p: nat)
    requires |out| <= p <= |s| && t == out + s[|out|..]
    ensures At(t, p) == At(s, p)
    ensures At(s, p) != '"' ==> ElementAt(t, p, false) == ElementAt(s, p, false)
  {
    Unread(s, t, out, p);
    if At(s, p) != '"' {
      ElementLocal(s, t, p, false);
    }
  }

  /** An element depends only on the line from its own position on. */
  lemma ElementLocal(s: seq<Byte>, t: seq<Byte>, p: nat, capped: bool)
    requires p <= |s| == |t| && s[p..] == t[p..] && At(s, p) != '"'
    ensures At(t, p) != '"' && ElementAt(s, p, capped) == ElementAt(t, p, capped)
  {
    SuffixReads(s, t, p);
    if At(s, p) == '\\' && At(s, p + 2) == '+' {
      CodePointLocal(s, t, p, p + 3, capped);
    }
  }

  lemma SuffixReads(s: seq<Byte>, t: seq<Byte>, p: nat)
    requires p <= |s| == |t| && s[p..] == t[p..]
    ensures forall k :: p <= k ==> At(s, k) == At(t, k)
  {
    forall k | p <= k
      ensures At(s, k) == At(t, k)
    {
      if k < |s| {
        assert s[k] == s[p..][k - p] == t[p..][k - p] == t[k];
      }
    }
  }

  lemma CodePointLocal(s: seq<Byte>, t: seq<Byte>, p: nat, q: nat, capped: bool)
    requires p <= q <= |s| == |t| && s[p..] == t[p..] && forall k :: p <= k ==> At(s, k) == At(t, k)
    ensures CodePointAt(s, q, capped) == CodePointAt(t, q, capped)
  {
    var room := if capped then 6 else |s|;
    DigitsEndLocal(s, t, p, q, room);
    var e := DigitsEnd(s, q, room);
    SliceOfSuffix(s, p, q, e);
    SliceOfSuffix(t, p, q, e);
  }

  lemma SliceOfSuffix(s: seq<Byte>, p: nat, a: nat, b: nat)
    requires p <= a <= b <= |s|
    ensures s[a..b] == s[p..][a - p..b - p]
  {
  }

  lemma {:induction false} DigitsEndLocal(s: seq<Byte>, t: seq<Byte>, p: nat, q: nat, room: nat)
    requires p <= q && forall k :: p <= k ==> At(s, k) == At(t, k)
    ensures DigitsEnd(s, q, room) == DigitsEnd(t, q, room)
    decreases room
  {
    if room > 0 && IsHexDigit(At(s, q)) {
      DigitsEndLocal(s, t, p, q + 1, room - 1);
    }
  }

  // ---------------------------------------------------------------------
  // Properties

  /** The escape letter for a byte that has one: the inverse of
      `Escaped`. */
  function EscapeLetter(c: Byte): (e: Option<Byte>)
    ensures e.Some? <==> c == BACKSPACE || c == '\t' || c == '\n' || c == '\r' || c == '\\' || c == '"'
    ensures e.Some? ==> Escaped(e.value) == Some(c)
  {
    if c == BACKSPACE then Some('b')
    else if c == '\t' then Some('t')
    else if c == '\n' then Some('n')
    else if c == '\r' then Some('r')
    else if c == '\\' then Some('\\')
    else if c == '"' then Some('"')
    else None
  }

  /** One byte as it is written in a string body: its escape, or itself. */
  function QuotedByte(c: Byte): (q: seq<Byte>)
    ensures 1 <= |q| <= 2
  {
    match EscapeLetter(c)
    case Some(e) => ['\\', e]
    case None => [c]
  }

  /** Quoting text for a string body: backspace, tab, line feed, carriage
      return, `"` and `\` are written as escapes, every other byte stands
      for itself. */
  function Quote(t: seq<Byte>): (q: seq<Byte>)
    ensures |t| <= |q| <= 2 * |t|
  {
    if t == [] then [] else QuotedByte(t[0]) + Quote(t[1..])
  }

  /** Round trip: text without NUL, quoted and put between quotes, decodes
      back to itself, and decoding stops right after the closing quote;
      with or without the cap on escape digits, since quoting writes no
      `\u+` escape. */
  lemma {:induction false} QuoteRoundTrip(s: seq<Byte>, i: nat, t: seq<Byte>, rest: seq<Byte>)
    requires '\0' !in t && i <= |s| && s[i..] == ['"'] + Quote(t) + ['"'] + rest
    ensures ParseStringSpec(s, i) == Ok(t, i + |Quote(t)| + 2)
    ensures ParseStringAsWritten(s, i) == Ok(t, i + |Quote(t)| + 2)
  {
    QuoteOpens(s, i, t, rest);
    QuotedLayout(s, i + 1, t, rest);
    QuotedString(s, i, t, i + |Quote(t)| + 2);
  }

  /** The opening quote, and the quoted spelling after it. */
  lemma QuoteOpens(s: seq<Byte>, i: nat, t: seq<Byte>, rest: seq<Byte>)
    requires i <= |s| && s[i..] == ['"'] + Quote(t) + ['"'] + rest
    ensures i < |s| && At(s, i) == '"' && s[i + 1..] == Quote(t) + ['"'] + rest
  {
    assert s[i] == s[i..][0];
    assert s[i + 1..] == s[i..][1..];
  }

  /** A quote, then a quoted spelling: the string reads back the text,
      with or without the cap. */
  lemma QuotedString(s: seq<Byte>, i: nat, t: seq<Byte>, e: nat)
    requires i < |s| && At(s, i) == '"' && QuotedFrom(s, i + 1, t, e)
    ensures ParseStringSpec(s, i) == Ok(t, e) && ParseStringAsWritten(s, i) == Ok(t, e)
  {
    ScanQuoted(s, i + 1, t, true, e);
    ScanQuoted(s, i + 1, t, false, e);
  }

  /** Byte by byte: the quoted spelling of `t` lies at `p`, and its
      closing quote is the byte before `e`. */
  predicate QuotedFrom(s: seq<Byte>, p: nat, t: seq<Byte>, e: nat)
    decreases |t|
  {
    if t == [] then At(s, p) == '"' && e == p + 1
    else
      var h := QuotedByte(t[0]);
      t[0] != '\0' && At(s, p) == h[0] && (|h| == 2 ==> At(s, p + 1) == h[1]) && QuotedFrom(s, p + |h|, t[1..], e)
  }

  /** The body loop over a quoted spelling reads back the text it spells. */
  lemma {:induction false} ScanQuoted(s: seq<Byte>, p: nat, t: seq<Byte>, capped: bool, e: nat)
    requires p <= |s| && QuotedFrom(s, p, t, e)
    ensures Scan(s, p, capped) == Body(t, Some(e))
    decreases |t|
  {
    if t != [] {
      var h := QuotedByte(t[0]);
      QuotedRest(s, p, t, e);
      ElementQuoted(s, p, t[0], h, capped);
      ScanQuoted(s, p + |h|, t[1..], capped, e);
      assert t == [t[0]] + t[1..];
      ScanCons(s, p, capped, [t[0]], p + |h|, t[1..], Some(e), t);
    }
  }

  /** After the first quoted byte, the rest of the spelling. */
  lemma {:induction false} QuotedRest(s: seq<Byte>, p: nat, t: seq<Byte>, e: nat)
    requires t != [] && QuotedFrom(s, p, t, e)
    ensures t[0] != '\0' && At(s, p) == QuotedByte(t[0])[0]
    ensures |QuotedByte(t[0])| == 2 ==> At(s, p + 1) == QuotedByte(t[0])[1]
    ensures p + |QuotedByte(t[0])| <= |s| && QuotedFrom(s, p + |QuotedByte(t[0])|, t[1..], e)
  {
  }

  /** The quoted spelling, laid out as a slice, lies at `p` byte by byte. */
  lemma {:induction false} QuotedLayout(s: seq<Byte>, p: nat, t: seq<Byte>, rest: seq<Byte>)
    requires '\0' !in t && p <= |s| && s[p..] == Quote(t) + ['"'] + rest
    ensures QuotedFrom(s, p, t, p + |Quote(t)| + 1)
    decreases |t|
  {
    if t == [] {
      assert At(s, p) == s[p..][0];
    } else {
      var head, qt := QuotedByte(t[0]), Quote(t[1..]);
      assert Quote(t) == head + qt;
      QuotedHead(s, p, head, Quote(t), qt, rest);
      NulFreeTail(t);
      QuotedLayout(s, p + |head|, t[1..], rest);
    }
  }

  lemma NulFreeTail(t: seq<Byte>)
    requires t != [] && '\0' !in t
    ensures t[0] != '\0' && '\0' !in t[1..]
  {
    assert t == [t[0]] + t[1..];
  }

  /** The body loop reads one element, then goes on after it. */
  lemma ScanCons(s: seq<Byte>, p: nat, capped: bool, x: seq<Byte>, q: nat, y: seq<Byte>, n: Option<nat>, xy: seq<Byte>)
    requires p <= |s| && At(s, p) != '"' && ElementAt(s, p, capped) == Ok(x, q)
    requires Scan(s, q, capped) == Body(y, n) && xy == x + y
    ensures Scan(s, p, capped) == Body(xy, n)
  {
  }

  /** A quoted byte is one element: itself, or a backslash and itself. */
  lemma ElementQuoted(s: seq<Byte>, p: nat, c: Byte, head: seq<Byte>, capped: bool)
    requires c != '\0' && head == QuotedByte(c)
    requires At(s, p) == head[0] && (|head| == 2 ==> At(s, p + 1) == head[1])
    ensures At(s, p) != '"' && ElementAt(s, p, capped) == Ok([c], p + |head|)
  {
  }

  /** Laying out the first quoted element: the bytes at `p` and what
      follows them. */
  lemma QuotedHead(s: seq<Byte>, p: nat, head: seq<Byte>, qs: seq<Byte>, qt: seq<Byte>, rest: seq<Byte>)
    requires p <= |s| && 1 <= |head| <= 2 && s[p..] == qs + ['"'] + rest && qs == head + qt
    ensures p + |head| <= |s| && s[p + |head|..] == qt + ['"'] + rest
    ensures At(s, p) == head[0] && (|head| == 2 ==> At(s, p + 1) == head[1])
  {
    assert s[p..] == head + (qt + ['"'] + rest);
    assert s[p + |head|..] == s[p..][|head|..];
    assert s[p] == s[p..][0];
    if |head| == 2 {
      assert s[p + 1] == s[p..][1];
    }
  }

  /** What the engine hands on after decoding in place: the buffer, read as
      a C string, is the decoded text up to its first NUL (a `\u+0`
      escape writes one), all of it when the text has none; and the line
      past the closing quote, where reading goes on, is unchanged. */
  lemma {:induction false} InPlaceReadsBack(s: seq<Byte>, i: nat)
    requires ParseStringAsWritten(s, i).Ok?
    ensures var r, t := ParseStringAsWritten(s, i), InPlace(s, i);
      CString(t) == CString(r.value) && t[r.next..] == s[r.next..] &&
      ('\0' !in r.value ==> CString(t) == r.value)
  {
    var r := ParseStringAsWritten(s, i);
    var b := Scan(s, i + 1, false);
    assert b.text == r.value && b.next == Some(r.next);
    var t := InPlace(s, i);
    assert t == r.value + ['\0'] + s[|r.value| + 1..];
    CStringCut(r.value, s[|r.value| + 1..]);
    assert t[r.next..] == s[r.next..] by {
      assert |r.value| + 1 <= r.next;
      assert t[r.next..] == s[|r.value| + 1..][r.next - |r.value| - 1..];
    }
    if '\0' !in r.value {
      CStringWhole(r.value);
    }
  }

  /** A NUL ends the C string. */
  lemma {:induction false} CStringCut(a: seq<Byte>, b: seq<Byte>)
    ensures CString(a + ['\0'] + b) == CString(a)
    decreases |a|
  {
    assert (a + ['\0'] + b)[0] == if a == [] then '\0' else a[0];
    if a != [] && a[0] != '\0' {
      assert (a + ['\0'] + b)[1..] == a[1..] + ['\0'] + b;
      CStringCut(a[1..], b);
    }
  }

  /** Without a NUL, the C string is all of the text. */
  lemma {:induction false} CStringWhole(a: seq<Byte>)
    requires '\0' !in a
    ensures CString(a) == a
  {
  }

  /** The digit cap matters only for a run of seven digits or more: on a
      shorter run the loop as written reads the same digits. */
  lemma {:induction false} CapAgrees(s: seq<Byte>, q: nat)
    requires q <= |s| && DigitsEnd(s, q, 7) < q + 7
    ensures CodePointAt(s, q, true) == CodePointAt(s, q, false)
  {
    DigitsStop(s, q, 7, 6);
    DigitsStop(s, q, 7, |s|);
  }

  /** A run that ends before the room runs out ends there for any room
      at least as long as the run. */
  lemma {:induction false} DigitsStop(s: seq<Byte>, q: nat, a: nat, b: nat)
    requires DigitsEnd(s, q, a) < q + a && DigitsEnd(s, q, a) <= q + b
    ensures DigitsEnd(s, q, b) == DigitsEnd(s, q, a)
    decreases a
  {
    if IsHexDigit(At(s, q)) {
      DigitsStop(s, q + 1, a - 1, b - 1);
    }
  }

  /** `"\U+0000041"`: the digit loop as written reads all seven digits and
      decodes `A`; capped at six, the digits name U+0004 and the `1` is a
      byte of its own. */
  lemma SevenDigits(s: seq<Byte>)
    requires s == ['"', '\\', 'U', '+', '0', '0', '0', '0', '0', '4', '1', '"']
    ensures ParseStringAsWritten(s, 0) == Ok(['A'], 12)
    ensures ParseStringSpec(s, 0) == Ok([4 as char, '1'], 12)
  {
    assert s[4..10] == ['0', '0', '0', '0', '0', '4'] && s[4..11] == s[4..10] + ['1'];
    SevenDigitValues(s[4..10], s[4..11]);
    SevenDigitsCapped(s);
    SevenDigitsUncapped(s);
  }

  lemma SevenDigitsCapped(s: seq<Byte>)
    requires s == ['"', '\\', 'U', '+', '0', '0', '0', '0', '0', '4', '1', '"']
    requires HexValue(s[4..10]) == 4
    ensures ParseStringSpec(s, 0) == Ok([4 as char, '1'], 12)
  {
    SixDigitEscape(s);
    assert ElementAt(s, 10, true) == Ok(['1'], 11);
    ScanCons(s, 10, true, ['1'], 11, [], Some(12), ['1']);
    ScanCons(s, 1, true, [4 as char], 10, ['1'], Some(12), [4 as char, '1']);
  }

  lemma SixDigitEscape(s: seq<Byte>)
    requires s == ['"', '\\', 'U', '+', '0', '0', '0', '0', '0', '4', '1', '"']
    requires HexValue(s[4..10]) == 4
    ensures ElementAt(s, 1, true) == Ok([4 as char], 10)
  {
    assert forall k :: 4 <= k < 10 ==> IsHexDigit(s[k]);
    DigitsRun(s, 4, 10, 6);
    assert s[1] == '\\' && s[2] == 'U' && s[3] == '+';
    EscapeElement(s, 1, true);
    CodePointOf(s, 4, true, 6, 10, 4);
  }

  lemma SevenDigitsUncapped(s: seq<Byte>)
    requires s == ['"', '\\', 'U', '+', '0', '0', '0', '0', '0', '4', '1', '"']
    requires HexValue(s[4..11]) == 0x41
    ensures ParseStringAsWritten(s, 0) == Ok(['A'], 12)
  {
    DigitsRun(s, 4, 11, |s|);
    EscapeElement(s, 1, false);
    CodePointOf(s, 4, false, |s|, 11, 0x41);
    assert EncodeUtf8(0x41) == ['A'];
    ScanCons(s, 1, false, ['A'], 11, [], Some(12), ['A']);
  }

  lemma SevenDigitValues(six: seq<Byte>, seven: seq<Byte>)
    requires six == ['0', '0', '0', '0', '0', '4'] && seven == six + ['1']
    ensures HexValue(six) == 4 && HexValue(seven) == 0x41
  {
    var zeros: seq<Byte> := [];
    for k := 0 to 5
      invariant |zeros| == k && forall j :: 0 <= j < k ==> zeros[j] == '0'
      invariant HexValue(zeros) == 0
    {
      HexAppend(zeros, '0');
      zeros := zeros + ['0'];
    }
    HexAppend(zeros, '4');
    assert zeros + ['4'] == six;
    HexAppend(six, '1');
  }

  lemma HexAppend(ds: seq<Byte>, c: Byte)
    requires IsHexDigit(c) && forall k :: 0 <= k < |ds| ==> IsHexDigit(ds[k])
    ensures HexValue(ds + [c]) == HexValue(ds) * 16 + Xdigit(c)
  {
    assert (ds + [c])[..|ds|] == ds;
  }

  /** `DigitsEnd` is where the run of digits stops, or where the room runs
      out. */
  lemma {:induction false} DigitsRun(s: seq<Byte>, q: nat, e: nat, room: nat)
    requires q <= e <= |s| && e - q <= room && forall k :: q <= k < e ==> IsHexDigit(s[k])
    requires e - q < room ==> !IsHexDigit(At(s, e))
    ensures DigitsEnd(s, q, room) == e
    decreases e - q
  {
    if q < e {
      DigitsRun(s, q + 1, e, room - 1);
    }
  }

  /** A backslash, `u` or `U`, and `+` make a code-point escape. */
  lemma EscapeElement(s: seq<Byte>, p: nat, capped: bool)
    requires p + 3 <= |s| && s[p] == '\\' && (s[p + 1] == 'u' || s[p + 1] == 'U') && s[p + 2] == '+'
    ensures At(s, p) != '"' && ElementAt(s, p, capped) == CodePointAt(s, p + 3, capped)
  {
  }

  /** The escape's digits end at `e` and spell `v`: the element is the
      code point's bytes, or fails for an invalid code point. */
  lemma CodePointOf(s: seq<Byte>, q: nat, capped: bool, room: nat, e: nat, v: nat)
    requires q <= |s| && room == (if capped then 6 else |s|) && DigitsEnd(s, q, room) == e
    requires HexValue(s[q..e]) == v < U32_LIMIT
    ensures CodePointAt(s, q, capped) == if IsValidCp(v) then Ok(EncodeUtf8(v), e) else Fail
  {
    assert v % U32_LIMIT == v;
  }

  /** A string of one element: the element's bytes if the closing quote
      follows it, and a failure if the element fails. */
  lemma OneElementString(s: seq<Byte>, i: nat, capped: bool, r: Res<seq<Byte>>)
    requires i < |s| && s[i] == '"' && At(s, i + 1) != '"' && ElementAt(s, i + 1, capped) == r
    requires r.Ok? ==> At(s, r.next) == '"'
    ensures StringAt(s, i, capped) == if r.Ok? then Ok(r.value, r.next + 1) else Fail
  {
    if r.Ok? {
      assert Scan(s, r.next, capped) == Body([], Some(r.next + 1));
      ScanCons(s, i + 1, capped, r.value, r.next, [], Some(r.next + 1), r.value);
    }
  }

  /** A string holding one `\U+` escape of one to six digits decodes to
      the UTF-8 bytes of the code point they name when it is valid, and
      fails when it is not; with or without the cap on digits. */
  lemma {:induction false} CodePointString(s: seq<Byte>, i: nat, ds: seq<Byte>, rest: seq<Byte>, capped: bool)
    requires 1 <= |ds| <= 6 && forall k :: 0 <= k < |ds| ==> IsHexDigit(ds[k])
    requires i <= |s| && s[i..] == ['"', '\\', 'U', '+'] + ds + ['"'] + rest
    ensures HexValue(ds) < U32_LIMIT
    ensures StringAt(s, i, capped) ==
      if IsValidCp(HexValue(ds)) then Ok(EncodeUtf8(HexValue(ds)), i + |ds| + 5) else Fail
  {
    var q, e := i + 4, i + 4 + |ds|;
    var room := if capped then 6 else |s|;
    EscapeLayout(s, i, ds, rest);
    HexValueSmall(ds);
    DigitsRun(s, q, e, room);
    EscapeElement(s, i + 1, capped);
    var v := HexValue(ds);
    CodePointOf(s, q, capped, room, e, v);
    OneElementString(s, i, capped, CodePointAt(s, q, capped));
  }

  /** Where the pieces of a one-escape string sit in the line. */
  lemma EscapeLayout(s: seq<Byte>, i: nat, ds: seq<Byte>, rest: seq<Byte>)
    requires i <= |s| && s[i..] == ['"', '\\', 'U', '+'] + ds + ['"'] + rest
    ensures i + |ds| + 5 <= |s| && s[i + 4..i + 4 + |ds|] == ds && s[i + 4 + |ds|] == '"'
    ensures s[i] == '"' && s[i + 1] == '\\' && s[i + 2] == 'U' && s[i + 3] == '+'
    ensures forall k :: i + 4 <= k < i + 4 + |ds| ==> s[k] == ds[k - i - 4]
  {
    var t := s[i..];
    assert forall k :: 0 <= k < |t| ==> s[i + k] == t[k];
    assert t[4..4 + |ds|] == ds;
  }

  /** The value of four, five and six hexadecimal digits, place by place. */
  lemma HexFour(ds: seq<Byte>)
    requires |ds| == 4 && forall k :: 0 <= k < 4 ==> IsHexDigit(ds[k])
    ensures HexValue(ds) == ((Xdigit(ds[0]) * 16 + Xdigit(ds[1])) * 16 + Xdigit(ds[2])) * 16 + Xdigit(ds[3])
  {
    assert ds[..0] == [] && ds[..0] + [ds[0]] == ds[..1];
    HexAppend(ds[..0], ds[0]);
    assert ds[..1] + [ds[1]] == ds[..2];
    HexAppend(ds[..1], ds[1]);
    assert ds[..2] + [ds[2]] == ds[..3];
    HexAppend(ds[..2], ds[2]);
    assert ds[..3] + [ds[3]] == ds;
    HexAppend(ds[..3], ds[3]);
  }

  lemma HexFive(ds: seq<Byte>)
    requires |ds| == 5 && forall k :: 0 <= k < 5 ==> IsHexDigit(ds[k])
    ensures HexValue(ds) == (((Xdigit(ds[0]) * 16 + Xdigit(ds[1])) * 16 + Xdigit(ds[2])) * 16 + Xdigit(ds[3])) * 16 + Xdigit(ds[4])
  {
    HexFour(ds[..4]);
    HexMore(ds);
  }

  lemma HexSix(ds: seq<Byte>)
    requires |ds| == 6 && forall k :: 0 <= k < 6 ==> IsHexDigit(ds[k])
    ensures HexValue(ds) == ((((Xdigit(ds[0]) * 16 + Xdigit(ds[1])) * 16 + Xdigit(ds[2])) * 16 + Xdigit(ds[3])) * 16 + Xdigit(ds[4])) * 16 + Xdigit(ds[5])
  {
    HexFive(ds[..5]);
    HexMore(ds);
  }

  lemma HexMore(ds: seq<Byte>)
    requires 1 <= |ds| && forall k :: 0 <= k < |ds| ==> IsHexDigit(ds[k])
    ensures HexValue(ds) == HexValue(ds[..|ds| - 1]) * 16 + Xdigit(ds[|ds| - 1])
  {
    assert ds[..|ds| - 1] + [ds[|ds| - 1]] == ds;
    HexAppend(ds[..|ds| - 1], ds[|ds| - 1]);
  }

  /** One more digit of a run: the value grows by a hexadecimal place. */
  lemma HexStep(s: seq<Byte>, q: nat, k: nat)
    requires q <= k < |s| && forall j :: q <= j <= k ==> IsHexDigit(s[j])
    ensures HexValue(s[q..k + 1]) == HexValue(s[q..k]) * 16 + Xdigit(s[k])
  {
    assert s[q..k + 1][..k - q] == s[q..k];
  }

  // ---------------------------------------------------------------------
  // The decoder's test vectors

  /** A vector that decodes: the text between the quotes is the quoted
      form `q` of the expected text `t`. */
  lemma QuotedVector(s: seq<Byte>, q: seq<Byte>, t: seq<Byte>)
    requires '\0' !in t && Quote(t) == q && s == ['"'] + q + ['"']
    ensures ParseStringSpec(s, 0) == Ok(t, |s|)
    ensures ParseStringAsWritten(s, 0) == Ok(t, |s|)
  {
    assert s[0..] == ['"'] + Quote(t) + ['"'] + [];
    QuoteRoundTrip(s, 0, t, []);
  }

  /** Vectors that decode: the empty string and plain text. */
  lemma DecodedPlain(a: seq<Byte>, b: seq<Byte>)
    requires a == "\"\"" && b == "\"foo\""
    ensures ParseStringSpec(a, 0) == Ok([], 2)
    ensures ParseStringAsWritten(a, 0) == Ok([], 2)
    ensures ParseStringSpec(b, 0) == Ok("foo", 5)
    ensures ParseStringAsWritten(b, 0) == Ok("foo", 5)
  {
    QuotedVector(a, [], []);
    QuotedVector(b, "foo", "foo");
  }

  /** Vectors that decode: the escaped backslash and quote. */
  lemma DecodedEscapes(c: seq<Byte>, d: seq<Byte>)
    requires c == "\"\\\\\"" && d == "\"\\\"\""
    ensures ParseStringSpec(c, 0) == Ok("\\", 4)
    ensures ParseStringAsWritten(c, 0) == Ok("\\", 4)
    ensures ParseStringSpec(d, 0) == Ok("\"", 4)
    ensures ParseStringAsWritten(d, 0) == Ok("\"", 4)
  {
    QuotedVector(c, "\\\\", "\\");
    QuotedVector(d, "\\\"", "\"");
  }

  /** Vectors that fail: no opening quote, no closing quote, and an
      unknown escape. */
  lemma RefusedVectors(a: seq<Byte>, b: seq<Byte>, c: seq<Byte>)
    requires a == "" && b == "\"" && c == "\"\\a\""
    ensures ParseStringSpec(a, 0) == Fail && ParseStringSpec(b, 0) == Fail && ParseStringSpec(c, 0) == Fail
    ensures ParseStringAsWritten(a, 0) == Fail && ParseStringAsWritten(b, 0) == Fail && ParseStringAsWritten(c, 0) == Fail
  {
    OneElementString(b, 0, true, Fail);
    OneElementString(c, 0, true, Fail);
    OneElementString(b, 0, false, Fail);
    OneElementString(c, 0, false, Fail);
  }

  /** A string holding nothing but the code-point escape `\U+` with the
      digits `ds`. */
  function EscapeText(ds: seq<Byte>): (s: seq<Byte>)
    ensures |s| == |ds| + 5
  {
    ['"', '\\', 'U', '+'] + ds + ['"']
  }

  /** A vector holding one code-point escape with the digits `ds`. */
  lemma EscapeVector(s: seq<Byte>, ds: seq<Byte>, v: nat)
    requires 1 <= |ds| <= 6 && forall k :: 0 <= k < |ds| ==> IsHexDigit(ds[k])
    requires s == EscapeText(ds) && v == HexValue(ds) && IsValidCp(v)
    ensures ParseStringSpec(s, 0) == Ok(EncodeUtf8(v), |s|)
    ensures ParseStringAsWritten(s, 0) == Ok(EncodeUtf8(v), |s|)
  {
    assert s[0..] == ['"', '\\', 'U', '+'] + ds + ['"'] + [];
    CodePointString(s, 0, ds, [], true);
    CodePointString(s, 0, ds, [], false);
  }

  /** The same, for digits naming an invalid code point. */
  lemma EscapeVectorRefused(s: seq<Byte>, ds: seq<Byte>, v: nat)
    requires 1 <= |ds| <= 6 && forall k :: 0 <= k < |ds| ==> IsHexDigit(ds[k])
    requires s == EscapeText(ds) && v == HexValue(ds) && !IsValidCp(v)
    ensures ParseStringSpec(s, 0) == Fail
    ensures ParseStringAsWritten(s, 0) == Fail
  {
    assert s[0..] == ['"', '\\', 'U', '+'] + ds + ['"'] + [];
    CodePointString(s, 0, ds, [], true);
    CodePointString(s, 0, ds, [], false);
  }

  /** Code-point escapes: U+0041 is `A`, U+00A5 the two bytes C2 A5. */
  lemma CodePointVectors(a: seq<Byte>, b: seq<Byte>)
    requires a == EscapeText("0041") && b == EscapeText("00A5")
    ensures ParseStringSpec(a, 0) == Ok("A", 9)
    ensures ParseStringAsWritten(a, 0) == Ok("A", 9)
    ensures ParseStringSpec(b, 0) == Ok([0xC2 as char, 0xA5 as char], 9)
    ensures ParseStringAsWritten(b, 0) == Ok([0xC2 as char, 0xA5 as char], 9)
  {
    HexFour("0041");
    HexFour("00A5");
    EncodeSamples(0x41, 0xA5);
    EscapeVector(a, "0041", 0x41);
    EscapeVector(b, "00A5", 0xA5);
  }

  lemma EncodeSamples(x: nat, y: nat)
    requires x == 0x41 && y == 0xA5
    ensures EncodeUtf8(x) == "A" && EncodeUtf8(y) == [0xC2 as char, 0xA5 as char]
  {
    assert y / 0x40 % 0x20 == 2 && y % 0x40 == 0x25;
  }

  /** Code-point escapes naming noncharacters, the last two code points of
      planes 0, 1 and 16, and one past U+10FFFF: all refused. */
  lemma RefusedPlaneZero(a: seq<Byte>, b: seq<Byte>)
    requires a == EscapeText("FFFF") && b == EscapeText("FFFE")
    ensures ParseStringSpec(a, 0) == Fail && ParseStringSpec(b, 0) == Fail
    ensures ParseStringAsWritten(a, 0) == Fail && ParseStringAsWritten(b, 0) == Fail
  {
    HexFour("FFFF");
    HexFour("FFFE");
    RefusedValues();
    EscapeVectorRefused(a, "FFFF", 0xFFFF);
    EscapeVectorRefused(b, "FFFE", 0xFFFE);
  }

  lemma RefusedPlaneOne(a: seq<Byte>, b: seq<Byte>)
    requires a == EscapeText("1FFFF") && b == EscapeText("1FFFE")
    ensures ParseStringSpec(a, 0) == Fail && ParseStringSpec(b, 0) == Fail
    ensures ParseStringAsWritten(a, 0) == Fail && ParseStringAsWritten(b, 0) == Fail
  {
    RefusedFive(a, "1FFFF");
    RefusedFive(b, "1FFFE");
  }

  lemma RefusedFive(s: seq<Byte>, ds: seq<Byte>)
    requires (ds == "1FFFF" || ds == "1FFFE") && s == EscapeText(ds)
    ensures ParseStringSpec(s, 0) == Fail && ParseStringAsWritten(s, 0) == Fail
  {
    HexFive(ds);
    if ds == "1FFFF" {
      assert HexValue(ds) == 0x1FFFF;
    } else {
      assert HexValue(ds) == 0x1FFFE;
    }
    RefusedValues();
    EscapeVectorRefused(s, ds, HexValue(ds));
  }

  lemma RefusedPlaneSixteen(a: seq<Byte>, b: seq<Byte>, c: seq<Byte>)
    requires a == EscapeText("10FFFE") && b == EscapeText("10FFFF") && c == EscapeText("110000")
    ensures ParseStringSpec(a, 0) == Fail && ParseStringSpec(b, 0) == Fail && ParseStringSpec(c, 0) == Fail
    ensures ParseStringAsWritten(a, 0) == Fail && ParseStringAsWritten(b, 0) == Fail && ParseStringAsWritten(c, 0) == Fail
  {
    RefusedSix(a, "10FFFE");
    RefusedSix(b, "10FFFF");
    RefusedSix(c, "110000");
  }

  lemma RefusedSix(s: seq<Byte>, ds: seq<Byte>)
    requires (ds == "10FFFE" || ds == "10FFFF" || ds == "110000") && s == EscapeText(ds)
    ensures ParseStringSpec(s, 0) == Fail && ParseStringAsWritten(s, 0) == Fail
  {
    HexSix(ds);
    if ds == "10FFFE" {
      assert HexValue(ds) == 0x10FFFE;
    } else if ds == "10FFFF" {
      assert HexValue(ds) == 0x10FFFF;
    } else {
      assert HexValue(ds) == 0x110000;
    }
    RefusedValues();
    EscapeVectorRefused(s, ds, HexValue(ds));
  }

  lemma RefusedValues()
    ensures !IsValidCp(0xFFFF) && !IsValidCp(0xFFFE) && !IsValidCp(0x1FFFF) && !IsValidCp(0x1FFFE)
    ensures !IsValidCp(0x10FFFE) && !IsValidCp(0x10FFFF) && !IsValidCp(0x110000)
  {
  }
}
