/** Bytes of text as the library sees them, C-string reading, and the
    failure-compatible result types shared by every decoder. */
module Base {

  /** One byte of configuration text: an 8-bit C `char`. */
  type Byte = c: char | c as int < 0x100

  const U32_LIMIT: nat := 0x1_0000_0000
  const U64_MAX: nat := 0xFFFF_FFFF_FFFF_FFFF
  const INT32_MIN: int := -0x8000_0000
  const INT32_MAX: int := 0x7FFF_FFFF

  /** The bytes of a C string as a table names it: no NUL inside. */
  type CName = s: seq<Byte> | '\0' !in s

  datatype Option<T> = None | Some(value: T)

  /** What a decoder returns: failure (the C `NULL`), or a value together with
      the position just past what was consumed. */
  datatype Res<T> = Fail | Ok(value: T, next: nat)

  /** A result read off a suffix, with its end position moved back into the
      whole text that starts `q` positions earlier. */
  function Shifted<T>(r: Res<T>, q: nat): (r': Res<T>)
    ensures r'.Ok? == r.Ok?
    ensures r.Ok? ==> r'.value == r.value && r'.next == r.next + q
  {
    match r
    case Fail => Fail
    case Ok(v, n) => Ok(v, n + q)
  }

  /** Reads a C string: every position at or past the end reads as the
      terminating NUL. */
  function At(s: seq<Byte>, i: nat): Byte
  {
    if i < |s| then s[i] else '\0'
  }

  predicate IsDigit(c: Byte) { '0' <= c <= '9' }

  predicate IsLower(c: Byte) { 'a' <= c <= 'z' }

  predicate IsUpper(c: Byte) { 'A' <= c <= 'Z' }

  predicate IsAlpha(c: Byte) { IsLower(c) || IsUpper(c) }

  /** Space or horizontal tab, the only blanks the grammar knows. */
  predicate IsBlank(c: Byte) { c == ' ' || c == '\t' }

  function DigitVal(c: Byte): (d: nat)
    requires IsDigit(c)
    ensures d < 10
  {
    c as int - '0' as int
  }

  function DigitChar(d: nat): (c: Byte)
    requires d < 10
    ensures IsDigit(c) && DigitVal(c) == d
  {
    ('0' as int + d) as char
  }

  predicate IsHexDigit(c: Byte)
  {
    IsDigit(c) || 'a' <= c <= 'f' || 'A' <= c <= 'F'
  }

  /** `gcfg_xdigit`: the value of a hexadecimal digit, or -1 for any other
      byte. */
  function Xdigit(c: Byte): (d: int)
    ensures IsHexDigit(c) <==> d >= 0
    ensures -1 <= d < 16
    ensures IsDigit(c) ==> d == DigitVal(c)
  {
    if IsDigit(c) then c as int - '0' as int
    else if 'a' <= c <= 'f' then c as int - 'a' as int + 10
    else if 'A' <= c <= 'F' then c as int - 'A' as int + 10
    else -1
  }

  /** The lower-case hexadecimal digit for a value below 16. */
  function HexChar(d: nat): (c: Byte)
    requires d < 16
    ensures IsHexDigit(c) && Xdigit(c) == d
  {
    if d < 10 then DigitChar(d) else ('a' as int + d - 10) as char
  }

  /** The first position at or after `i` that is not a blank. */
  function SkipBlanks(s: seq<Byte>, i: nat): (j: nat)
    ensures i <= j
    ensures !IsBlank(At(s, j))
    ensures forall k :: i <= k < j ==> k < |s| && IsBlank(s[k])
    ensures j == i || j <= |s|
    decreases |s| - i
  {
    if IsBlank(At(s, i)) then assert IsBlank(s[i]); SkipBlanks(s, i + 1) else i
  }

  /** The blank-skipping loop written out wherever the grammar allows
      blanks (`skip_space`): spaces and tabs are stepped over. */
  method SkipSpace(s: seq<Byte>, i: nat) returns (j: nat)
    ensures j == SkipBlanks(s, i)
  {
    j := i;
    while IsBlank(At(s, j))
      invariant i <= j && (j == i || j <= |s|)
      invariant SkipBlanks(s, j) == SkipBlanks(s, i)
      decreases |s| - j
    {
      j := j + 1;
    }
  }

  /** A run of blanks followed by a non-blank is skipped whole. */
  lemma {:induction false} SkipBlanksOver(s: seq<Byte>, i: nat, pad: seq<Byte>, rest: seq<Byte>)
    requires i <= |s| && s[i..] == pad + rest
    requires forall k :: 0 <= k < |pad| ==> IsBlank(pad[k])
    requires !IsBlank(At(rest, 0))
    ensures SkipBlanks(s, i) == i + |pad|
    decreases |pad|
  {
    if pad == [] {
      assert At(s, i) == At(rest, 0);
    } else {
      assert s[i] == pad[0];
      assert s[i + 1..] == pad[1..] + rest;
      SkipBlanksOver(s, i + 1, pad[1..], rest);
    }
  }

  /** The first position at or after `i` that is not a decimal digit. */
  function DigitRunEnd(s: seq<Byte>, i: nat): (j: nat)
    ensures i <= j
    ensures !IsDigit(At(s, j))
    ensures forall k :: i <= k < j ==> k < |s| && IsDigit(s[k])
    ensures j == i || j <= |s|
    decreases |s| - i
  {
    if IsDigit(At(s, i)) then assert IsDigit(s[i]); DigitRunEnd(s, i + 1) else i
  }

  /** What `strlen` sees of a buffer: everything before the first NUL. */
  function CString(s: seq<Byte>): (r: seq<Byte>)
    ensures |r| <= |s| && r == s[..|r|]
    ensures '\0' !in r
    ensures |r| < |s| ==> s[|r|] == '\0'
  {
    if s == [] || s[0] == '\0' then [] else [s[0]] + CString(s[1..])
  }

  /** `strlen`: the number of bytes before the NUL at or after `o`. */
  method StrLen(b: array<Byte>, o: nat) returns (n: nat)
    requires o <= b.Length && '\0' in b[o..]
    ensures n == |CString(b[o..])|
  {
    ghost var x := b[o..];
    n := 0;
    while b[o + n] != '\0'
      invariant o + n < b.Length && '\0' !in x[..n] && '\0' in x[n..]
      decreases b.Length - o - n
    {
      assert x[..n + 1] == x[..n] + [x[n]];
      n := n + 1;
    }
    FirstNul(x, n);
  }

  /** What `CString` reads ends at the first NUL. */
  lemma FirstNul(x: seq<Byte>, n: nat)
    requires n < |x| && x[n] == '\0' && '\0' !in x[..n]
    ensures |CString(x)| == n
  {
  }

  /** The text at `i` starts with `w` (for a word without NUL, what
      `strncmp(w, s + i, strlen(w)) == 0` tests), character by character. */
  predicate WordAt(s: seq<Byte>, i: nat, w: seq<Byte>)
    decreases |w|
  {
    i + |w| <= |s| && (|w| == 0 || (s[i] == w[0] && WordAt(s, i + 1, w[1..])))
  }

  /** The same, as a slice of the text. */
  lemma {:induction false} WordAtSlice(s: seq<Byte>, i: nat, w: seq<Byte>)
    ensures WordAt(s, i, w) <==> i + |w| <= |s| && s[i..i + |w|] == w
    decreases |w|
  {
    if |w| > 0 && i + |w| <= |s| {
      WordAtSlice(s, i + 1, w[1..]);
      assert s[i..i + |w|] == [s[i]] + s[i + 1..i + |w|];
      assert w == [w[0]] + w[1..];
    }
  }

  /** Each character of a word stands at its place in the text. */
  lemma {:induction false} WordAtChar(s: seq<Byte>, i: nat, w: seq<Byte>, k: nat)
    requires WordAt(s, i, w) && k < |w|
    ensures At(s, i + k) == w[k]
    decreases k
  {
    if k > 0 {
      WordAtChar(s, i + 1, w[1..], k - 1);
    }
  }

  /** Text made of two pieces holds each piece at its place. */
  lemma {:induction false} WordAtSplit(s: seq<Byte>, i: nat, a: seq<Byte>, b: seq<Byte>)
    requires WordAt(s, i, a + b)
    ensures WordAt(s, i, a) && WordAt(s, i + |a|, b)
    decreases |a|
  {
    if a == [] {
      assert a + b == b;
    } else {
      assert (a + b)[0] == a[0] && (a + b)[1..] == a[1..] + b;
      WordAtSplit(s, i + 1, a[1..], b);
    }
  }

  /** Text starting with four pieces holds each at its place. */
  lemma {:induction false} WordAtSplit4(s: seq<Byte>, a: seq<Byte>, b: seq<Byte>, c: seq<Byte>, d: seq<Byte>)
    requires WordAt(s, 0, a + b + c + d)
    ensures WordAt(s, 0, a) && WordAt(s, |a|, b)
    ensures WordAt(s, |a| + |b|, c) && WordAt(s, |a| + |b| + |c|, d)
  {
    WordAtSplit(s, 0, a + b + c, d);
    WordAtSplit(s, 0, a + b, c);
    WordAtSplit(s, 0, a, b);
  }

  /** A suffix that starts with `x` then `t` splits into the two. */
  lemma {:induction false} SplitSuffix(s: seq<Byte>, q: nat, x: seq<Byte>, t: seq<Byte>)
    requires q <= |s| && s[q..] == x + t
    ensures q + |x| <= |s| && s[q..q + |x|] == x && s[q + |x|..] == t
    ensures At(s, q + |x|) == At(t, 0)
  {
    assert s[q..][..|x|] == x;
  }

  function Pow2(n: nat): (r: nat)
    ensures r >= 1
  {
    if n == 0 then 1 else 2 * Pow2(n - 1)
  }

  function Pow10(n: nat): (r: nat)
    ensures r >= 1
  {
    if n == 0 then 1 else 10 * Pow10(n - 1)
  }

  /** Comparing with a floored quotient is comparing the product: the
      guard `v > m / f` detects exactly the products that exceed `m`. */
  lemma {:induction false} QuotientBound(v: nat, f: nat, m: nat)
    requires f > 0
    ensures v <= m / f <==> v * f <= m
  {
    var q, r := m / f, m % f;
    assert m == q * f + r && r < f;
    if v <= q {
      assert v * f <= q * f by { MulMonotone(v, q, f); }
    } else {
      assert v * f >= (q + 1) * f by { MulMonotone(q + 1, v, f); }
    }
  }

  lemma {:induction false} MulMonotone(a: nat, b: nat, f: nat)
    requires a <= b
    ensures a * f <= b * f
  {
  }
}
