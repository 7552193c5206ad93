/** `gcfg_dec_num`: an unsigned decimal integer without leading zeros,
    bounded by a ceiling the caller chooses. */
module DecNum {
  import opened Base

  predicate AllDigits(d: seq<Byte>)
  {
    forall k :: 0 <= k < |d| ==> IsDigit(d[k])
  }

  /** The value of a run of decimal digits, most significant first. */
  function DecValue(d: seq<Byte>): nat
    requires AllDigits(d)
  {
    if d == [] then 0 else DecValue(d[..|d| - 1]) * 10 + DigitVal(d[|d| - 1])
  }

  /** The digits from `p` on, accumulated onto `acc`, failing at the first
      digit that takes the accumulator past `max`. */
  function DecAccum(s: seq<Byte>, p: nat, acc: nat, max: nat): Res<nat>
    decreases |s| - p
  {
    if !IsDigit(At(s, p)) then Ok(acc, p)
    else if acc * 10 + DigitVal(s[p]) > max then Fail
    else DecAccum(s, p + 1, acc * 10 + DigitVal(s[p]), max)
  }

  /** `gcfg_dec_num` step by step: a digit must come first, a `0` may not
      be followed by another digit, and the digits are accumulated while
      they stay within `max`. */
  function DecNumSpec(s: seq<Byte>, i: nat, max: nat): Res<nat>
  {
    if !IsDigit(At(s, i)) then Fail
    else if At(s, i) == '0' && IsDigit(At(s, i + 1)) then Fail
    else DecAccum(s, i, 0, max)
  }

  /** What `gcfg_dec_num` means, stated independently of the loop: the
      maximal digit run at `i`, not starting with a `0` followed by a further
      digit, read as a decimal number that may not exceed `max`. */
  function RunValue(s: seq<Byte>, i: nat, max: nat): Res<nat>
  {
    if !IsDigit(At(s, i)) then Fail
    else if At(s, i) == '0' && IsDigit(At(s, i + 1)) then Fail
    else
      var j := DigitRunEnd(s, i);
      var v := DecValue(s[i..j]);
      if v > max then Fail else Ok(v, j)
  }

  /** The canonical decimal spelling of `n`: no leading zero. */
  function Decimal(n: nat): (d: seq<Byte>)
    ensures |d| >= 1
  {
    if n < 10 then [DigitChar(n)] else Decimal(n / 10) + [DigitChar(n % 10)]
  }

  /** The overflow guard of the C loop, with unbounded integers. */
  predicate Overflows(out: nat, x: nat, max: nat)
  {
    out > max / 10 || out * 10 > max - x
  }

  /** The guard detects exactly the digit that would take the accumulator
      past `max`, so the accumulator itself never exceeds `max`. */
  lemma {:induction false} GuardExact(out: nat, x: nat, max: nat)
    requires out <= max && x < 10
    ensures Overflows(out, x, max) <==> out * 10 + x > max
  {
    var q, m := max / 10, max % 10;
    assert max == q * 10 + m;
    if out > q {
      assert out >= q + 1;
      assert out * 10 >= q * 10 + 10 > max;
    } else {
      assert out * 10 <= q * 10;
    }
  }

  /** `gcfg_dec_num` with its overflow guard corrected: accumulate digit
      by digit, failing at the first digit that would pass `max`. The loop
      is the source's; the guard is the exact `out * 10 + x > max`, which
      agrees with the source's `out > max / 10 || out * 10 > max - x` for
      every ceiling of 9 or more (`DecNumAsWrittenAgrees`) but not below
      it (`DecNumAsWritten` is the source's form). */
  method DecNumber(s: seq<Byte>, i: nat, max: nat) returns (r: Res<nat>)
    requires max <= U64_MAX
    ensures r == DecNumSpec(s, i, max)
  {
    if !IsDigit(At(s, i)) {
      return Fail;
    }
    if At(s, i) == '0' && IsDigit(At(s, i + 1)) {
      return Fail;
    }
    var out: nat := 0;
    var p := i;
    while IsDigit(At(s, p))
      invariant out <= max
      invariant DecAccum(s, p, out, max) == DecNumSpec(s, i, max)
      decreases |s| - p
    {
      var x := DigitVal(s[p]);
      p := p + 1;
      GuardExact(out, x, max);
      if Overflows(out, x, max) {
        return Fail;
      }
      out := out * 10 + x;
    }
    return Ok(out, p);
  }

  lemma {:induction false} DecValueExtend(s: seq<Byte>, i: nat, p: nat)
    requires i <= p < |s| && AllDigits(s[i..p]) && IsDigit(s[p])
    ensures AllDigits(s[i..p + 1])
    ensures DecValue(s[i..p + 1]) == DecValue(s[i..p]) * 10 + DigitVal(s[p])
  {
    assert s[i..p + 1][..p - i] == s[i..p];
  }

  /** The accumulation from `p` on, with the digits `i..p` already read,
      ends with the value of the whole run, or fails exactly when that value
      exceeds `max`. */
  lemma {:induction false} AccumIsRunValue(s: seq<Byte>, i: nat, p: nat, max: nat)
    requires i <= p <= DigitRunEnd(s, i) && p <= |s|
    requires AllDigits(s[i..p]) && DecValue(s[i..p]) <= max
    ensures var j := DigitRunEnd(s, i);
      AllDigits(s[i..j]) &&
      DecAccum(s, p, DecValue(s[i..p]), max)
        == if DecValue(s[i..j]) > max then Fail else Ok(DecValue(s[i..j]), j)
    decreases |s| - p
  {
    var j := DigitRunEnd(s, i);
    if p == j {
    } else {
      DecValueExtend(s, i, p);
      if DecValue(s[i..p + 1]) > max {
        assert AllDigits(s[i..j]);
        PrefixBounded(s[i..j], p + 1 - i);
        assert s[i..j][..p + 1 - i] == s[i..p + 1];
      } else {
        AccumIsRunValue(s, i, p + 1, max);
      }
    }
  }

  /** The loop and the independent reading agree on every input. */
  lemma {:induction false} DecNumIsRunValue(s: seq<Byte>, i: nat, max: nat)
    ensures DecNumSpec(s, i, max) == RunValue(s, i, max)
  {
    if IsDigit(At(s, i)) && !(At(s, i) == '0' && IsDigit(At(s, i + 1))) {
      assert s[i..i] == [];
      AccumIsRunValue(s, i, i, max);
    }
  }

  /** A prefix of a digit run is worth no more than the whole run. */
  lemma {:induction false} PrefixBounded(d: seq<Byte>, k: nat)
    requires AllDigits(d) && k <= |d|
    ensures DecValue(d[..k]) <= DecValue(d)
    decreases |d|
  {
    if k < |d| {
      var d' := d[..|d| - 1];
      assert d'[..k] == d[..k];
      PrefixBounded(d', k);
    } else {
      assert d[..k] == d;
    }
  }

  /** A digit run that does not start with `0` has a positive value. */
  lemma {:induction false} LeadingNonZeroPositive(d: seq<Byte>)
    requires AllDigits(d) && |d| >= 1 && d[0] != '0'
    ensures DecValue(d) >= 1
    decreases |d|
  {
    if |d| > 1 {
      LeadingNonZeroPositive(d[..|d| - 1]);
    }
  }

  lemma {:induction false} DecimalDigits(n: nat)
    ensures AllDigits(Decimal(n))
    ensures DecValue(Decimal(n)) == n
    ensures |Decimal(n)| > 1 ==> Decimal(n)[0] != '0'
    decreases n
  {
    if n >= 10 {
      DecimalDigits(n / 10);
      var d := Decimal(n);
      assert d[..|d| - 1] == Decimal(n / 10);
    }
  }

  /** A decimal spelling starts with a digit. */
  lemma {:induction false} DecimalStartsWithDigit(n: nat)
    ensures IsDigit(Decimal(n)[0])
    decreases n
  {
    if n >= 10 {
      DecimalStartsWithDigit(n / 10);
    }
  }

  /** Canonical runs and their values are in one-to-one correspondence:
      a digit run without a leading zero is the decimal spelling of its
      value. */
  lemma {:induction false} CanonicalIsDecimal(d: seq<Byte>)
    requires AllDigits(d) && |d| >= 1
    requires |d| > 1 ==> d[0] != '0'
    ensures Decimal(DecValue(d)) == d
    decreases |d|
  {
    if |d| > 1 {
      var d' := d[..|d| - 1];
      LeadingNonZeroPositive(d');
      CanonicalIsDecimal(d');
      var v := DecValue(d);
      assert v / 10 == DecValue(d') && v % 10 == DigitVal(d[|d| - 1]);
      assert v >= 10;
    }
  }

  /** Round trip: the decimal spelling of `n`, wherever it stands and
      followed by anything that is not a digit, is read back as `n` exactly
      when `n <= max`, and everything in the spelling is consumed. */
  lemma {:induction false} DecNumOfDecimal(pre: seq<Byte>, n: nat, rest: seq<Byte>, max: nat)
    requires !IsDigit(At(rest, 0))
    ensures DecNumSpec(pre + Decimal(n) + rest, |pre|, max)
         == if n <= max then Ok(n, |pre| + |Decimal(n)|) else Fail
  {
    var d := Decimal(n);
    var s := pre + d + rest;
    var i := |pre|;
    DecimalDigits(n);
    assert s[i..i + |d|] == d;
    assert At(s, i + |d|) == At(rest, 0);
    forall k | i <= k < i + |d|
      ensures IsDigit(s[k])
    {
      assert s[k] == d[k - i];
    }
    RunEndAt(s, i, i + |d|);
    if |d| > 1 {
      assert At(s, i) == d[0] != '0';
    } else {
      assert !IsDigit(At(s, i + 1));
    }
    DecNumIsRunValue(s, i, max);
  }

  /** The same round trip, for a spelling written at position `q` and
      followed there by a non-digit. */
  lemma {:induction false} DecNumAtWord(s: seq<Byte>, q: nat, n: nat, max: nat)
    requires WordAt(s, q, Decimal(n)) && !IsDigit(At(s, q + |Decimal(n)|))
    ensures DecNumSpec(s, q, max)
         == if n <= max then Ok(n, q + |Decimal(n)|) else Fail
  {
    var rest := s[q + |Decimal(n)|..];
    WordAtSlice(s, q, Decimal(n));
    assert s[q..] == s[q..q + |Decimal(n)|] + rest;
    assert At(rest, 0) == At(s, q + |Decimal(n)|);
    DecNumAtDecimal(s, q, n, rest, max);
  }

  /** The same round trip, for a spelling found at position `q`. */
  lemma {:induction false} DecNumAtDecimal(s: seq<Byte>, q: nat, n: nat, rest: seq<Byte>, max: nat)
    requires q <= |s| && s[q..] == Decimal(n) + rest && !IsDigit(At(rest, 0))
    ensures DecNumSpec(s, q, max)
         == if n <= max then Ok(n, q + |Decimal(n)|) else Fail
  {
    assert s == s[..q] + Decimal(n) + rest;
    DecNumOfDecimal(s[..q], n, rest, max);
  }

  /** The accumulation loop only looks at the text from `p` on, so it
      reads the same off any suffix that contains `p`. */
  lemma {:induction false} DecAccumShift(s: seq<Byte>, q: nat, p: nat, acc: nat, max: nat)
    requires q <= p && q <= |s|
    ensures DecAccum(s, p, acc, max) == Shifted(DecAccum(s[q..], p - q, acc, max), q)
    decreases |s| - p
  {
    assert At(s, p) == At(s[q..], p - q);
    if IsDigit(At(s, p)) && acc * 10 + DigitVal(s[p]) <= max {
      DecAccumShift(s, q, p + 1, acc * 10 + DigitVal(s[p]), max);
    }
  }

  /** `gcfg_dec_num` reads the same off any suffix that contains its start. */
  lemma {:induction false} DecNumShift(s: seq<Byte>, q: nat, p: nat, max: nat)
    requires q <= p && q <= |s|
    ensures DecNumSpec(s, p, max) == Shifted(DecNumSpec(s[q..], p - q, max), q)
  {
    assert At(s, p) == At(s[q..], p - q) && At(s, p + 1) == At(s[q..], p - q + 1);
    DecAccumShift(s, q, p, 0, max);
  }

  lemma {:induction false} RunEndAt(s: seq<Byte>, i: nat, j: nat)
    requires i <= j <= |s|
    requires forall k :: i <= k < j ==> IsDigit(s[k])
    requires !IsDigit(At(s, j))
    ensures DigitRunEnd(s, i) == j
    decreases j - i
  {
    if i < j {
      RunEndAt(s, i + 1, j);
    }
  }

  /** What is accepted is always a canonical spelling: the consumed run is
      exactly `Decimal` of the value, no greater than `max`, and is followed
      by a non-digit. */
  lemma {:induction false} DecNumAccepts(s: seq<Byte>, i: nat, max: nat)
    requires DecNumSpec(s, i, max).Ok?
    ensures var r := DecNumSpec(s, i, max);
      i < r.next <= |s| && s[i..r.next] == Decimal(r.value) &&
      r.value <= max && !IsDigit(At(s, r.next))
  {
    DecNumIsRunValue(s, i, max);
    var j := DigitRunEnd(s, i);
    if j - i > 1 {
      assert s[i..j][0] == At(s, i) && s[i..j][1] == At(s, i + 1);
    }
    CanonicalIsDecimal(s[i..j]);
  }

  /** An accepted number is at most the ceiling. */
  lemma {:induction false} DecNumAtMost(s: seq<Byte>, i: nat, max: nat)
    requires DecNumSpec(s, i, max).Ok?
    ensures DecNumSpec(s, i, max).value <= max
  {
    DecNumIsRunValue(s, i, max);
  }

  /** Exactly the ceiling is accepted, one more is refused. */
  lemma {:induction false} CeilingIsTight(max: nat)
    ensures DecNumSpec(Decimal(max), 0, max) == Ok(max, |Decimal(max)|)
    ensures DecNumSpec(Decimal(max + 1), 0, max) == Fail
  {
    assert [] + Decimal(max) + [] == Decimal(max);
    assert [] + Decimal(max + 1) + [] == Decimal(max + 1);
    DecNumOfDecimal([], max, [], max);
    DecNumOfDecimal([], max + 1, [], max);
  }

  /** The guard exactly as compiled: `max - x` is computed in 64-bit
      unsigned arithmetic. */
  predicate OverflowsAsWritten(out: nat, x: nat, max: nat)
  {
    out > max / 10 || out * 10 > (max - x) % (U64_MAX + 1)
  }

  /** For every ceiling of at least 9 (all the library itself uses) the
      compiled guard and the exact one agree. */
  lemma {:induction false} AsWrittenAgreesFromNine(out: nat, x: nat, max: nat)
    requires out <= max <= U64_MAX && x < 10 && max >= 9
    ensures OverflowsAsWritten(out, x, max) == Overflows(out, x, max)
  {
  }

  /** The accumulation with the guard exactly as compiled. */
  function DecAccumAsWritten(s: seq<Byte>, p: nat, acc: nat, max: nat): Res<nat>
    decreases |s| - p
  {
    if !IsDigit(At(s, p)) then Ok(acc, p)
    else if OverflowsAsWritten(acc, DigitVal(s[p]), max) then Fail
    else DecAccumAsWritten(s, p + 1, acc * 10 + DigitVal(s[p]), max)
  }

  /** `gcfg_dec_num` with the guard exactly as compiled. */
  function DecNumAsWritten(s: seq<Byte>, i: nat, max: nat): Res<nat>
  {
    if !IsDigit(At(s, i)) then Fail
    else if At(s, i) == '0' && IsDigit(At(s, i + 1)) then Fail
    else DecAccumAsWritten(s, i, 0, max)
  }

  lemma {:induction false} AccumAsWrittenAgrees(s: seq<Byte>, p: nat, acc: nat, max: nat)
    requires acc <= max && 9 <= max <= U64_MAX
    ensures DecAccumAsWritten(s, p, acc, max) == DecAccum(s, p, acc, max)
    decreases |s| - p
  {
    if IsDigit(At(s, p)) {
      var x := DigitVal(s[p]);
      AsWrittenAgreesFromNine(acc, x, max);
      GuardExact(acc, x, max);
      if acc * 10 + x <= max {
        AccumAsWrittenAgrees(s, p + 1, acc * 10 + x, max);
      }
    }
  }

  /** For every ceiling from 9 up to 2^64-1 the compiled decoder is the
      exact one. */
  lemma {:induction false} DecNumAsWrittenAgrees(s: seq<Byte>, i: nat, max: nat)
    requires 9 <= max <= U64_MAX
    ensures DecNumAsWritten(s, i, max) == DecNumSpec(s, i, max)
  {
    AccumAsWrittenAgrees(s, i, 0, max);
  }

  /** Below 9 the subtraction wraps: a first digit larger than `max` is let
      through, so "7" is accepted with ceiling 5, which the exact decoder
      refuses. */
  lemma {:induction false} AsWrittenLetsSevenThrough()
    ensures DecNumAsWritten("7", 0, 5) == Ok(7, 1)
    ensures DecNumSpec("7", 0, 5) == Fail
  {
  }
}
