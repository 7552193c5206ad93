/** `gcfg_parse_number`: an exact decimal number, read as an unsigned
    64-bit magnitude, a sign and a 32-bit power-of-ten exponent. */
module Number {
  import opened Base
  import opened Values
  import opened DecNum

  /** The ceiling of the fraction loop, `0xFFFFFFFFFFFFFFFF / 10`: a
      magnitude at or above it may not take another fraction digit. */
  const FRACTION_CEILING: nat := U64_MAX / 10

  /** What the decoder reads (`gcfg_number_t`): the sign flag, the
      magnitude, the exponent and the percentage flag. The number meant is
      `(-1)^negative * magnitude * 10^exponent`. */
  datatype Reading = Reading(negative: bool, magnitude: nat, exponent: int, percent: bool)

  predicate InInt32(e: int)
  {
    INT32_MIN <= e <= INT32_MAX
  }

  /** The fraction loop run over `d` digits: each multiplies the magnitude
      by ten and lowers the exponent by one, failing when the magnitude has
      reached the ceiling or the exponent is already the smallest `int32`. */
  function Shift(value: nat, exponent: int, d: nat): Option<(nat, int)>
    decreases d
  {
    if d == 0 then Some((value, exponent))
    else if value >= FRACTION_CEILING || exponent == INT32_MIN then None
    else Shift(value * 10, exponent - 1, d - 1)
  }

  /** The fraction part at `q`: when a `.` stands there, its digit run is
      first counted by the loop and then read by `gcfg_dec_num` from the
      same place, and the value read is added to the scaled magnitude.
      With `wrap` the addition is the unchecked 64-bit one of the source;
      without it a sum past 2^64-1 is refused. */
  function FractionSpec(s: seq<Byte>, q: nat, v: nat, wrap: bool): Res<(nat, int)>
  {
    if At(s, q) != '.' then Ok((v, 0), q)
    else
      match Shift(v, 0, DigitRunEnd(s, q + 1) - (q + 1))
      case None => Fail
      case Some(scaled) =>
        match DecNumSpec(s, q + 1, U64_MAX)
        case Fail => Fail
        case Ok(t, r) =>
          if wrap then Ok(((scaled.0 + t) % (U64_MAX + 1), scaled.1), r)
          else if scaled.0 + t > U64_MAX then Fail
          else Ok((scaled.0 + t, scaled.1), r)
  }

  /** The suffix at `p`: `e` or `E` with an optional sign and a magnitude of
      at most 2^31-1 moves the exponent, which must stay an `int32`; `%`
      lowers it by two and marks a percentage; anything else is left. The
      result is the new exponent and the percentage flag. */
  function ExponentSpec(s: seq<Byte>, p: nat, e: int): Res<(int, bool)>
  {
    var c := At(s, p);
    if c == 'e' || c == 'E' then
      var minus := At(s, p + 1) == '-';
      var q := if At(s, p + 1) == '-' || At(s, p + 1) == '+' then p + 2 else p + 1;
      match DecNumSpec(s, q, INT32_MAX)
      case Fail => Fail
      case Ok(x, r) =>
        if minus then
          (if e < INT32_MIN + x then Fail else Ok((e - x, false), r))
        else
          (if e > INT32_MAX - x then Fail else Ok((e + x, false), r))
    else if c == '%' then
      (if e < INT32_MIN + 2 then Fail else Ok((e - 2, true), p + 1))
    else Ok((e, false), p)
  }

  /** The whole decoder: sign, integer part, fraction, suffix. */
  function ParseReading(s: seq<Byte>, i: nat, wrap: bool): Res<Reading>
  {
    var negative := At(s, i) == '-';
    var p := if At(s, i) == '+' || At(s, i) == '-' then i + 1 else i;
    match DecNumSpec(s, p, U64_MAX)
    case Fail => Fail
    case Ok(v, q) => Stages(s, q, v, negative, wrap)
  }

  /** The fraction and suffix stages of `ParseReading`, after an integer
      part `v` read up to `r`. */
  function Stages(s: seq<Byte>, r: nat, v: nat, negative: bool, wrap: bool): Res<Reading>
  {
    match FractionSpec(s, r, v, wrap)
    case Fail => Fail
    case Ok(fraction, r') =>
      match ExponentSpec(s, r', fraction.1)
      case Fail => Fail
      case Ok(suffix, n) => Ok(Reading(negative, fraction.0, suffix.0, suffix.1), n)
  }

  /** `gcfg_parse_number` with the fraction sum checked for overflow. */
  function ParseNumberSpec(s: seq<Byte>, i: nat): Res<Reading>
  {
    ParseReading(s, i, false)
  }

  /** `gcfg_parse_number` exactly as written: the fraction sum wraps. */
  function ParseNumberAsWritten(s: seq<Byte>, i: nat): Res<Reading>
  {
    ParseReading(s, i, true)
  }

  /** The signed mantissa stored in the record. */
  function Mantissa(rd: Reading): (m: int)
    ensures rd.negative ==> m == -(rd.magnitude as int)
    ensures !rd.negative ==> m == rd.magnitude
  {
    if rd.negative then -(rd.magnitude as int) else rd.magnitude
  }

  /** A reading stored into number slot `index` of the record: the slot
      holds the signed mantissa and the exponent, the type says NUMBER or
      PERCENTAGE, and the other slots, the flags and the mask are kept. */
  function StoreNumber(v: Value, index: nat, rd: Reading): (w: Value)
    requires index < 4
    ensures w.vtype == (if rd.percent then TypePercentage else TypeNumber)
    ensures NumberSlots(w)[index] == Number(Mantissa(rd), rd.exponent)
    ensures forall k :: 0 <= k < 4 && k != index ==> NumberSlots(w)[k] == NumberSlots(v)[k]
    ensures w.flags == v.flags && w.cidrMask == v.cidrMask
  {
    Value(if rd.percent then TypePercentage else TypeNumber,
          Numbers(NumberSlots(v)[index := Number(Mantissa(rd), rd.exponent)]),
          v.flags, v.cidrMask)
  }

  /** `gcfg_parse_number`, with its fraction sum checked, into slot
      `index` of a record. */
  function ParseNumberInto(s: seq<Byte>, i: nat, v: Value, index: nat): Res<Value>
    requires index < 4
  {
    match ParseNumberSpec(s, i)
    case Fail => Fail
    case Ok(rd, n) => Ok(StoreNumber(v, index, rd), n)
  }

  /** The fraction part of `gcfg_parse_number`, from just past the integer
      part: the loop scaling the magnitude in place once per fraction
      digit, then the digits read by `gcfg_dec_num` and added. With `wrap`
      the sum wraps modulo 2^64, as the source's unchecked `uint64_t` sum
      does; without it the sum is checked. */
  method FractionPart(s: seq<Byte>, q: nat, v: nat, wrap: bool) returns (r: Res<(nat, int)>)
    ensures r == FractionSpec(s, q, v, wrap)
  {
    if At(s, q) != '.' {
      return Ok((v, 0), q);
    }
    var p := q + 1;
    var value := v;
    var exponent: int := 0;
    var j := 0;
    ghost var end := DigitRunEnd(s, p);
    while IsDigit(At(s, p + j))
      invariant p <= p + j <= end && DigitRunEnd(s, p + j) == end
      invariant value >= 0
      invariant Shift(value, exponent, end - (p + j)) == Shift(v, 0, end - p)
      decreases |s| - (p + j)
    {
      if value >= FRACTION_CEILING {
        return Fail;
      }
      if exponent == INT32_MIN {
        return Fail;
      }
      value := value * 10;
      exponent := exponent - 1;
      j := j + 1;
    }
    var t := DecNumber(s, p, U64_MAX);
    if t.Fail? {
      return Fail;
    }
    if wrap {
      return Ok(((value + t.value) % (U64_MAX + 1), exponent), t.next);
    }
    if value + t.value > U64_MAX {
      return Fail;
    }
    return Ok((value + t.value, exponent), t.next);
  }

  /** The closing `switch` of `gcfg_parse_number`: an exponent, a percent
      sign, or nothing. */
  method SuffixPart(s: seq<Byte>, p: nat, e: int) returns (r: Res<(int, bool)>)
    ensures r == ExponentSpec(s, p, e)
  {
    var c := At(s, p);
    if c == 'e' || c == 'E' {
      var minus := At(s, p + 1) == '-';
      var q := p + 1;
      if At(s, p + 1) == '-' || At(s, p + 1) == '+' {
        q := p + 2;
      }
      var magnitude := DecNumber(s, q, INT32_MAX);
      if magnitude.Fail? {
        return Fail;
      }
      var x := magnitude.value;
      if minus {
        if e < INT32_MIN + x {
          return Fail;
        }
        return Ok((e - x, false), magnitude.next);
      }
      if e > INT32_MAX - x {
        return Fail;
      }
      return Ok((e + x, false), magnitude.next);
    } else if c == '%' {
      if e < INT32_MIN + 2 {
        return Fail;
      }
      return Ok((e - 2, true), p + 1);
    }
    return Ok((e, false), p);
  }

  /** `gcfg_parse_number`: the sign, the integer part by `gcfg_dec_num`,
      the fraction, then the suffix. With `wrap` it is the source as
      written, whose fraction sum wraps; without it the sum is checked, and
      "184467440737095516.99", which the source reads as 83e-2, is
      refused. */
  method ParseNumber(s: seq<Byte>, i: nat, wrap: bool) returns (r: Res<Reading>)
    ensures wrap ==> r == ParseNumberAsWritten(s, i)
    ensures !wrap ==> r == ParseNumberSpec(s, i)
  {
    var negative := At(s, i) == '-';
    var p := i;
    if At(s, p) == '+' || At(s, p) == '-' {
      p := p + 1;
    }
    var integer := DecNumber(s, p, U64_MAX);
    if integer.Fail? {
      return Fail;
    }
    var fraction := FractionPart(s, integer.next, integer.value, wrap);
    if fraction.Fail? {
      return Fail;
    }
    var suffix := SuffixPart(s, fraction.next, fraction.value.1);
    if suffix.Fail? {
      return Fail;
    }
    return Ok(Reading(negative, fraction.value.0, suffix.value.0, suffix.value.1), suffix.next);
  }

  /** `v` scaled by `10^d`, one factor of ten at a time. */
  function Scale(v: nat, d: nat): (r: nat)
    ensures r >= v
  {
    if d == 0 then v else 10 * Scale(v, d - 1)
  }

  /** Scaling is multiplying by the power of ten. */
  lemma {:induction false} ScaleIsProduct(v: nat, d: nat)
    ensures Scale(v, d) == v * Pow10(d)
  {
    if d > 0 {
      ScaleIsProduct(v, d - 1);
      calc {
        Scale(v, d);
        10 * (v * Pow10(d - 1));
        { MulAssociates(v, Pow10(d - 1)); }
        v * (10 * Pow10(d - 1));
      }
    }
  }

  lemma {:induction false} MulAssociates(v: nat, p: nat)
    ensures 10 * (v * p) == v * (10 * p)
  {
  }

  /** Scaling by ten first and by `10^(d-1)` then is scaling by `10^d`. */
  lemma {:induction false} ScaleByTen(v: nat, d: nat)
    ensures Scale(10 * v, d) == Scale(v, d + 1)
  {
    if d > 0 {
      ScaleByTen(v, d - 1);
    }
  }

  /** The fraction loop over `d` digits succeeds exactly when the magnitude
      stays below the ceiling before every step but the last, and the
      exponent stays an `int32`; it then scales by `10^d` and lowers the
      exponent by `d`. */
  lemma {:induction false} ShiftMeaning(v: nat, e: int, d: nat)
    requires e >= INT32_MIN
    ensures Shift(v, e, d).Some?
        <==> (d == 0 || (Scale(v, d - 1) < FRACTION_CEILING && e - d >= INT32_MIN))
    ensures Shift(v, e, d).Some? ==> Shift(v, e, d).value == (Scale(v, d), e - d)
    decreases d
  {
    if d > 0 && v < FRACTION_CEILING && e != INT32_MIN {
      ShiftMeaning(v * 10, e - 1, d - 1);
      ScaleByTen(v, d - 1);
      if d >= 2 {
        ScaleByTen(v, d - 2);
      }
    }
  }

  /** How a sign is written. */
  datatype Sign = Unsigned | Plus | Minus

  function SignText(sg: Sign): (t: seq<Byte>)
    ensures |t| <= 1
  {
    match sg
    case Unsigned => []
    case Plus => ['+']
    case Minus => ['-']
  }

  /** The fraction written after the integer part, if any: a `.` and the
      canonical spelling of its digits. */
  function FractionText(frac: Option<nat>): seq<Byte>
  {
    match frac
    case None => []
    case Some(f) => ['.'] + Decimal(f)
  }

  function FractionDigits(frac: Option<nat>): nat
  {
    match frac
    case None => 0
    case Some(f) => |Decimal(f)|
  }

  /** The magnitude the integer part and the fraction digits spell
      together. */
  function Magnitude(n: nat, frac: Option<nat>): nat
  {
    match frac
    case None => n
    case Some(f) => Scale(n, |Decimal(f)|) + f
  }

  /** The fraction fits: each of its digits passes the loop's two guards
      (the magnitude below the ceiling, the exponent above the smallest
      `int32`) and the sum stays within 64 bits. */
  predicate FractionFits(n: nat, frac: Option<nat>)
  {
    frac.None? ||
    (frac.value <= U64_MAX && |Decimal(frac.value)| <= 0x8000_0000
     && Scale(n, |Decimal(frac.value)| - 1) < FRACTION_CEILING
     && Magnitude(n, frac) <= U64_MAX)
  }

  /** What may follow the number: an exponent (`e` or `E`, a sign, the
      canonical spelling of its magnitude), a percent sign, or nothing. */
  datatype Suffix = Plain | Exponent(upper: bool, sign: Sign, x: nat) | Percent

  function SuffixText(sx: Suffix): seq<Byte>
  {
    match sx
    case Plain => []
    case Exponent(upper, sign, x) => [if upper then 'E' else 'e'] + SignText(sign) + Decimal(x)
    case Percent => ['%']
  }

  /** How a suffix moves the exponent. */
  function Adjust(sx: Suffix): int
  {
    match sx
    case Plain => 0
    case Exponent(_, sign, x) => if sign == Minus then -(x as int) else x
    case Percent => -2
  }

  /** A character that continues no part of a number. */
  predicate Stops(c: Byte)
  {
    !IsDigit(c) && c != '.' && c != 'e' && c != 'E' && c != '%'
  }

  function NumberText(sg: Sign, n: nat, frac: Option<nat>, sx: Suffix): seq<Byte>
  {
    SignText(sg) + Decimal(n) + FractionText(frac) + SuffixText(sx)
  }

  /** The fraction stage on a written fraction: it reads the digits and
      adds them to the scaled magnitude, the sum wrapping or being checked. */
  lemma {:induction false} FractionOfText(s: seq<Byte>, q: nat, n: nat, f: nat, wrap: bool)
    requires WordAt(s, q, ['.'] + Decimal(f)) && !IsDigit(At(s, q + 1 + |Decimal(f)|))
    requires f <= U64_MAX && |Decimal(f)| <= 0x8000_0000
    requires Scale(n, |Decimal(f)| - 1) < FRACTION_CEILING
    ensures var d := |Decimal(f)|; var m := Scale(n, d) + f;
      FractionSpec(s, q, n, wrap)
        == if wrap then Ok((m % (U64_MAX + 1), -d), q + 1 + d)
           else if m > U64_MAX then Fail
           else Ok((m, -d), q + 1 + d)
  {
    var d := |Decimal(f)|;
    FractionLead(s, q, f);
    DecNumAtWord(s, q + 1, f, U64_MAX);
    ShiftMeaning(n, 0, d);
    FractionOfParts(s, q, n, d, f, q + 1 + d, wrap);
  }

  /** Where a fraction is written: the `.`, then a run of `d` digits. */
  lemma {:induction false} FractionLead(s: seq<Byte>, q: nat, f: nat)
    requires WordAt(s, q, ['.'] + Decimal(f)) && !IsDigit(At(s, q + 1 + |Decimal(f)|))
    ensures At(s, q) == '.' && WordAt(s, q + 1, Decimal(f))
    ensures DigitRunEnd(s, q + 1) == q + 1 + |Decimal(f)|
  {
    var d := |Decimal(f)|;
    WordAtSplit(s, q, ['.'], Decimal(f));
    WordAtChar(s, q, ['.'], 0);
    DecimalDigits(f);
    forall k | q + 1 <= k < q + 1 + d
      ensures IsDigit(s[k])
    {
      WordAtChar(s, q + 1, Decimal(f), k - q - 1);
    }
    RunEndAt(s, q + 1, q + 1 + d);
  }

  /** The fraction branch once its pieces are known: the loop's outcome
      over the `d` digits and what `gcfg_dec_num` read there. */
  lemma {:induction false} FractionOfParts(s: seq<Byte>, q: nat, n: nat, d: nat, f: nat, r: nat, wrap: bool)
    requires At(s, q) == '.' && DigitRunEnd(s, q + 1) == q + 1 + d
    requires Shift(n, 0, d) == Some((Scale(n, d), -(d as int)))
    requires DecNumSpec(s, q + 1, U64_MAX) == Ok(f, r)
    ensures var m: nat := Scale(n, d) + f;
      FractionSpec(s, q, n, wrap)
        == if wrap then Ok((m % (U64_MAX + 1), -(d as int)), r)
           else if m > U64_MAX then Fail
           else Ok((m, -(d as int)), r)
  {
  }

  /** The suffix stage on a written suffix: the exponent moves by the
      suffix's amount when the result is still an `int32`. */
  lemma {:induction false} ExponentOfText(s: seq<Byte>, p: nat, e: int, sx: Suffix)
    requires WordAt(s, p, SuffixText(sx)) && Stops(At(s, p + |SuffixText(sx)|))
    requires InInt32(e) && (sx.Exponent? ==> sx.x <= INT32_MAX) && InInt32(e + Adjust(sx))
    ensures ExponentSpec(s, p, e) == Ok((e + Adjust(sx), sx.Percent?), p + |SuffixText(sx)|)
  {
    if sx.Plain? {
      PlainSuffix(s, p, e, sx);
    } else if sx.Percent? {
      PercentSuffix(s, p, e, sx);
    } else {
      ExponentSuffix(s, p, e, sx);
    }
  }

  /** No suffix: the exponent is left as it is. */
  lemma {:induction false} PlainSuffix(s: seq<Byte>, p: nat, e: int, sx: Suffix)
    requires sx == Plain && Stops(At(s, p + |SuffixText(sx)|))
    ensures ExponentSpec(s, p, e) == Ok((e + Adjust(sx), sx.Percent?), p + |SuffixText(sx)|)
  {
    assert p + |SuffixText(sx)| == p;
  }

  /** A percent sign lowers the exponent by two. */
  lemma {:induction false} PercentSuffix(s: seq<Byte>, p: nat, e: int, sx: Suffix)
    requires sx == Percent && WordAt(s, p, SuffixText(sx)) && InInt32(e + Adjust(sx))
    ensures ExponentSpec(s, p, e) == Ok((e + Adjust(sx), sx.Percent?), p + |SuffixText(sx)|)
  {
    WordAtChar(s, p, SuffixText(sx), 0);
    PercentAt(s, p, e);
  }

  /** A percent sign lowers the exponent by two, unless that leaves the
      `int32` range. */
  lemma {:induction false} PercentAt(s: seq<Byte>, p: nat, e: int)
    requires At(s, p) == '%'
    ensures ExponentSpec(s, p, e) == if e < INT32_MIN + 2 then Fail else Ok((e - 2, true), p + 1)
  {
  }

  /** An exponent moves the exponent by its signed magnitude. */
  lemma {:induction false} ExponentSuffix(s: seq<Byte>, p: nat, e: int, sx: Suffix)
    requires sx.Exponent? && WordAt(s, p, SuffixText(sx)) && Stops(At(s, p + |SuffixText(sx)|))
    requires InInt32(e) && sx.x <= INT32_MAX && InInt32(e + Adjust(sx))
    ensures ExponentSpec(s, p, e) == Ok((e + Adjust(sx), sx.Percent?), p + |SuffixText(sx)|)
  {
    ExponentPartOfText(s, p, e, sx.upper, sx.sign, sx.x);
  }

  /** A written exponent moves the exponent by its signed magnitude. */
  lemma {:induction false} ExponentPartOfText(s: seq<Byte>, p: nat, e: int, upper: bool, sign: Sign, x: nat)
    requires WordAt(s, p, SuffixText(Exponent(upper, sign, x)))
    requires !IsDigit(At(s, p + |SuffixText(Exponent(upper, sign, x))|))
    requires InInt32(e) && x <= INT32_MAX && InInt32(if sign == Minus then e - x else e + x)
    ensures ExponentSpec(s, p, e)
         == Ok((if sign == Minus then e - x else e + x, false), p + |SuffixText(Exponent(upper, sign, x))|)
  {
    ExponentLead(s, p, upper, sign, x);
    DecNumAtWord(s, p + 1 + |SignText(sign)|, x, INT32_MAX);
    ExponentOfParts(s, p, e, sign == Minus, p + 1 + |SignText(sign)|, x, p + 1 + |SignText(sign)| + |Decimal(x)|);
  }

  /** Where an exponent is written: its letter, the sign after it, and the
      digits after those. */
  lemma {:induction false} ExponentLead(s: seq<Byte>, p: nat, upper: bool, sign: Sign, x: nat)
    requires WordAt(s, p, SuffixText(Exponent(upper, sign, x)))
    ensures |SuffixText(Exponent(upper, sign, x))| == 1 + |SignText(sign)| + |Decimal(x)|
    ensures At(s, p) == 'e' || At(s, p) == 'E'
    ensures At(s, p + 1) == '-' <==> sign == Minus
    ensures (At(s, p + 1) == '-' || At(s, p + 1) == '+') <==> sign != Unsigned
    ensures WordAt(s, p + 1 + |SignText(sign)|, Decimal(x))
  {
    DecimalStartsWithDigit(x);
    LetterSignDigits(s, p, if upper then 'E' else 'e', SignText(sign), Decimal(x));
  }

  /** A letter, an optional sign and a digit run, written at `p`: the
      letter stands at `p`, then the sign or the first digit. */
  lemma {:induction false} LetterSignDigits(s: seq<Byte>, p: nat, letter: Byte, st: seq<Byte>, dt: seq<Byte>)
    requires WordAt(s, p, [letter] + st + dt) && |dt| >= 1
    ensures At(s, p) == letter
    ensures At(s, p + 1) == if st == [] then dt[0] else st[0]
    ensures WordAt(s, p + 1 + |st|, dt)
  {
    WordAtSplit(s, p, [letter] + st, dt);
    WordAtSplit(s, p, [letter], st);
    WordAtChar(s, p, [letter], 0);
    if st == [] {
      WordAtChar(s, p + 1, dt, 0);
    } else {
      WordAtChar(s, p + 1, st, 0);
    }
  }

  /** The exponent branch once its pieces are known: the sign seen after the
      letter, where the digits start, and what `gcfg_dec_num` read there. */
  lemma {:induction false} ExponentOfParts(s: seq<Byte>, p: nat, e: int, minus: bool, q: nat, x: nat, r: nat)
    requires At(s, p) == 'e' || At(s, p) == 'E'
    requires minus <==> At(s, p + 1) == '-'
    requires q == if At(s, p + 1) == '-' || At(s, p + 1) == '+' then p + 2 else p + 1
    requires DecNumSpec(s, q, INT32_MAX) == Ok(x, r) && InInt32(e)
    ensures var e' := if minus then e - x else e + x;
      ExponentSpec(s, p, e) == if InInt32(e') then Ok((e', false), r) else Fail
  {
  }

  /** The stages chained: the sign, the integer part read up to `q`, the
      fraction stage up to `r` and the suffix stage up to `t`. */
  lemma {:induction false} ParseOfStages(s: seq<Byte>, sg: Sign, p: nat, n: nat, q: nat, m: nat, e: int, r: nat, e': int, pct: bool, t: nat)
    requires At(s, 0) == '-' <==> sg == Minus
    requires p == if At(s, 0) == '+' || At(s, 0) == '-' then 1 else 0
    requires DecNumSpec(s, p, U64_MAX) == Ok(n, q)
    requires FractionSpec(s, q, n, false) == Ok((m, e), r)
    requires ExponentSpec(s, r, e) == Ok((e', pct), t)
    ensures ParseNumberSpec(s, 0) == Ok(Reading(sg == Minus, m, e', pct), t)
  {
  }

  /** Where the sign is written: a `-` exactly for `Minus`, a `+` or `-`
      exactly when a sign is written at all. */
  lemma {:induction false} SignLead(s: seq<Byte>, sg: Sign, n: nat)
    requires WordAt(s, 0, SignText(sg)) && WordAt(s, |SignText(sg)|, Decimal(n))
    ensures At(s, 0) == '-' <==> sg == Minus
    ensures |SignText(sg)| == if At(s, 0) == '+' || At(s, 0) == '-' then 1 else 0
  {
    if sg == Unsigned {
      DecimalStartsWithDigit(n);
      WordAtChar(s, 0, Decimal(n), 0);
    } else {
      WordAtChar(s, 0, SignText(sg), 0);
    }
  }

  /** The meaning of a written number: a sign, the canonical spelling of the
      integer part, optionally a `.` and the canonical spelling of the
      fraction digits, and an optional exponent or percent sign, are read
      as the magnitude the digits spell together, with the exponent lowered
      by the number of fraction digits and moved by the suffix, whenever
      every guard of the decoder passes. */
  lemma {:induction false} ParseNumberOfText(sg: Sign, n: nat, frac: Option<nat>, sx: Suffix, rest: seq<Byte>)
    requires n <= U64_MAX && FractionFits(n, frac)
    requires (sx.Exponent? ==> sx.x <= INT32_MAX) && InInt32(Adjust(sx) - FractionDigits(frac))
    requires Stops(At(rest, 0))
    ensures ParseNumberSpec(NumberText(sg, n, frac, sx) + rest, 0)
         == Ok(Reading(sg == Minus, Magnitude(n, frac), Adjust(sx) - FractionDigits(frac), sx.Percent?),
               |NumberText(sg, n, frac, sx)|)
  {
    var text := NumberText(sg, n, frac, sx);
    var s := text + rest;
    assert s[0..|text|] == text;
    WordAtSlice(s, 0, text);
    assert At(s, |text|) == At(rest, 0);
    ParseNumberAt(s, sg, n, frac, sx);
  }

  /** The same, for a number written at the start of a text and followed
      there by a character that continues no part of it. */
  lemma {:induction false} ParseNumberAt(s: seq<Byte>, sg: Sign, n: nat, frac: Option<nat>, sx: Suffix)
    requires WordAt(s, 0, NumberText(sg, n, frac, sx)) && Stops(At(s, |NumberText(sg, n, frac, sx)|))
    requires n <= U64_MAX && FractionFits(n, frac)
    requires (sx.Exponent? ==> sx.x <= INT32_MAX) && InInt32(Adjust(sx) - FractionDigits(frac))
    ensures ParseNumberSpec(s, 0)
         == Ok(Reading(sg == Minus, Magnitude(n, frac), Adjust(sx) - FractionDigits(frac), sx.Percent?),
               |NumberText(sg, n, frac, sx)|)
  {
    StagesAt(s, sg, n, frac, sx);
    ReadingOfStages(s, sg, n, frac, sx);
  }

  /** The three stages of the decoder on a written number, each reading
      its own piece. */
  lemma {:induction false} StagesAt(s: seq<Byte>, sg: Sign, n: nat, frac: Option<nat>, sx: Suffix)
    requires WordAt(s, 0, NumberText(sg, n, frac, sx)) && Stops(At(s, |NumberText(sg, n, frac, sx)|))
    requires n <= U64_MAX && FractionFits(n, frac)
    requires (sx.Exponent? ==> sx.x <= INT32_MAX) && InInt32(Adjust(sx) - FractionDigits(frac))
    ensures At(s, 0) == '-' <==> sg == Minus
    ensures |SignText(sg)| == if At(s, 0) == '+' || At(s, 0) == '-' then 1 else 0
    ensures DecNumSpec(s, |SignText(sg)|, U64_MAX) == Ok(n, |SignText(sg)| + |Decimal(n)|)
    ensures FractionSpec(s, |SignText(sg)| + |Decimal(n)|, n, false)
         == Ok((Magnitude(n, frac), -(FractionDigits(frac) as int)), |SignText(sg)| + |Decimal(n)| + |FractionText(frac)|)
    ensures ExponentSpec(s, |SignText(sg)| + |Decimal(n)| + |FractionText(frac)|, -(FractionDigits(frac) as int))
         == Ok((Adjust(sx) - FractionDigits(frac), sx.Percent?), |NumberText(sg, n, frac, sx)|)
  {
    IntegerStageAt(s, sg, n, frac, sx);
    FractionStageAt(s, sg, n, frac, sx);
    FitsDigits(n, frac);
    SuffixStageAt(s, sg, n, frac, sx);
  }

  /** The stages' outcomes chained into the whole reading, taken apart by
      the shape of the fraction and the suffix. */
  lemma {:induction false} ReadingOfStages(s: seq<Byte>, sg: Sign, n: nat, frac: Option<nat>, sx: Suffix)
    requires At(s, 0) == '-' <==> sg == Minus
    requires |SignText(sg)| == if At(s, 0) == '+' || At(s, 0) == '-' then 1 else 0
    requires DecNumSpec(s, |SignText(sg)|, U64_MAX) == Ok(n, |SignText(sg)| + |Decimal(n)|)
    requires FractionSpec(s, |SignText(sg)| + |Decimal(n)|, n, false)
         == Ok((Magnitude(n, frac), -(FractionDigits(frac) as int)), |SignText(sg)| + |Decimal(n)| + |FractionText(frac)|)
    requires ExponentSpec(s, |SignText(sg)| + |Decimal(n)| + |FractionText(frac)|, -(FractionDigits(frac) as int))
         == Ok((Adjust(sx) - FractionDigits(frac), sx.Percent?), |NumberText(sg, n, frac, sx)|)
    ensures ParseNumberSpec(s, 0)
         == Ok(Reading(sg == Minus, Magnitude(n, frac), Adjust(sx) - FractionDigits(frac), sx.Percent?),
               |NumberText(sg, n, frac, sx)|)
  {
    if frac.None? {
      ReadingOfStagesNone(s, sg, n, frac, sx);
    } else if sx.Plain? {
      ReadingOfStagesPlain(s, sg, n, frac, sx);
    } else if sx.Percent? {
      ReadingOfStagesPercent(s, sg, n, frac, sx);
    } else {
      ReadingOfStagesExp(s, sg, n, frac, sx);
    }
  }

  /** ... with no fraction ... */
  lemma {:induction false} ReadingOfStagesNone(s: seq<Byte>, sg: Sign, n: nat, frac: Option<nat>, sx: Suffix)
    requires At(s, 0) == '-' <==> sg == Minus
    requires |SignText(sg)| == if At(s, 0) == '+' || At(s, 0) == '-' then 1 else 0
    requires DecNumSpec(s, |SignText(sg)|, U64_MAX) == Ok(n, |SignText(sg)| + |Decimal(n)|)
    requires FractionSpec(s, |SignText(sg)| + |Decimal(n)|, n, false)
         == Ok((Magnitude(n, frac), -(FractionDigits(frac) as int)), |SignText(sg)| + |Decimal(n)| + |FractionText(frac)|)
    requires ExponentSpec(s, |SignText(sg)| + |Decimal(n)| + |FractionText(frac)|, -(FractionDigits(frac) as int))
         == Ok((Adjust(sx) - FractionDigits(frac), sx.Percent?), |NumberText(sg, n, frac, sx)|)
    requires frac.None?
    ensures ParseNumberSpec(s, 0)
         == Ok(Reading(sg == Minus, Magnitude(n, frac), Adjust(sx) - FractionDigits(frac), sx.Percent?),
               |NumberText(sg, n, frac, sx)|)
  {
    ParseOfStages(s, sg, |SignText(sg)|, n, |SignText(sg)| + |Decimal(n)|,
                  Magnitude(n, frac), -(FractionDigits(frac) as int), |SignText(sg)| + |Decimal(n)| + |FractionText(frac)|,
                  Adjust(sx) - FractionDigits(frac), sx.Percent?, |NumberText(sg, n, frac, sx)|);
  }

  /** ... with a fraction and no suffix ... */
  lemma {:induction false} ReadingOfStagesPlain(s: seq<Byte>, sg: Sign, n: nat, frac: Option<nat>, sx: Suffix)
    requires At(s, 0) == '-' <==> sg == Minus
    requires |SignText(sg)| == if At(s, 0) == '+' || At(s, 0) == '-' then 1 else 0
    requires DecNumSpec(s, |SignText(sg)|, U64_MAX) == Ok(n, |SignText(sg)| + |Decimal(n)|)
    requires FractionSpec(s, |SignText(sg)| + |Decimal(n)|, n, false)
         == Ok((Magnitude(n, frac), -(FractionDigits(frac) as int)), |SignText(sg)| + |Decimal(n)| + |FractionText(frac)|)
    requires ExponentSpec(s, |SignText(sg)| + |Decimal(n)| + |FractionText(frac)|, -(FractionDigits(frac) as int))
         == Ok((Adjust(sx) - FractionDigits(frac), sx.Percent?), |NumberText(sg, n, frac, sx)|)
    requires frac.Some? && sx.Plain?
    ensures ParseNumberSpec(s, 0)
         == Ok(Reading(sg == Minus, Magnitude(n, frac), Adjust(sx) - FractionDigits(frac), sx.Percent?),
               |NumberText(sg, n, frac, sx)|)
  {
    ParseOfStages(s, sg, |SignText(sg)|, n, |SignText(sg)| + |Decimal(n)|,
                  Magnitude(n, frac), -(FractionDigits(frac) as int), |SignText(sg)| + |Decimal(n)| + |FractionText(frac)|,
                  Adjust(sx) - FractionDigits(frac), sx.Percent?, |NumberText(sg, n, frac, sx)|);
  }

  /** ... with a fraction and a percent sign ... */
  lemma {:induction false} ReadingOfStagesPercent(s: seq<Byte>, sg: Sign, n: nat, frac: Option<nat>, sx: Suffix)
    requires At(s, 0) == '-' <==> sg == Minus
    requires |SignText(sg)| == if At(s, 0) == '+' || At(s, 0) == '-' then 1 else 0
    requires DecNumSpec(s, |SignText(sg)|, U64_MAX) == Ok(n, |SignText(sg)| + |Decimal(n)|)
    requires FractionSpec(s, |SignText(sg)| + |Decimal(n)|, n, false)
         == Ok((Magnitude(n, frac), -(FractionDigits(frac) as int)), |SignText(sg)| + |Decimal(n)| + |FractionText(frac)|)
    requires ExponentSpec(s, |SignText(sg)| + |Decimal(n)| + |FractionText(frac)|, -(FractionDigits(frac) as int))
         == Ok((Adjust(sx) - FractionDigits(frac), sx.Percent?), |NumberText(sg, n, frac, sx)|)
    requires frac.Some? && sx.Percent?
    ensures ParseNumberSpec(s, 0)
         == Ok(Reading(sg == Minus, Magnitude(n, frac), Adjust(sx) - FractionDigits(frac), sx.Percent?),
               |NumberText(sg, n, frac, sx)|)
  {
    ParseOfStages(s, sg, |SignText(sg)|, n, |SignText(sg)| + |Decimal(n)|,
                  Magnitude(n, frac), -(FractionDigits(frac) as int), |SignText(sg)| + |Decimal(n)| + |FractionText(frac)|,
                  Adjust(sx) - FractionDigits(frac), sx.Percent?, |NumberText(sg, n, frac, sx)|);
  }

  /** ... with a fraction and an exponent ... */
  lemma {:induction false} ReadingOfStagesExp(s: seq<Byte>, sg: Sign, n: nat, frac: Option<nat>, sx: Suffix)
    requires At(s, 0) == '-' <==> sg == Minus
    requires |SignText(sg)| == if At(s, 0) == '+' || At(s, 0) == '-' then 1 else 0
    requires DecNumSpec(s, |SignText(sg)|, U64_MAX) == Ok(n, |SignText(sg)| + |Decimal(n)|)
    requires FractionSpec(s, |SignText(sg)| + |Decimal(n)|, n, false)
         == Ok((Magnitude(n, frac), -(FractionDigits(frac) as int)), |SignText(sg)| + |Decimal(n)| + |FractionText(frac)|)
    requires ExponentSpec(s, |SignText(sg)| + |Decimal(n)| + |FractionText(frac)|, -(FractionDigits(frac) as int))
         == Ok((Adjust(sx) - FractionDigits(frac), sx.Percent?), |NumberText(sg, n, frac, sx)|)
    requires frac.Some? && sx.Exponent?
    ensures ParseNumberSpec(s, 0)
         == Ok(Reading(sg == Minus, Magnitude(n, frac), Adjust(sx) - FractionDigits(frac), sx.Percent?),
               |NumberText(sg, n, frac, sx)|)
  {
    ParseOfStages(s, sg, |SignText(sg)|, n, |SignText(sg)| + |Decimal(n)|,
                  Magnitude(n, frac), -(FractionDigits(frac) as int), |SignText(sg)| + |Decimal(n)| + |FractionText(frac)|,
                  Adjust(sx) - FractionDigits(frac), sx.Percent?, |NumberText(sg, n, frac, sx)|);
  }


  /** In a written number, the integer stage reads the integer part, after
      the sign ... */
  lemma {:induction false} IntegerStageAt(s: seq<Byte>, sg: Sign, n: nat, frac: Option<nat>, sx: Suffix)
    requires WordAt(s, 0, NumberText(sg, n, frac, sx)) && Stops(At(s, |NumberText(sg, n, frac, sx)|))
    requires n <= U64_MAX
    ensures At(s, 0) == '-' <==> sg == Minus
    ensures |SignText(sg)| == if At(s, 0) == '+' || At(s, 0) == '-' then 1 else 0
    ensures DecNumSpec(s, |SignText(sg)|, U64_MAX) == Ok(n, |SignText(sg)| + |Decimal(n)|)
  {
    BoundariesAt(s, sg, n, frac, sx);
    IntegerPart(s, |SignText(sg)|, n);
  }

  /** ... the fraction stage reads the fraction, if any ... */
  lemma {:induction false} FractionStageAt(s: seq<Byte>, sg: Sign, n: nat, frac: Option<nat>, sx: Suffix)
    requires WordAt(s, 0, NumberText(sg, n, frac, sx)) && Stops(At(s, |NumberText(sg, n, frac, sx)|))
    requires FractionFits(n, frac)
    ensures FractionSpec(s, |SignText(sg)| + |Decimal(n)|, n, false)
         == Ok((Magnitude(n, frac), -(FractionDigits(frac) as int)), |SignText(sg)| + |Decimal(n)| + |FractionText(frac)|)
  {
    NumberPieces(s, sg, n, frac, sx);
    FractionStageOfPieces(s, sg, n, frac, sx);
  }

  /** The fraction stage, from where the pieces stand. */
  lemma {:induction false} FractionStageOfPieces(s: seq<Byte>, sg: Sign, n: nat, frac: Option<nat>, sx: Suffix)
    requires WordAt(s, |SignText(sg)| + |Decimal(n)|, FractionText(frac))
    requires WordAt(s, |SignText(sg)| + |Decimal(n)| + |FractionText(frac)|, SuffixText(sx))
    requires Stops(At(s, |SignText(sg)| + |Decimal(n)| + |FractionText(frac)| + |SuffixText(sx)|))
    requires FractionFits(n, frac)
    ensures FractionSpec(s, |SignText(sg)| + |Decimal(n)|, n, false)
         == Ok((Magnitude(n, frac), -(FractionDigits(frac) as int)), |SignText(sg)| + |Decimal(n)| + |FractionText(frac)|)
  {
    PiecesBounded(s, sg, n, frac, sx);
    FractionStage(s, |SignText(sg)| + |Decimal(n)|, n, frac);
  }

  /** ... and the suffix stage reads the suffix, up to the end of the
      number. */
  lemma {:induction false} SuffixStageAt(s: seq<Byte>, sg: Sign, n: nat, frac: Option<nat>, sx: Suffix)
    requires WordAt(s, 0, NumberText(sg, n, frac, sx)) && Stops(At(s, |NumberText(sg, n, frac, sx)|))
    requires FractionDigits(frac) <= 0x8000_0000
    requires (sx.Exponent? ==> sx.x <= INT32_MAX) && InInt32(Adjust(sx) - FractionDigits(frac))
    ensures ExponentSpec(s, |SignText(sg)| + |Decimal(n)| + |FractionText(frac)|, -(FractionDigits(frac) as int))
         == Ok((Adjust(sx) - FractionDigits(frac), sx.Percent?), |NumberText(sg, n, frac, sx)|)
  {
    var a := |SignText(sg)| + |Decimal(n)| + |FractionText(frac)|;
    SuffixAt(s, sg, n, frac, sx);
    SuffixFromFraction(s, a, frac, sx, |NumberText(sg, n, frac, sx)|);
  }

  /** A fitting fraction has at most 2^31 digits. */
  lemma {:induction false} FitsDigits(n: nat, frac: Option<nat>)
    requires FractionFits(n, frac)
    ensures FractionDigits(frac) <= 0x8000_0000
  {
  }

  /** Where the suffix of a written number stands, and where the number
      ends. */
  lemma {:induction false} SuffixAt(s: seq<Byte>, sg: Sign, n: nat, frac: Option<nat>, sx: Suffix)
    requires WordAt(s, 0, NumberText(sg, n, frac, sx)) && Stops(At(s, |NumberText(sg, n, frac, sx)|))
    ensures WordAt(s, |SignText(sg)| + |Decimal(n)| + |FractionText(frac)|, SuffixText(sx))
    ensures |NumberText(sg, n, frac, sx)| == |SignText(sg)| + |Decimal(n)| + |FractionText(frac)| + |SuffixText(sx)|
    ensures Stops(At(s, |SignText(sg)| + |Decimal(n)| + |FractionText(frac)| + |SuffixText(sx)|))
  {
    NumberPieces(s, sg, n, frac, sx);
    NumberTextLength(sg, n, frac, sx);
  }

  /** The suffix stage after a fraction of `d` digits. */
  lemma {:induction false} SuffixFromFraction(s: seq<Byte>, a: nat, frac: Option<nat>, sx: Suffix, e: nat)
    requires WordAt(s, a, SuffixText(sx)) && e == a + |SuffixText(sx)| && Stops(At(s, e))
    requires FractionDigits(frac) <= 0x8000_0000
    requires (sx.Exponent? ==> sx.x <= INT32_MAX) && InInt32(Adjust(sx) - FractionDigits(frac))
    ensures ExponentSpec(s, a, -(FractionDigits(frac) as int))
         == Ok((Adjust(sx) - FractionDigits(frac), sx.Percent?), e)
  {
    ExponentOfText(s, a, -(FractionDigits(frac) as int), sx);
  }

  /** The boundaries of the pieces of a written number: the sign, then the
      integer part with no digit after it, then the fraction with neither a
      digit nor a `.` after it. */
  lemma {:induction false} BoundariesAt(s: seq<Byte>, sg: Sign, n: nat, frac: Option<nat>, sx: Suffix)
    requires WordAt(s, 0, NumberText(sg, n, frac, sx)) && Stops(At(s, |NumberText(sg, n, frac, sx)|))
    ensures At(s, 0) == '-' <==> sg == Minus
    ensures |SignText(sg)| == if At(s, 0) == '+' || At(s, 0) == '-' then 1 else 0
    ensures WordAt(s, |SignText(sg)|, Decimal(n)) && !IsDigit(At(s, |SignText(sg)| + |Decimal(n)|))
    ensures WordAt(s, |SignText(sg)| + |Decimal(n)|, FractionText(frac))
    ensures !IsDigit(At(s, |SignText(sg)| + |Decimal(n)| + |FractionText(frac)|))
    ensures At(s, |SignText(sg)| + |Decimal(n)| + |FractionText(frac)|) != '.'
  {
    NumberPieces(s, sg, n, frac, sx);
    PiecesBounded(s, sg, n, frac, sx);
  }

  /** What follows the integer part and the fraction, from where the
      pieces stand. */
  lemma {:induction false} PiecesBounded(s: seq<Byte>, sg: Sign, n: nat, frac: Option<nat>, sx: Suffix)
    requires WordAt(s, |SignText(sg)| + |Decimal(n)|, FractionText(frac))
    requires WordAt(s, |SignText(sg)| + |Decimal(n)| + |FractionText(frac)|, SuffixText(sx))
    requires Stops(At(s, |SignText(sg)| + |Decimal(n)| + |FractionText(frac)| + |SuffixText(sx)|))
    ensures !IsDigit(At(s, |SignText(sg)| + |Decimal(n)|))
    ensures !IsDigit(At(s, |SignText(sg)| + |Decimal(n)| + |FractionText(frac)|))
    ensures At(s, |SignText(sg)| + |Decimal(n)| + |FractionText(frac)|) != '.'
  {
    PieceLeads(frac, sx);
    PieceBoundaries(s, |SignText(sg)| + |Decimal(n)|, FractionText(frac), SuffixText(sx));
  }

  /** The pieces of a written number, each at its place. */
  lemma {:induction false} NumberPieces(s: seq<Byte>, sg: Sign, n: nat, frac: Option<nat>, sx: Suffix)
    requires WordAt(s, 0, NumberText(sg, n, frac, sx)) && Stops(At(s, |NumberText(sg, n, frac, sx)|))
    ensures At(s, 0) == '-' <==> sg == Minus
    ensures |SignText(sg)| == if At(s, 0) == '+' || At(s, 0) == '-' then 1 else 0
    ensures WordAt(s, |SignText(sg)|, Decimal(n))
    ensures WordAt(s, |SignText(sg)| + |Decimal(n)|, FractionText(frac))
    ensures WordAt(s, |SignText(sg)| + |Decimal(n)| + |FractionText(frac)|, SuffixText(sx))
    ensures Stops(At(s, |SignText(sg)| + |Decimal(n)| + |FractionText(frac)| + |SuffixText(sx)|))
  {
    NumberTextLength(sg, n, frac, sx);
    WordAtSplit4(s, SignText(sg), Decimal(n), FractionText(frac), SuffixText(sx));
    SignLead(s, sg, n);
  }

  /** Where one piece ends and the next begins: a fraction piece is empty
      or starts with a `.`, and a suffix piece is empty or starts with an
      exponent letter or a percent sign, so no digit follows the integer
      part and no digit or `.` follows the fraction. */
  lemma {:induction false} PieceBoundaries(s: seq<Byte>, b: nat, ft: seq<Byte>, st: seq<Byte>)
    requires WordAt(s, b, ft) && WordAt(s, b + |ft|, st) && Stops(At(s, b + |ft| + |st|))
    requires ft == [] || ft[0] == '.'
    requires st == [] || st[0] == 'e' || st[0] == 'E' || st[0] == '%'
    ensures !IsDigit(At(s, b))
    ensures !IsDigit(At(s, b + |ft|)) && At(s, b + |ft|) != '.'
  {
    if ft != [] {
      WordAtChar(s, b, ft, 0);
    }
    if st != [] {
      WordAtChar(s, b + |ft|, st, 0);
    }
  }

  /** What the fraction and suffix pieces start with. */
  lemma {:induction false} PieceLeads(frac: Option<nat>, sx: Suffix)
    ensures FractionText(frac) == [] || FractionText(frac)[0] == '.'
    ensures var st := SuffixText(sx); st == [] || st[0] == 'e' || st[0] == 'E' || st[0] == '%'
  {
  }

  lemma {:induction false} NumberTextLength(sg: Sign, n: nat, frac: Option<nat>, sx: Suffix)
    ensures |FractionText(frac)| == if frac.Some? then 1 + FractionDigits(frac) else 0
    ensures |NumberText(sg, n, frac, sx)|
         == |SignText(sg)| + |Decimal(n)| + |FractionText(frac)| + |SuffixText(sx)|
  {
  }

  /** The fraction stage on a written fraction or none, inside a number:
      the digits are read and the checked sum taken. */
  lemma {:induction false} FractionStage(s: seq<Byte>, b: nat, n: nat, frac: Option<nat>)
    requires WordAt(s, b, FractionText(frac)) && FractionFits(n, frac)
    requires !IsDigit(At(s, b + |FractionText(frac)|)) && At(s, b + |FractionText(frac)|) != '.'
    ensures FractionDigits(frac) <= 0x8000_0000
    ensures FractionSpec(s, b, n, false)
         == Ok((Magnitude(n, frac), -(FractionDigits(frac) as int)), b + |FractionText(frac)|)
  {
    if frac.Some? {
      FractionOfText(s, b, n, frac.value, false);
    }
  }

  lemma {:induction false} IntegerPart(s: seq<Byte>, p: nat, n: nat)
    requires WordAt(s, p, Decimal(n)) && !IsDigit(At(s, p + |Decimal(n)|)) && n <= U64_MAX
    ensures DecNumSpec(s, p, U64_MAX) == Ok(n, p + |Decimal(n)|)
  {
    DecNumAtWord(s, p, n, U64_MAX);
  }

  /** What the checked fraction stage yields fits: a 64-bit magnitude, an
      exponent between the smallest `int32` and zero, and a position not
      before `q` and within the text. */
  lemma {:induction false} FractionBounds(s: seq<Byte>, q: nat, v: nat)
    requires v <= U64_MAX && q <= |s| && FractionSpec(s, q, v, false).Ok?
    ensures var f := FractionSpec(s, q, v, false);
      f.value.0 <= U64_MAX && INT32_MIN <= f.value.1 <= 0 && q <= f.next <= |s|
  {
    if At(s, q) == '.' {
      ShiftMeaning(v, 0, DigitRunEnd(s, q + 1) - (q + 1));
      DecNumAccepts(s, q + 1, U64_MAX);
    }
  }

  /** Whatever `gcfg_parse_number` accepts fits the record: the magnitude in
      64 bits and the exponent in 32; at least one character is read. */
  lemma {:induction false} ParseNumberBounds(s: seq<Byte>, i: nat)
    requires ParseNumberSpec(s, i).Ok?
    ensures var r := ParseNumberSpec(s, i);
      r.value.magnitude <= U64_MAX && InInt32(r.value.exponent) && i < r.next <= |s|
  {
    var p := if At(s, i) == '+' || At(s, i) == '-' then i + 1 else i;
    DecNumAtMost(s, p, U64_MAX);
    DecNumAccepts(s, p, U64_MAX);
    var q := DecNumSpec(s, p, U64_MAX).next;
    FractionBounds(s, q, DecNumSpec(s, p, U64_MAX).value);
    var f := FractionSpec(s, q, DecNumSpec(s, p, U64_MAX).value, false);
    ExponentBounds(s, f.next, f.value.1);
  }

  /** What the suffix stage yields from an `int32` exponent is one, and its
      position is not before `p` and within the text. */
  lemma {:induction false} ExponentBounds(s: seq<Byte>, p: nat, e: int)
    requires InInt32(e) && p <= |s| && ExponentSpec(s, p, e).Ok?
    ensures var x := ExponentSpec(s, p, e); InInt32(x.value.0) && p <= x.next <= |s|
  {
    if At(s, p) == 'e' || At(s, p) == 'E' {
      DecNumAccepts(s, if At(s, p + 1) == '-' || At(s, p + 1) == '+' then p + 2 else p + 1, INT32_MAX);
    }
  }

  /** The fraction sum wrapped and checked agree whenever the checked one is
      accepted, and the wrapped one refuses only what the checked one does. */
  lemma {:induction false} FractionWrapAgrees(s: seq<Byte>, q: nat, v: nat)
    ensures FractionSpec(s, q, v, false).Ok? ==> FractionSpec(s, q, v, true) == FractionSpec(s, q, v, false)
    ensures FractionSpec(s, q, v, true).Fail? ==> FractionSpec(s, q, v, false).Fail?
  {
  }

  /** The decoder as written and the checked one read the same whenever the
      checked one accepts; they differ only where the fraction sum passes
      2^64-1, which the one as written accepts with a wrapped magnitude. */
  lemma {:induction false} ParseNumberAsWrittenAgrees(s: seq<Byte>, i: nat)
    ensures ParseNumberSpec(s, i).Ok? ==> ParseNumberAsWritten(s, i) == ParseNumberSpec(s, i)
    ensures ParseNumberAsWritten(s, i).Fail? ==> ParseNumberSpec(s, i).Fail?
  {
    var p := if At(s, i) == '+' || At(s, i) == '-' then i + 1 else i;
    if DecNumSpec(s, p, U64_MAX).Ok? {
      FractionWrapAgrees(s, DecNumSpec(s, p, U64_MAX).next, DecNumSpec(s, p, U64_MAX).value);
    }
  }

  /** The unchecked fraction sum of `gcfg_parse_number` wraps:
      "184467440737095516.99" passes both guards of the fraction loop (the
      magnitude is below the ceiling before each of the two digits), is
      scaled to 18446744073709551600, and adding 99 wraps to 83, so the
      decoder as written reads 83 * 10^-2. The checked decoder refuses it. */
  lemma {:induction false} FractionSumWraps(n: nat, f: nat)
    requires n == 184467440737095516 && f == 99
    ensures ParseNumberAsWritten(NumberText(Unsigned, n, Some(f), Plain), 0)
         == Ok(Reading(false, 83, -2, false), |NumberText(Unsigned, n, Some(f), Plain)|)
    ensures ParseNumberSpec(NumberText(Unsigned, n, Some(f), Plain), 0) == Fail
  {
    var s := NumberText(Unsigned, n, Some(f), Plain);
    WrapArithmetic(n, f);
    assert s == [] + Decimal(n) + (['.'] + Decimal(f));
    DecNumOfDecimal([], n, ['.'] + Decimal(f), U64_MAX);
    WordAtSlice(s, |Decimal(n)|, ['.'] + Decimal(f));
    FractionOfText(s, |Decimal(n)|, n, f, true);
    FractionOfText(s, |Decimal(n)|, n, f, false);
    UnsignedStages(s, n, |Decimal(n)|, true);
    UnsignedStages(s, n, |Decimal(n)|, false);
  }

  /** The numbers of that sample: two fraction digits, the magnitude below
      the ceiling before the second, and the sum past 2^64-1 by 84. */
  lemma {:induction false} WrapArithmetic(n: nat, f: nat)
    requires n == 184467440737095516 && f == 99
    ensures |Decimal(f)| == 2 && Scale(n, |Decimal(f)| - 1) < FRACTION_CEILING
    ensures Scale(n, |Decimal(f)|) + f > U64_MAX && (Scale(n, |Decimal(f)|) + f) % (U64_MAX + 1) == 83
  {
    assert Decimal(f) == "99";
    assert Scale(n, 2) == 100 * n;
  }

  /** An unsigned number with no suffix, once its integer part and fraction
      stage are known. */
  lemma {:induction false} UnsignedStages(s: seq<Byte>, n: nat, q: nat, wrap: bool)
    requires At(s, 0) != '+' && At(s, 0) != '-' && DecNumSpec(s, 0, U64_MAX) == Ok(n, q)
    requires FractionSpec(s, q, n, wrap).Ok? ==> Stops(At(s, FractionSpec(s, q, n, wrap).next))
    ensures ParseReading(s, 0, wrap)
         == match FractionSpec(s, q, n, wrap)
            case Fail => Fail
            case Ok(fr, r) => Ok(Reading(false, fr.0, fr.1, false), r)
  {
  }

  // ---------------------------------------------------------------------
  // Refusals, and where reading stops

  /** A fraction whose first digit is `0` followed by a further digit is
      refused: its digits are read by `gcfg_dec_num`, which allows no
      leading zero. */
  lemma {:induction false} FractionLeadingZeroRefused(s: seq<Byte>, q: nat, v: nat, wrap: bool)
    requires At(s, q) == '.' && At(s, q + 1) == '0' && IsDigit(At(s, q + 2))
    ensures FractionSpec(s, q, v, wrap) == Fail
  {
  }

  /** So a number whose integer part is followed by such a fraction is
      refused, by the checked decoder and by the one as written. */
  lemma {:induction false} ParseNumberRefusesLeadingZeroFraction(s: seq<Byte>, i: nat)
    requires var p := if At(s, i) == '+' || At(s, i) == '-' then i + 1 else i;
      DecNumSpec(s, p, U64_MAX).Ok? &&
      var q := DecNumSpec(s, p, U64_MAX).next;
      At(s, q) == '.' && At(s, q + 1) == '0' && IsDigit(At(s, q + 2))
    ensures ParseNumberSpec(s, i) == Fail && ParseNumberAsWritten(s, i) == Fail
  {
    var p := if At(s, i) == '+' || At(s, i) == '-' then i + 1 else i;
    var d := DecNumSpec(s, p, U64_MAX);
    FractionLeadingZeroRefused(s, d.next, d.value, false);
    FractionLeadingZeroRefused(s, d.next, d.value, true);
  }

  /** "1.05" is not a number. */
  lemma {:induction false} OneDotZeroFiveRefused()
    ensures ParseNumberSpec("1.05", 0) == Fail
  {
    assert DecNumSpec("1.05", 0, U64_MAX) == Ok(1, 1);
    ParseNumberRefusesLeadingZeroFraction("1.05", 0);
  }

  /** Without a digit after the optional sign nothing is read. */
  lemma {:induction false} ParseNumberNeedsDigit(s: seq<Byte>, i: nat)
    requires !IsDigit(At(s, if At(s, i) == '+' || At(s, i) == '-' then i + 1 else i))
    ensures ParseNumberSpec(s, i) == Fail && ParseNumberAsWritten(s, i) == Fail
  {
  }

  /** The empty text and a lone sign are refused. */
  lemma {:induction false} LoneSignsRefused()
    ensures ParseNumberSpec("", 0) == Fail
    ensures ParseNumberSpec("+", 0) == Fail && ParseNumberSpec("-", 0) == Fail
  {
    ParseNumberNeedsDigit("", 0);
    ParseNumberNeedsDigit("+", 0);
    ParseNumberNeedsDigit("-", 0);
  }

  /** After an exponent the suffix stage stops at the end of the
      exponent's digits, whatever follows, and never marks a percentage:
      a `%` after an exponent is left unread. */
  lemma {:induction false} ExponentStopsAfterDigits(s: seq<Byte>, p: nat, e: int)
    requires (At(s, p) == 'e' || At(s, p) == 'E') && ExponentSpec(s, p, e).Ok?
    ensures var x := ExponentSpec(s, p, e);
      !x.value.1 && x.next == DigitRunEnd(s, if At(s, p + 1) == '-' || At(s, p + 1) == '+' then p + 2 else p + 1)
  {
    DecNumIsRunValue(s, if At(s, p + 1) == '-' || At(s, p + 1) == '+' then p + 2 else p + 1, INT32_MAX);
  }

  /** "13e2%" reads as 13 * 10^2, not a percentage, and stops before the
      `%`. */
  lemma {:induction false} PercentAfterExponentUnread()
    ensures ParseNumberSpec("13e2%", 0) == Ok(Reading(false, 13, 2, false), 4)
  {
    assert DecNumSpec("13e2%", 0, U64_MAX) == Ok(13, 2);
    assert DecNumSpec("13e2%", 3, INT32_MAX) == Ok(2, 4);
  }

  // ---------------------------------------------------------------------
  // Reading at any position

  lemma {:induction false} DigitRunShift(s: seq<Byte>, q: nat, p: nat)
    requires q <= p && q <= |s|
    ensures DigitRunEnd(s, p) == DigitRunEnd(s[q..], p - q) + q
    decreases |s| - p
  {
    assert At(s, p) == At(s[q..], p - q);
    if IsDigit(At(s, p)) {
      DigitRunShift(s, q, p + 1);
    }
  }

  lemma {:induction false} FractionShift(s: seq<Byte>, q: nat, p: nat, v: nat, wrap: bool)
    requires q <= p && q <= |s|
    ensures FractionSpec(s, p, v, wrap) == Shifted(FractionSpec(s[q..], p - q, v, wrap), q)
  {
    assert At(s, p) == At(s[q..], p - q);
    DigitRunShift(s, q, p + 1);
    DecNumShift(s, q, p + 1, U64_MAX);
  }

  lemma {:induction false} ExponentShift(s: seq<Byte>, q: nat, p: nat, e: int)
    requires q <= p && q <= |s|
    ensures ExponentSpec(s, p, e) == Shifted(ExponentSpec(s[q..], p - q, e), q)
  {
    assert At(s, p) == At(s[q..], p - q) && At(s, p + 1) == At(s[q..], p - q + 1);
    DecNumShift(s, q, p + 1, INT32_MAX);
    DecNumShift(s, q, p + 2, INT32_MAX);
  }

  /** The decoder only looks at the text from its start on, so it reads
      the same off any suffix that contains the start. */
  lemma {:induction false} ParseReadingShift(s: seq<Byte>, q: nat, i: nat, wrap: bool)
    requires q <= i && q <= |s|
    ensures ParseReading(s, i, wrap) == Shifted(ParseReading(s[q..], i - q, wrap), q)
  {
    var t := s[q..];
    assert At(s, i) == At(t, i - q);
    var p := if At(s, i) == '+' || At(s, i) == '-' then i + 1 else i;
    DecNumShift(s, q, p, U64_MAX);
    var d := DecNumSpec(s, p, U64_MAX);
    if d.Ok? {
      var d' := DecNumSpec(t, p - q, U64_MAX);
      assert ParseReading(s, i, wrap) == Stages(s, d.next, d.value, At(s, i) == '-', wrap);
      assert ParseReading(t, i - q, wrap) == Stages(t, d'.next, d'.value, At(s, i) == '-', wrap);
      StagesShift(s, q, d.next, d.value, At(s, i) == '-', wrap);
    }
  }

  /** The fraction and suffix stages after an integer part, read off a
      suffix of the text. */
  lemma {:induction false} StagesShift(s: seq<Byte>, q: nat, r: nat, v: nat, negative: bool, wrap: bool)
    requires q <= r && q <= |s|
    ensures Stages(s, r, v, negative, wrap) == Shifted(Stages(s[q..], r - q, v, negative, wrap), q)
  {
    FractionShift(s, q, r, v, wrap);
    var f := FractionSpec(s, r, v, wrap);
    if f.Ok? {
      ExponentShift(s, q, f.next, f.value.1);
    }
  }
}
