/** `gcfg_parse_size`: a byte count, a decimal number optionally followed by
    a binary unit letter. */
module Size {
  import opened Base
  import opened DecNum
  import opened Values

  /** The shift a unit letter selects: `k`, `m`, `g` and `t` in either case
      for 10, 20, 30 and 40 bits; any other character selects no unit. */
  function ShiftOf(c: Byte): nat
  {
    if c == 'k' || c == 'K' then 10
    else if c == 'm' || c == 'M' then 20
    else if c == 'g' || c == 'G' then 30
    else if c == 't' || c == 'T' then 40
    else 0
  }

  /** `1 << shift` for the shifts a unit letter selects. */
  function Factor(shift: nat): (f: nat)
    ensures f >= 1
  {
    if shift == 10 then 0x400
    else if shift == 20 then 0x10_0000
    else if shift == 30 then 0x4000_0000
    else if shift == 40 then 0x100_0000_0000
    else 1
  }

  /** The meaning of `gcfg_parse_size`: the decimal number times the unit
      the letter after it selects, failing when that product does not fit
      in 64 bits; the unit letter, if any, is consumed and nothing after
      it. */
  function ParseSizeSpec(s: seq<Byte>, i: nat): Res<Value>
  {
    match DecNumSpec(s, i, U64_MAX)
    case Fail => Fail
    case Ok(v, n) =>
      var shift := ShiftOf(At(s, n));
      var size := v * Factor(shift);
      if size > U64_MAX then Fail
      else Ok(Value(TypeSize, ByteCount(size), 0, 0), if shift == 0 then n else n + 1)
  }

  /** `gcfg_parse_size`: the number, a `switch` on the unit letter, the
      guard against the shifted-down maximum, and the 64-bit left shift. */
  method ParseSize(s: seq<Byte>, i: nat) returns (r: Res<Value>)
    ensures r == ParseSizeSpec(s, i)
  {
    var t := DecNumber(s, i, U64_MAX);
    if t.Fail? {
      return Fail;
    }
    var value := t.value;
    var p := t.next;
    var shift: nat;
    match At(s, p) {
      case 'k' | 'K' =>
        p := p + 1;
        shift := 10;
      case 'm' | 'M' =>
        p := p + 1;
        shift := 20;
      case 'g' | 'G' =>
        p := p + 1;
        shift := 30;
      case 't' | 'T' =>
        p := p + 1;
        shift := 40;
      case _ =>
        shift := 0;
    }
    QuotientBound(value, Factor(shift), U64_MAX);
    if value > U64_MAX / Factor(shift) {
      return Fail;
    }
    var size := value * Factor(shift) % (U64_MAX + 1);
    return Ok(Value(TypeSize, ByteCount(size), 0, 0), p);
  }

  /** Round trip: a canonical decimal count, an optional unit letter and
      anything that neither continues the number nor, without a unit,
      starts one, is read as the count times the unit exactly when that
      fits in 64 bits, consuming the count and the letter. */
  lemma {:induction false} ParseSizeOfText(n: nat, unit: seq<Byte>, rest: seq<Byte>)
    requires unit == [] || (|unit| == 1 && ShiftOf(unit[0]) > 0)
    requires !IsDigit(At(rest, 0)) && (unit == [] ==> ShiftOf(At(rest, 0)) == 0)
    ensures var f := Factor(ShiftOf(At(unit, 0)));
      ParseSizeSpec(Decimal(n) + unit + rest, 0)
        == if n * f <= U64_MAX then Ok(Value(TypeSize, ByteCount(n * f), 0, 0), |Decimal(n)| + |unit|)
           else Fail
  {
    var s := Decimal(n) + unit + rest;
    assert s == [] + Decimal(n) + (unit + rest);
    assert At(unit + rest, 0) == if unit == [] then At(rest, 0) else unit[0];
    DecNumOfDecimal([], n, unit + rest, U64_MAX);
    var f := Factor(ShiftOf(At(unit, 0)));
    if n > U64_MAX {
      assert n * f >= n by { MulMonotone(1, f, n); }
    }
  }

  /** The guard is tight: for every unit, the largest count accepted is the
      64-bit maximum divided by the unit, and one more is refused. */
  lemma {:induction false} ParseSizeLimit(c: Byte, n: nat, rest: seq<Byte>)
    requires ShiftOf(c) > 0 && n == U64_MAX / Factor(ShiftOf(c)) && !IsDigit(At(rest, 0))
    ensures ParseSizeSpec(Decimal(n) + [c] + rest, 0).Ok?
    ensures ParseSizeSpec(Decimal(n + 1) + [c] + rest, 0) == Fail
  {
    QuotientBound(n, Factor(ShiftOf(c)), U64_MAX);
    QuotientBound(n + 1, Factor(ShiftOf(c)), U64_MAX);
    ParseSizeOfText(n, [c], rest);
    ParseSizeOfText(n + 1, [c], rest);
  }

  /** Sample sizes: "4k" is 4096 bytes and "2G" two gibibytes. */
  lemma {:induction false} ParseSizeSamples(four: nat, two: nat)
    requires four == 4 && two == 2
    ensures ParseSizeSpec(Decimal(four) + "k", 0) == Ok(Value(TypeSize, ByteCount(4096), 0, 0), 2)
    ensures ParseSizeSpec(Decimal(two) + "G", 0) == Ok(Value(TypeSize, ByteCount(0x8000_0000), 0, 0), 2)
  {
    assert |Decimal(four)| == 1 && |Decimal(two)| == 1;
    ParseSizeOfText(four, "k", []);
    ParseSizeOfText(two, "G", []);
    assert Decimal(four) + "k" == Decimal(four) + "k" + [];
    assert Decimal(two) + "G" == Decimal(two) + "G" + [];
  }
}
