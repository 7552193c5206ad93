/** `gcfg_parse_bandwidth`: a bit rate, a decimal number optionally
    followed by a decimal or binary prefix and a bit or byte unit. */
module Bandwidth {
  import opened Base
  import opened DecNum
  import opened Values

  /** Which prefix a letter names: `k`, `m`, `g`, `t` in either case for
      the first to fourth power of the base; 0 for any other character. */
  function PrefixPower(c: Byte): (n: nat)
    ensures n <= 4
  {
    if c == 'k' || c == 'K' then 1
    else if c == 'm' || c == 'M' then 2
    else if c == 'g' || c == 'G' then 3
    else if c == 't' || c == 'T' then 4
    else 0
  }

  /** The decimal prefixes: 1000 to the given power. */
  function DecimalScale(n: nat): (f: nat)
    ensures f >= 1
  {
    if n == 1 then 1000
    else if n == 2 then 1000_000
    else if n == 3 then 1000_000_000
    else if n == 4 then 1000_000_000_000
    else 1
  }

  /** The binary prefixes: 1024 to the given power. */
  function BinaryScale(n: nat): (f: nat)
    ensures f >= 1
  {
    if n == 1 then 0x400
    else if n == 2 then 0x10_0000
    else if n == 3 then 0x4000_0000
    else if n == 4 then 0x100_0000_0000
    else 1
  }

  predicate IsB(c: Byte) { c == 'b' || c == 'B' }

  predicate IsI(c: Byte) { c == 'i' || c == 'I' }

  /** `bps` in any letter case at `p`: a rate in bytes per second. */
  predicate BpsAt(s: seq<Byte>, p: nat)
  {
    IsB(At(s, p)) && (At(s, p + 1) == 'p' || At(s, p + 1) == 'P')
    && (At(s, p + 2) == 's' || At(s, p + 2) == 'S')
  }

  /** `bit` in any letter case at `p`: a rate in bits per second. */
  predicate BitAt(s: seq<Byte>, p: nat)
  {
    IsB(At(s, p)) && IsI(At(s, p + 1)) && (At(s, p + 2) == 't' || At(s, p + 2) == 'T')
  }

  /** The prefix at `p` and where it ends: a prefix letter followed by `i`
      or `I` is binary, a prefix letter alone decimal, anything else no
      prefix at all. */
  function PrefixAt(s: seq<Byte>, p: nat): (nat, nat)
  {
    var n := PrefixPower(At(s, p));
    if n == 0 then (1, p)
    else if IsI(At(s, p + 1)) then (BinaryScale(n), p + 2)
    else (DecimalScale(n), p + 1)
  }

  /** The unit at `p`, as a factor to bits, and where it ends: `bps` or a
      bare `B` count bytes (eight bits each), `bit` or a bare `b` count
      bits, and no unit counts bits. */
  function UnitAt(s: seq<Byte>, p: nat): (nat, nat)
  {
    if BpsAt(s, p) then (8, p + 3)
    else if BitAt(s, p) then (1, p + 3)
    else if At(s, p) == 'B' then (8, p + 1)
    else if At(s, p) == 'b' then (1, p + 1)
    else (1, p)
  }

  /** The meaning of `gcfg_parse_bandwidth`: the number in bits per second,
      scaled by its prefix and unit, failing when the rate does not fit in
      64 bits; prefix and unit are consumed. */
  function ParseBandwidthSpec(s: seq<Byte>, i: nat): Res<Value>
  {
    match DecNumSpec(s, i, U64_MAX)
    case Fail => Fail
    case Ok(v, n) =>
      var (scale, p) := PrefixAt(s, n);
      var (unit, q) := UnitAt(s, p);
      var rate := v * (scale * unit);
      if rate > U64_MAX then Fail
      else Ok(Value(TypeBandwidth, BitRate(rate), 0, 0), q)
  }

  /** The `PREFIX` step: a prefix letter is consumed, and a following `i`
      or `I` with it, selecting the binary scale. */
  method Prefix(s: seq<Byte>, p: nat) returns (scale: nat, q: nat)
    ensures (scale, q) == PrefixAt(s, p)
  {
    q := p;
    var n := PrefixPower(At(s, q));
    if n > 0 {
      q := q + 1;
      if At(s, q) == 'i' || At(s, q) == 'I' {
        q := q + 1;
        scale := BinaryScale(n);
      } else {
        scale := DecimalScale(n);
      }
    } else {
      scale := 1;
    }
  }

  /** `gcfg_parse_bandwidth`: the number, the prefix `switch` (each case
      consuming the letter and an optional `i`), the unit tests multiplying
      the scale by eight for bytes, the guard against the maximum divided
      by the scale, and the 64-bit product. */
  method ParseBandwidth(s: seq<Byte>, i: nat) returns (r: Res<Value>)
    ensures r == ParseBandwidthSpec(s, i)
  {
    var t := DecNumber(s, i, U64_MAX);
    if t.Fail? {
      return Fail;
    }
    var value := t.value;
    var p := t.next;
    var scale;
    scale, p := Prefix(s, p);
    ghost var unitStart := p;
    if IsB(At(s, p)) && (At(s, p + 1) == 'p' || At(s, p + 1) == 'P')
      && (At(s, p + 2) == 's' || At(s, p + 2) == 'S')
    {
      p := p + 3;
      scale := scale * 8;
    } else if IsB(At(s, p)) && IsI(At(s, p + 1)) && (At(s, p + 2) == 't' || At(s, p + 2) == 'T') {
      p := p + 3;
    } else if At(s, p) == 'B' {
      p := p + 1;
      scale := scale * 8;
    } else if At(s, p) == 'b' {
      p := p + 1;
    }
    assert scale == PrefixAt(s, t.next).0 * UnitAt(s, unitStart).0 && p == UnitAt(s, unitStart).1;
    QuotientBound(value, scale, U64_MAX);
    if value > U64_MAX / scale {
      return Fail;
    }
    var rate := value * scale % (U64_MAX + 1);
    return Ok(Value(TypeBandwidth, BitRate(rate), 0, 0), p);
  }

  /** The scale of a prefix of the given power, binary or decimal. */
  function Scale(n: nat, binary: bool): nat
  {
    if binary then BinaryScale(n) else DecimalScale(n)
  }

  /** `t` spells the prefix of power `n` (no prefix for 0), binary when it
      carries the `i`, in any letter case. */
  predicate PrefixSpelling(t: seq<Byte>, n: nat, binary: bool)
  {
    if n == 0 then t == [] && !binary
    else (n <= 4 && |t| == (if binary then 2 else 1) && PrefixPower(t[0]) == n
          && (binary ==> IsI(t[1])))
  }

  /** `u` spells a unit counting bytes or bits, in any letter case where
      the source accepts it. */
  predicate UnitSpelling(u: seq<Byte>, bytes: bool)
  {
    (u == [] && !bytes) || (u == ['b'] && !bytes) || (u == ['B'] && bytes)
    || (|u| == 3 && BitAt(u, 0) && !bytes) || (|u| == 3 && BpsAt(u, 0) && bytes)
  }

  /** A prefix spelling at `p` is read as its scale when what follows it
      neither names a prefix nor is an `i`. */
  lemma {:induction false} PrefixOfSpelling(s: seq<Byte>, p: nat, t: seq<Byte>, n: nat, binary: bool, y: seq<Byte>)
    requires p <= |s| && s[p..] == t + y && PrefixSpelling(t, n, binary)
    requires PrefixPower(At(y, 0)) == 0 && !IsI(At(y, 0))
    ensures PrefixAt(s, p) == (Scale(n, binary), p + |t|)
  {
    SplitSuffix(s, p, t, y);
    if n > 0 {
      assert At(s, p) == t[0];
      if binary {
        assert At(s, p + 1) == t[1];
      } else {
        assert At(s, p + 1) == At(y, 0);
      }
    }
  }

  /** A unit spelling at `q` is read as its factor when it is followed by
      something other than a letter. */
  lemma {:induction false} UnitOfSpelling(s: seq<Byte>, q: nat, u: seq<Byte>, bytes: bool, rest: seq<Byte>)
    requires q <= |s| && s[q..] == u + rest && UnitSpelling(u, bytes) && !IsAlpha(At(rest, 0))
    ensures UnitAt(s, q) == (if bytes then 8 else 1, q + |u|)
  {
    SplitSuffix(s, q, u, rest);
    if |u| == 3 {
      assert At(s, q) == u[0] && At(s, q + 1) == u[1] && At(s, q + 2) == u[2];
      assert At(u, 0) == u[0] && At(u, 1) == u[1] && At(u, 2) == u[2];
    } else if |u| == 1 {
      assert At(s, q) == u[0] && At(s, q + 1) == At(rest, 0);
    }
  }

  /** The text after the number, as the prefix and unit readers see it. */
  lemma {:induction false} UnitsText(d: seq<Byte>, t: seq<Byte>, u: seq<Byte>, rest: seq<Byte>)
    ensures d + t + u + rest == [] + d + (t + u + rest)
    ensures (d + t + u + rest)[|d|..] == t + (u + rest)
    ensures (d + t + u + rest)[|d| + |t|..] == u + rest
  {
  }

  /** Round trip: a canonical decimal number, any spelling of a prefix and
      of a unit, and then anything but a letter or digit, is read as the
      number scaled by prefix and unit exactly when that rate fits in 64
      bits, consuming number, prefix and unit. */
  lemma {:induction false} ParseBandwidthOfText(v: nat, t: seq<Byte>, n: nat, binary: bool, u: seq<Byte>, bytes: bool,
                             rest: seq<Byte>)
    requires PrefixSpelling(t, n, binary) && UnitSpelling(u, bytes)
    requires !IsDigit(At(rest, 0)) && !IsAlpha(At(rest, 0))
    ensures var rate := v * (Scale(n, binary) * (if bytes then 8 else 1));
      ParseBandwidthSpec(Decimal(v) + t + u + rest, 0)
        == if rate <= U64_MAX then Ok(Value(TypeBandwidth, BitRate(rate), 0, 0), |Decimal(v)| + |t| + |u|)
           else Fail
  {
    var d := Decimal(v);
    var s := d + t + u + rest;
    UnitsText(d, t, u, rest);
    FirstOfUnits(t, n, binary, u, bytes, rest);
    NumberOfText(s, v, t + u + rest);
    BandwidthOfSplit(s, v, |d|, t, n, binary, u, bytes, rest);
  }

  /** What follows the number starts with the prefix, else the unit, else
      the rest, and is not a digit. */
  lemma {:induction false} FirstOfUnits(t: seq<Byte>, n: nat, binary: bool, u: seq<Byte>, bytes: bool, rest: seq<Byte>)
    requires PrefixSpelling(t, n, binary) && UnitSpelling(u, bytes)
    requires !IsDigit(At(rest, 0)) && !IsAlpha(At(rest, 0))
    ensures At(u + rest, 0) == if u == [] then At(rest, 0) else u[0]
    ensures !IsDigit(At(t + u + rest, 0))
  {
    assert At(t + u + rest, 0) == if t == [] then At(u + rest, 0) else t[0];
  }

  /** The round trip over any text that splits into number, prefix, unit
      and rest. */
  lemma {:induction false} BandwidthOfSplit(s: seq<Byte>, v: nat, e: nat, t: seq<Byte>, n: nat, binary: bool,
                         u: seq<Byte>, bytes: bool, rest: seq<Byte>)
    requires PrefixSpelling(t, n, binary) && UnitSpelling(u, bytes)
    requires !IsDigit(At(rest, 0)) && !IsAlpha(At(rest, 0))
    requires e <= |s| && s[e..] == t + (u + rest) && e + |t| <= |s| && s[e + |t|..] == u + rest
    requires At(u + rest, 0) == if u == [] then At(rest, 0) else u[0]
    requires DecNumSpec(s, 0, U64_MAX) == if v <= U64_MAX then Ok(v, e) else Fail
    ensures var rate := v * (Scale(n, binary) * (if bytes then 8 else 1));
      ParseBandwidthSpec(s, 0)
        == if rate <= U64_MAX then Ok(Value(TypeBandwidth, BitRate(rate), 0, 0), e + |t| + |u|)
           else Fail
  {
    PrefixOfSpelling(s, e, t, n, binary, u + rest);
    UnitOfSpelling(s, e + |t|, u, bytes, rest);
    BandwidthOfParts(s, v, e, Scale(n, binary), e + |t|, if bytes then 8 else 1, e + |t| + |u|);
  }

  /** The number at the start of a text that spells it canonically. */
  lemma {:induction false} NumberOfText(s: seq<Byte>, v: nat, y: seq<Byte>)
    requires s == [] + Decimal(v) + y && !IsDigit(At(y, 0))
    ensures DecNumSpec(s, 0, U64_MAX) == if v <= U64_MAX then Ok(v, |Decimal(v)|) else Fail
  {
    DecNumOfDecimal([], v, y, U64_MAX);
  }

  /** The decoder's result from the readings of number, prefix and unit. */
  lemma {:induction false} BandwidthOfParts(s: seq<Byte>, v: nat, e: nat, scale: nat, p: nat, unit: nat, q: nat)
    requires DecNumSpec(s, 0, U64_MAX) == if v <= U64_MAX then Ok(v, e) else Fail
    requires PrefixAt(s, e) == (scale, p)
    requires UnitAt(s, p) == (unit, q)
    requires scale >= 1 && unit >= 1
    ensures ParseBandwidthSpec(s, 0)
         == if v * (scale * unit) <= U64_MAX then Ok(Value(TypeBandwidth, BitRate(v * (scale * unit)), 0, 0), q)
            else Fail
  {
    if v > U64_MAX {
      MulMonotone(1, unit, scale);
      assert v * (scale * unit) >= v by { MulMonotone(1, scale * unit, v); }
    }
  }


  /** The count of the samples takes three characters. */
  lemma {:induction false} HundredLength(hundred: nat)
    requires hundred == 100
    ensures |Decimal(hundred)| == 3
  {
    assert Decimal(hundred) == Decimal(10) + [DigitChar(0)] && |Decimal(10)| == 2;
  }

  /** Sample rate: "100kiB" is 819200 bits per second: a binary kilo of bytes. */
  lemma {:induction false} ParseBandwidthSampleKiB(hundred: nat)
    requires hundred == 100
    ensures ParseBandwidthSpec(Decimal(hundred) + "kiB", 0) == Ok(Value(TypeBandwidth, BitRate(819200), 0, 0), 6)
  {
    HundredLength(hundred);
    ParseBandwidthOfText(hundred, "ki", 1, true, "B", true, []);
    assert Decimal(hundred) + "kiB" == Decimal(hundred) + "ki" + "B" + [];
  }

  /** Sample rate: "100kbps" is 800000 bits per second: a decimal kilo of bytes. */
  lemma {:induction false} ParseBandwidthSampleKbps(hundred: nat)
    requires hundred == 100
    ensures ParseBandwidthSpec(Decimal(hundred) + "kbps", 0) == Ok(Value(TypeBandwidth, BitRate(800000), 0, 0), 7)
  {
    HundredLength(hundred);
    ParseBandwidthOfText(hundred, "k", 1, false, "bps", true, []);
    assert Decimal(hundred) + "kbps" == Decimal(hundred) + "k" + "bps" + [];
  }

  /** Sample rate: "100Bit" is 100 bits per second: the unit is read in any letter case. */
  lemma {:induction false} ParseBandwidthSampleBit(hundred: nat)
    requires hundred == 100
    ensures ParseBandwidthSpec(Decimal(hundred) + "Bit", 0) == Ok(Value(TypeBandwidth, BitRate(100), 0, 0), 6)
  {
    HundredLength(hundred);
    ParseBandwidthOfText(hundred, [], 0, false, "Bit", false, []);
    assert Decimal(hundred) + "Bit" == Decimal(hundred) + [] + "Bit" + [];
  }

  /** Sample rate: "100mibps" is 838860800 bits per second: a binary mega of bytes. */
  lemma {:induction false} ParseBandwidthSampleMibps(hundred: nat)
    requires hundred == 100
    ensures ParseBandwidthSpec(Decimal(hundred) + "mibps", 0) == Ok(Value(TypeBandwidth, BitRate(838860800), 0, 0), 8)
  {
    HundredLength(hundred);
    ParseBandwidthOfText(hundred, "mi", 2, true, "bps", true, []);
    assert Decimal(hundred) + "mibps" == Decimal(hundred) + "mi" + "bps" + [];
  }

  /** Refused rates: a sign, a unit without a number, and a word. */
  lemma {:induction false} ParseBandwidthRefusals()
    ensures ParseBandwidthSpec("-100k", 0) == Fail
    ensures ParseBandwidthSpec("kbit", 0) == Fail
    ensures ParseBandwidthSpec("foobar", 0) == Fail
  {
  }
}
