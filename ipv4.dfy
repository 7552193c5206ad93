/** `gcfg_ipv4address` and `gcfg_parse_ipv4`: an IPv4 address in dotted-quad
    form, optionally followed by a CIDR prefix length (section 3.1 of
    RFC 4632). */
module Ipv4 {
  import opened Base
  import opened DecNum
  import opened Values

  /** Fields `k` to 3 of a dotted quad starting at `p`, with `acc` holding the
      octets already packed, most significant first. */
  function OctetsFrom(s: seq<Byte>, p: nat, k: nat, acc: nat): Res<nat>
    requires k <= 4
    decreases 4 - k
  {
    if k == 4 then Ok(acc, p)
    else if k > 0 && At(s, p) != '.' then Fail
    else
      var q := if k > 0 then p + 1 else p;
      match DecNumSpec(s, q, 255)
      case Fail => Fail
      case Ok(o, r) => OctetsFrom(s, r, k + 1, acc * 0x100 + o)
  }

  /** The meaning of `gcfg_ipv4address`: four octets, each a decimal number
      of at most 255 and separated by single dots, packed big-endian. */
  function Ipv4AddressSpec(s: seq<Byte>, i: nat): Res<nat>
  {
    OctetsFrom(s, i, 0, 0)
  }

  /** The `gcfg_ipv4address` loop: one `gcfg_dec_num` per octet, a dot
      before every octet but the first, shifting each octet in. */
  method Ipv4Address(s: seq<Byte>, i: nat) returns (r: Res<nat>)
    ensures r == Ipv4AddressSpec(s, i)
  {
    var out: nat := 0;
    var p := i;
    for k := 0 to 4
      invariant OctetsFrom(s, p, k, out) == Ipv4AddressSpec(s, i)
    {
      if k > 0 {
        if At(s, p) != '.' {
          return Fail;
        }
        p := p + 1;
      }
      var t := DecNumber(s, p, 255);
      if t.Fail? {
        return Fail;
      }
      out := out * 0x100 + t.value;
      p := t.next;
    }
    return Ok(out, p);
  }

  /** Four octets packed big-endian into one 32-bit word. */
  function Pack(a: nat, b: nat, c: nat, d: nat): nat
  {
    ((a * 0x100 + b) * 0x100 + c) * 0x100 + d
  }

  /** The dotted-quad spelling of four octets, each in canonical decimal. */
  function Dotted(a: nat, b: nat, c: nat, d: nat): seq<Byte>
  {
    Decimal(a) + (['.'] + (Decimal(b) + (['.'] + (Decimal(c) + (['.'] + Decimal(d))))))
  }

  /** Division by the byte, half-word and three-byte place values, for the
      unpacking below. */
  lemma {:induction false} DivModPlace(x: nat, n: nat, q: nat, r: nat)
    requires n == 0x100 || n == 0x1_0000 || n == 0x100_0000
    requires r < n && x == q * n + r
    ensures x / n == q && x % n == r
  {
    if n == 0x100 {
    } else if n == 0x1_0000 {
    } else {
    }
  }

  /** Packing is one-to-one: the word fits in 32 bits and each octet is
      read back from its place. */
  lemma {:induction false} PackOctets(a: nat, b: nat, c: nat, d: nat)
    requires a < 0x100 && b < 0x100 && c < 0x100 && d < 0x100
    ensures var v := Pack(a, b, c, d);
      v < U32_LIMIT && v / 0x100_0000 == a && v / 0x1_0000 % 0x100 == b
      && v / 0x100 % 0x100 == c && v % 0x100 == d
  {
    var v := Pack(a, b, c, d);
    DivModPlace(v, 0x100, (a * 0x100 + b) * 0x100 + c, d);
    DivModPlace(v, 0x1_0000, a * 0x100 + b, c * 0x100 + d);
    DivModPlace(v, 0x100_0000, a, (b * 0x100 + c) * 0x100 + d);
    DivModPlace(a * 0x100 + b, 0x100, a, b);
    DivModPlace((a * 0x100 + b) * 0x100 + c, 0x100, a * 0x100 + b, c);
  }

  /** One field of the loop, unfolded. */
  lemma {:induction false} OctetStep(s: seq<Byte>, p: nat, k: nat, acc: nat)
    requires k < 4 && (k > 0 ==> At(s, p) == '.')
    ensures var q := if k > 0 then p + 1 else p;
      OctetsFrom(s, p, k, acc) == match DecNumSpec(s, q, 255)
        case Fail => Fail
        case Ok(o, r) => OctetsFrom(s, r, k + 1, acc * 0x100 + o)
  {
  }

  /** The loop only looks at the text from its position on, so it reads
      the same off any suffix that contains that position. */
  lemma {:induction false} OctetsShift(s: seq<Byte>, q: nat, p: nat, k: nat, acc: nat)
    requires q <= p && q <= |s| && k <= 4
    ensures OctetsFrom(s, p, k, acc) == Shifted(OctetsFrom(s[q..], p - q, k, acc), q)
    decreases 4 - k
  {
    if k < 4 {
      assert At(s, p) == At(s[q..], p - q);
      var p' := if k > 0 then p + 1 else p;
      DecNumShift(s, q, p', 255);
      match DecNumSpec(s, p', 255)
      case Fail =>
      case Ok(o, r) =>
        OctetsShift(s, q, r, k + 1, acc * 0x100 + o);
    }
  }

  /** The first field of `x`, preceded by its dot unless it is the first
      one, spelling `n`: the loop reads it as `n` when that is an octet and
      refuses it otherwise, then goes on with `y`. */
  lemma {:induction false} FieldOfDecimal(x: seq<Byte>, pre: seq<Byte>, k: nat, acc: nat, n: nat, y: seq<Byte>)
    requires k < 4 && pre == (if k > 0 then ['.'] else []) && !IsDigit(At(y, 0))
    requires x == pre + Decimal(n) + y
    ensures |x| == |pre| + |Decimal(n)| + |y|
    ensures OctetsFrom(x, 0, k, acc)
         == if n < 0x100 then Shifted(OctetsFrom(y, 0, k + 1, acc * 0x100 + n), |x| - |y|)
            else Fail
  {
    FieldText(pre, Decimal(n), y);
    DecNumOfDecimal(pre, n, y, 255);
    FieldRead(x, k, acc, |pre|, n, |x| - |y|, y);
  }

  /** A field's text between its prefix and the rest, as positions. */
  lemma {:induction false} FieldText(pre: seq<Byte>, d: seq<Byte>, y: seq<Byte>)
    ensures var x := pre + d + y;
      |x| == |pre| + |d| + |y| && x[|x| - |y|..] == y && (pre != [] ==> At(x, 0) == pre[0])
  {
    var x := pre + d + y;
    assert x[|x| - |y|..] == y;
  }

  /** The loop's step over a field that `gcfg_dec_num` reads as `n` up to
      `e`, then the rest of the loop on the text from `e` on. */
  lemma {:induction false} FieldRead(x: seq<Byte>, k: nat, acc: nat, q: nat, n: nat, e: nat, y: seq<Byte>)
    requires k < 4 && (k > 0 ==> At(x, 0) == '.') && q == (if k > 0 then 1 else 0)
    requires e <= |x| && x[e..] == y
    requires DecNumSpec(x, q, 255) == if n < 0x100 then Ok(n, e) else Fail
    ensures OctetsFrom(x, 0, k, acc)
         == if n < 0x100 then Shifted(OctetsFrom(y, 0, k + 1, acc * 0x100 + n), e) else Fail
  {
    OctetStep(x, 0, k, acc);
    if n < 0x100 {
      OctetsShift(x, e, e, k + 1, acc * 0x100 + n);
    }
  }

  /** `t` is the dotted-quad spelling of four octets whose packing is `v`. */
  predicate SpellsAddress(t: seq<Byte>, v: nat)
  {
    exists a, b, c, d :: a < 0x100 && b < 0x100 && c < 0x100 && d < 0x100
      && v == Pack(a, b, c, d) && t == Dotted(a, b, c, d)
  }

  /** Text `x`, a dot, then text `y`, read off a slice. */
  lemma {:induction false} JoinAtDot(s: seq<Byte>, i: nat, j: nat, k: nat, x: seq<Byte>, y: seq<Byte>)
    requires i <= j < k <= |s| && s[j] == '.'
    requires s[i..j] == x && s[j + 1..k] == y
    ensures s[i..k] == x + (['.'] + y)
  {
    assert s[i..k] == s[i..j] + ([s[j]] + s[j + 1..k]);
  }

  /** The four fields of an accepted address, as `gcfg_dec_num` reads
      them. */
  lemma {:induction false} Ipv4Fields(s: seq<Byte>, i: nat) returns (a: nat, b: nat, c: nat, d: nat, p1: nat, p2: nat, p3: nat, p4: nat)
    requires Ipv4AddressSpec(s, i).Ok?
    ensures DecNumSpec(s, i, 255) == Ok(a, p1) && At(s, p1) == '.'
    ensures DecNumSpec(s, p1 + 1, 255) == Ok(b, p2) && At(s, p2) == '.'
    ensures DecNumSpec(s, p2 + 1, 255) == Ok(c, p3) && At(s, p3) == '.'
    ensures DecNumSpec(s, p3 + 1, 255) == Ok(d, p4)
    ensures Ipv4AddressSpec(s, i) == Ok(Pack(a, b, c, d), p4)
  {
    OctetStep(s, i, 0, 0);
    var r1 := DecNumSpec(s, i, 255);
    a, p1 := r1.value, r1.next;
    OctetStep(s, p1, 1, a);
    var r2 := DecNumSpec(s, p1 + 1, 255);
    b, p2 := r2.value, r2.next;
    OctetStep(s, p2, 2, a * 0x100 + b);
    var r3 := DecNumSpec(s, p2 + 1, 255);
    c, p3 := r3.value, r3.next;
    OctetStep(s, p3, 3, (a * 0x100 + b) * 0x100 + c);
    var r4 := DecNumSpec(s, p3 + 1, 255);
    d, p4 := r4.value, r4.next;
  }

  /** Four decimal fields joined by dots, read off a slice. */
  lemma {:induction false} DottedOfFields(s: seq<Byte>, i: nat, p1: nat, p2: nat, p3: nat, p4: nat, a: nat, b: nat, c: nat, d: nat)
    requires i < p1 < p2 < p3 < p4 <= |s| && s[p1] == '.' && s[p2] == '.' && s[p3] == '.'
    requires s[i..p1] == Decimal(a) && s[p1 + 1..p2] == Decimal(b)
    requires s[p2 + 1..p3] == Decimal(c) && s[p3 + 1..p4] == Decimal(d)
    ensures s[i..p4] == Dotted(a, b, c, d)
  {
    JoinAtDot(s, p2 + 1, p3, p4, Decimal(c), Decimal(d));
    JoinAtDot(s, p1 + 1, p2, p4, Decimal(b), Decimal(c) + (['.'] + Decimal(d)));
    JoinAtDot(s, i, p1, p4, Decimal(a), Decimal(b) + (['.'] + (Decimal(c) + (['.'] + Decimal(d)))));
  }

  /** What is accepted is exactly the dotted-quad spelling of four octets,
      and the result is their packing; the text after the fourth octet does
      not continue it and is left unread. */
  lemma {:induction false} Ipv4AddressAccepts(s: seq<Byte>, i: nat)
    requires Ipv4AddressSpec(s, i).Ok?
    ensures var r := Ipv4AddressSpec(s, i);
      i < r.next <= |s| && SpellsAddress(s[i..r.next], r.value) && !IsDigit(At(s, r.next))
  {
    var a, b, c, d, p1, p2, p3, p4 := Ipv4Fields(s, i);
    DecNumAccepts(s, i, 255);
    DecNumAccepts(s, p1 + 1, 255);
    DecNumAccepts(s, p2 + 1, 255);
    DecNumAccepts(s, p3 + 1, 255);
    DottedOfFields(s, i, p1, p2, p3, p4, a, b, c, d);
  }

  /** A field followed by text the loop reads on from the next field:
      the loop reads the field and then that text. */
  lemma {:induction false} FieldThen(pre: seq<Byte>, k: nat, acc: nat, n: nat, y: seq<Byte>, good: bool, w: nat, l: nat)
    requires k < 4 && pre == (if k > 0 then ['.'] else []) && !IsDigit(At(y, 0))
    requires OctetsFrom(y, 0, k + 1, acc * 0x100 + n) == if good then Ok(w, l) else Fail
    ensures OctetsFrom(pre + Decimal(n) + y, 0, k, acc)
         == if n < 0x100 && good then Ok(w, |pre| + |Decimal(n)| + l) else Fail
  {
    FieldOfDecimal(pre + Decimal(n) + y, pre, k, acc, n, y);
  }

  /** The fourth field, after its dot. */
  lemma {:induction false} LastField(acc: nat, d: nat, rest: seq<Byte>)
    requires !IsDigit(At(rest, 0))
    ensures OctetsFrom(['.'] + Decimal(d) + rest, 0, 3, acc)
         == if d < 0x100 then Ok(acc * 0x100 + d, 1 + |Decimal(d)|) else Fail
  {
    assert OctetsFrom(rest, 0, 4, acc * 0x100 + d) == Ok(acc * 0x100 + d, 0);
    FieldThen(['.'], 3, acc, d, rest, true, acc * 0x100 + d, 0);
  }

  /** The third and fourth fields. */
  lemma {:induction false} LastTwoFields(acc: nat, c: nat, d: nat, rest: seq<Byte>)
    requires !IsDigit(At(rest, 0))
    ensures var y := ['.'] + Decimal(d) + rest;
      OctetsFrom(['.'] + Decimal(c) + y, 0, 2, acc)
      == if c < 0x100 && d < 0x100 then Ok((acc * 0x100 + c) * 0x100 + d, 2 + |Decimal(c)| + |Decimal(d)|) else Fail
  {
    LastField(acc * 0x100 + c, d, rest);
    FieldThen(['.'], 2, acc, c, ['.'] + Decimal(d) + rest, d < 0x100, (acc * 0x100 + c) * 0x100 + d, 1 + |Decimal(d)|);
  }

  /** The second, third and fourth fields. */
  lemma {:induction false} LastThreeFields(acc: nat, b: nat, c: nat, d: nat, rest: seq<Byte>)
    requires !IsDigit(At(rest, 0))
    ensures var y := ['.'] + Decimal(c) + (['.'] + Decimal(d) + rest);
      OctetsFrom(['.'] + Decimal(b) + y, 0, 1, acc)
      == if b < 0x100 && c < 0x100 && d < 0x100
         then Ok(((acc * 0x100 + b) * 0x100 + c) * 0x100 + d, 3 + |Decimal(b)| + |Decimal(c)| + |Decimal(d)|) else Fail
  {
    LastTwoFields(acc * 0x100 + b, c, d, rest);
    FieldThen(['.'], 1, acc, b, ['.'] + Decimal(c) + (['.'] + Decimal(d) + rest), c < 0x100 && d < 0x100,
              ((acc * 0x100 + b) * 0x100 + c) * 0x100 + d, 2 + |Decimal(c)| + |Decimal(d)|);
  }

  /** The dotted quad and the rest, as the field readers see it. */
  lemma {:induction false} QuadText(a: nat, b: nat, c: nat, d: nat, rest: seq<Byte>)
    ensures Dotted(a, b, c, d) + rest == [] + Decimal(a) + (['.'] + Decimal(b) + (['.'] + Decimal(c) + (['.'] + Decimal(d) + rest)))
    ensures |Dotted(a, b, c, d)| == 3 + |Decimal(a)| + |Decimal(b)| + |Decimal(c)| + |Decimal(d)|
  {
  }

  /** Round trip: the dotted-quad spelling of four octets, followed by
      anything that does not continue the last one, is read back as their
      packing and consumed entirely; an octet above 255 is refused. */
  lemma {:induction false} Ipv4AddressOfDotted(a: nat, b: nat, c: nat, d: nat, rest: seq<Byte>)
    requires !IsDigit(At(rest, 0))
    ensures Ipv4AddressSpec(Dotted(a, b, c, d) + rest, 0)
         == if a < 0x100 && b < 0x100 && c < 0x100 && d < 0x100
            then Ok(Pack(a, b, c, d), |Dotted(a, b, c, d)|) else Fail
  {
    QuadText(a, b, c, d, rest);
    LastThreeFields(a, b, c, d, rest);
    FieldThen([], 0, 0, a, ['.'] + Decimal(b) + (['.'] + Decimal(c) + (['.'] + Decimal(d) + rest)),
              b < 0x100 && c < 0x100 && d < 0x100, Pack(a, b, c, d), 3 + |Decimal(b)| + |Decimal(c)| + |Decimal(d)|);
  }

  /** The meaning of `gcfg_parse_ipv4`: an address, then either a blank or
      the end of the text (prefix length 32, no mask flag) or `/` and a
      decimal prefix length of at most 32 (mask flag set). */
  function ParseIpv4Spec(s: seq<Byte>, i: nat): Res<Value>
  {
    match Ipv4AddressSpec(s, i)
    case Fail => Fail
    case Ok(a, p) =>
      var c := At(s, p);
      if c == ' ' || c == '\t' || c == '\0' then
        Ok(Value(TypeIpv4, Ipv4Addr(a), 0, 32), p)
      else if c != '/' then Fail
      else
        match DecNumSpec(s, p + 1, 32)
        case Fail => Fail
        case Ok(m, q) => Ok(Value(TypeIpv4, Ipv4Addr(a), HAVE_MASK, m), q)
  }

  /** `gcfg_parse_ipv4`: the address, then the prefix length, set field by
      field. */
  method ParseIpv4(s: seq<Byte>, i: nat) returns (r: Res<Value>)
    ensures r == ParseIpv4Spec(s, i)
  {
    var a := Ipv4Address(s, i);
    if a.Fail? {
      return Fail;
    }
    var p := a.next;
    var flags := 0;
    var mask;
    if At(s, p) == ' ' || At(s, p) == '\t' || At(s, p) == '\0' {
      mask := 32;
    } else {
      if At(s, p) != '/' {
        return Fail;
      }
      var t := DecNumber(s, p + 1, 32);
      if t.Fail? {
        return Fail;
      }
      mask := t.value;
      flags := flags + HAVE_MASK;
      p := t.next;
    }
    return Ok(Value(TypeIpv4, Ipv4Addr(a.value), flags, mask), p);
  }

  /** After an address, `/` and a prefix length. */
  lemma {:induction false} ParseIpv4Masked(s: seq<Byte>, i: nat, a: nat, p: nat)
    requires Ipv4AddressSpec(s, i) == Ok(a, p) && At(s, p) == '/'
    ensures var d := DecNumSpec(s, p + 1, 32);
      ParseIpv4Spec(s, i) == if d.Ok? then Ok(Value(TypeIpv4, Ipv4Addr(a), HAVE_MASK, d.value), d.next) else Fail
  {
  }

  /** A `/` before the text `d` of a slice. */
  lemma {:induction false} SlashBefore(s: seq<Byte>, p: nat, q: nat, d: seq<Byte>)
    requires p < q <= |s| && s[p] == '/' && s[p + 1..q] == d
    ensures s[p..q] == ['/'] + d
  {
    assert s[p..q] == [s[p]] + s[p + 1..q];
  }

  /** Everything accepted is an IPv4 value whose prefix length is at most
      32. Its consumed text is the dotted quad of the address alone, with no
      mask flag and prefix length 32, followed by a blank or the end; or the
      dotted quad, `/` and the prefix length in canonical decimal, with the
      mask flag. */
  lemma {:induction false} ParseIpv4Accepts(s: seq<Byte>, i: nat)
    requires ParseIpv4Spec(s, i).Ok?
    ensures var r := ParseIpv4Spec(s, i);
      var v := r.value;
      v.vtype == TypeIpv4 && v.data.Ipv4Addr? && v.cidrMask <= 32 && i < r.next <= |s|
      && (v.flags == 0 || v.flags == HAVE_MASK)
      && (v.flags == 0 ==>
            v.cidrMask == 32 && SpellsAddress(s[i..r.next], v.data.ipv4)
            && At(s, r.next) in {' ', '\t', '\0'})
      && (v.flags == HAVE_MASK ==>
            var p := r.next - 1 - |Decimal(v.cidrMask)|;
            i < p && SpellsAddress(s[i..p], v.data.ipv4)
            && s[p..r.next] == ['/'] + Decimal(v.cidrMask) && !IsDigit(At(s, r.next)))
  {
    Ipv4AddressAccepts(s, i);
    var a := Ipv4AddressSpec(s, i);
    if At(s, a.next) == '/' {
      ParseIpv4Masked(s, i, a.value, a.next);
      DecNumAccepts(s, a.next + 1, 32);
      var d := DecNumSpec(s, a.next + 1, 32);
      SlashBefore(s, a.next, d.next, Decimal(d.value));
    }
  }

  /** Round trip without a mask: a dotted quad followed by a blank or the
      end is an address with prefix length 32 and no mask flag. */
  lemma {:induction false} ParseIpv4OfDotted(a: nat, b: nat, c: nat, d: nat, rest: seq<Byte>)
    requires a < 0x100 && b < 0x100 && c < 0x100 && d < 0x100
    requires At(rest, 0) in {' ', '\t', '\0'}
    ensures ParseIpv4Spec(Dotted(a, b, c, d) + rest, 0)
         == Ok(Value(TypeIpv4, Ipv4Addr(Pack(a, b, c, d)), 0, 32), |Dotted(a, b, c, d)|)
  {
    Ipv4AddressOfDotted(a, b, c, d, rest);
    assert At(Dotted(a, b, c, d) + rest, |Dotted(a, b, c, d)|) == At(rest, 0);
  }

  /** Round trip with a mask: a dotted quad, `/` and a prefix length that
      is followed by a non-digit is read back with that prefix length and
      the mask flag when it is at most 32, and refused above 32. */
  lemma {:induction false} ParseIpv4OfCidr(a: nat, b: nat, c: nat, d: nat, m: nat, rest: seq<Byte>)
    requires a < 0x100 && b < 0x100 && c < 0x100 && d < 0x100
    requires !IsDigit(At(rest, 0))
    ensures ParseIpv4Spec(Dotted(a, b, c, d) + ['/'] + Decimal(m) + rest, 0)
         == if m <= 32
            then Ok(Value(TypeIpv4, Ipv4Addr(Pack(a, b, c, d)), HAVE_MASK, m),
                    |Dotted(a, b, c, d)| + 1 + |Decimal(m)|)
            else Fail
  {
    Ipv4AddressOfDotted(a, b, c, d, ['/'] + Decimal(m) + rest);
    MaskAfter(Dotted(a, b, c, d), Pack(a, b, c, d), m, rest);
  }

  /** Any address text `t` that the address reader reads up to its end,
      followed by `/` and a prefix length. */
  lemma {:induction false} MaskAfter(t: seq<Byte>, v: nat, m: nat, rest: seq<Byte>)
    requires Ipv4AddressSpec(t + (['/'] + Decimal(m) + rest), 0) == Ok(v, |t|)
    requires !IsDigit(At(rest, 0))
    ensures ParseIpv4Spec(t + ['/'] + Decimal(m) + rest, 0)
         == if m <= 32 then Ok(Value(TypeIpv4, Ipv4Addr(v), HAVE_MASK, m), |t| + 1 + |Decimal(m)|)
            else Fail
  {
    CidrText(t, Decimal(m), rest);
    DecNumOfDecimal(t + ['/'], m, rest, 32);
    ParseIpv4Masked(t + ['/'] + Decimal(m) + rest, 0, v, |t|);
  }

  /** The address text, `/`, the prefix text and the rest, grouped the two
      ways the readers see them. */
  lemma {:induction false} CidrText(t: seq<Byte>, d: seq<Byte>, rest: seq<Byte>)
    ensures t + ['/'] + d + rest == t + (['/'] + d + rest)
    ensures At(t + ['/'] + d + rest, |t|) == '/'
  {
  }

  /** Decimal spellings used by the samples. */
  lemma {:induction false} SampleDecimals()
    ensures Decimal(192) == "192" && Decimal(168) == "168" && Decimal(0) == "0" && Decimal(1) == "1"
    ensures Decimal(24) == "24"
  {
  }

  /** Decimal spellings used by the refused samples. */
  lemma {:induction false} RefusedDecimals()
    ensures Decimal(259) == "259" && Decimal(512) == "512" && Decimal(892) == "892" && Decimal(42) == "42"
  {
  }

  /** The sample address's text. */
  lemma {:induction false} SampleText()
    ensures Dotted(192, 168, 0, 1) == "192.168.0.1"
  {
    SampleDecimals();
    assert "192" + (['.'] + ("168" + (['.'] + ("0" + (['.'] + "1")))))  == "192.168.0.1";
  }

  /** Sample address: "192.168.0.1" packs to C0A80001, and the prefix
      length after the fourth octet is left unread. */
  lemma {:induction false} Ipv4AddressSample()
    ensures Ipv4AddressSpec("192.168.0.1/24", 0) == Ok(0xC0A8_0001, 11)
  {
    SampleText();
    Ipv4AddressOfDotted(192, 168, 0, 1, "/24");
    assert "192.168.0.1/24" == Dotted(192, 168, 0, 1) + "/24";
  }

  /** The dotted triple and the rest, as the field readers see it. */
  lemma {:induction false} TripleText(a: nat, b: nat, c: nat, rest: seq<Byte>)
    ensures Decimal(a) + (['.'] + (Decimal(b) + (['.'] + Decimal(c)))) + rest
         == [] + Decimal(a) + (['.'] + Decimal(b) + (['.'] + Decimal(c) + rest))
  {
  }

  /** Three fields not followed by a dot are refused, whatever their
      values. */
  lemma {:induction false} Ipv4RefusesThreeFields(a: nat, b: nat, c: nat, rest: seq<Byte>)
    requires !IsDigit(At(rest, 0)) && At(rest, 0) != '.'
    ensures Ipv4AddressSpec(Decimal(a) + (['.'] + (Decimal(b) + (['.'] + Decimal(c)))) + rest, 0) == Fail
  {
    TripleText(a, b, c, rest);
    FieldThen(['.'], 2, a * 0x100 + b, c, rest, false, 0, 0);
    FieldThen(['.'], 1, a, b, ['.'] + Decimal(c) + rest, false, 0, 0);
    FieldThen([], 0, 0, a, ['.'] + Decimal(b) + (['.'] + Decimal(c) + rest), false, 0, 0);
  }

  /** Refused addresses: an octet above 255, and a missing fourth octet. */
  lemma {:induction false} Ipv4AddressRefusals()
    ensures Ipv4AddressSpec("259.512.892.42", 0) == Fail
    ensures Ipv4AddressSpec("192.168.0", 0) == Fail
  {
    RefusedDecimals();
    SampleDecimals();
    Ipv4AddressOfDotted(259, 512, 892, 42, []);
    Ipv4RefusesThreeFields(192, 168, 0, []);
    assert "259.512.892.42" == "259" + (['.'] + ("512" + (['.'] + ("892" + (['.'] + "42"))))) + [];
    assert "192.168.0" == "192" + (['.'] + ("168" + (['.'] + "0"))) + [];
  }

  /** Sample CIDR value: "192.168.0.1/24" is the address with prefix
      length 24 and the mask flag. */
  lemma {:induction false} ParseIpv4Sample()
    ensures ParseIpv4Spec("192.168.0.1/24", 0)
         == Ok(Value(TypeIpv4, Ipv4Addr(0xC0A8_0001), HAVE_MASK, 24), 14)
  {
    SampleText();
    SampleDecimals();
    ParseIpv4OfCidr(192, 168, 0, 1, 24, []);
    assert "192.168.0.1/24" == Dotted(192, 168, 0, 1) + ['/'] + Decimal(24) + [];
  }

  /** An address followed by anything but a blank, the end or `/` is
      refused (as in "192.168.0.1foo"). */
  lemma {:induction false} ParseIpv4RefusesTrailing(a: nat, b: nat, c: nat, d: nat, rest: seq<Byte>)
    requires !IsDigit(At(rest, 0)) && At(rest, 0) !in {' ', '\t', '\0', '/'}
    ensures ParseIpv4Spec(Dotted(a, b, c, d) + rest, 0) == Fail
  {
    Ipv4AddressOfDotted(a, b, c, d, rest);
    assert At(Dotted(a, b, c, d) + rest, |Dotted(a, b, c, d)|) == At(rest, 0);
  }

  /** A `/` not followed by a digit is refused (as in "192.168.0.1/-1"). */
  lemma {:induction false} ParseIpv4RefusesBadMask(a: nat, b: nat, c: nat, d: nat, rest: seq<Byte>)
    requires !IsDigit(At(rest, 0))
    ensures ParseIpv4Spec(Dotted(a, b, c, d) + (['/'] + rest), 0) == Fail
  {
    var s := Dotted(a, b, c, d) + (['/'] + rest);
    Ipv4AddressOfDotted(a, b, c, d, ['/'] + rest);
    var n := |Dotted(a, b, c, d)|;
    assert At(s, n) == '/' && At(s, n + 1) == At(rest, 0);
  }
}
