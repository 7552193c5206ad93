/** `gcfg_parse_ipv6`: an IPv6 address in the text form of section 2.2 of
    RFC 4291, built from the `h16` and `ls32` productions of section 3.2.2 of
    RFC 3986, optionally followed by a prefix length. */
module Ipv6 {
  import opened Base
  import opened DecNum
  import opened Ipv4
  import opened Values

  // ---------------------------------------------------------------------
  // h16: one group of one to four hexadecimal digits

  /** The `h16` digit loop from `p`, with `n` digits already read into
      `acc`: it stops after the fourth digit or at the first byte that is
      not one. */
  function HexRun(s: seq<Byte>, p: nat, n: nat, acc: nat): Res<nat>
    requires n <= 4
    decreases 4 - n
  {
    if n == 4 || !IsHexDigit(At(s, p + n)) then Ok(acc, p + n)
    else HexRun(s, p, n + 1, acc * 16 + Xdigit(At(s, p + n)))
  }

  /** The meaning of `h16`: fails unless a hex digit comes first, otherwise
      reads up to four of them. */
  function H16Spec(s: seq<Byte>, p: nat): Res<nat>
  {
    if !IsHexDigit(At(s, p)) then Fail else HexRun(s, p, 0, 0)
  }

  /** The number of hex digits from `p` that the loop reads, having read
      `n` already: up to the fourth, or up to the first other byte. */
  function HexSpan(s: seq<Byte>, p: nat, n: nat): (e: nat)
    requires n <= 4
    ensures n <= e <= 4 && (n < e ==> p + e <= |s|)
    ensures forall k :: p + n <= k < p + e ==> IsHexDigit(At(s, k))
    ensures e < 4 ==> !IsHexDigit(At(s, p + e))
    decreases 4 - n
  {
    if n == 4 || !IsHexDigit(At(s, p + n)) then n else HexSpan(s, p, n + 1)
  }

  /** `h16`: the accumulator is a 16-bit word, shifted left four bits per
      digit; the truncation never discards a bit, since at most four digits
      are read. */
  method H16(s: seq<Byte>, p: nat) returns (r: Res<nat>)
    ensures r == H16Spec(s, p)
  {
    if Xdigit(At(s, p)) < 0 {
      return Fail;
    }
    var out: nat := 0;
    var i: nat := 0;
    while i < 4 && Xdigit(At(s, p + i)) >= 0
      invariant i <= 4
      invariant (i == 0 ==> out == 0) && (i <= 1 ==> out < 0x10)
      invariant (i <= 2 ==> out < 0x100) && (i <= 3 ==> out < 0x1000)
      invariant HexRun(s, p, i, out) == H16Spec(s, p)
      decreases 4 - i
    {
      NoCarry(out);
      out := (out * 16) % 0x1_0000 + Xdigit(At(s, p + i));
      i := i + 1;
    }
    return Ok(out, p + i);
  }

  /** Below `0x1000`, the 16-bit shift by four bits loses nothing, and the
      digit fills the four bits it frees. */
  lemma {:induction false} NoCarry(out: nat)
    requires out < 0x1000
    ensures (out * 16) % 0x1_0000 == out * 16 && out * 16 + 15 < 0x1_0000
  {
  }

  predicate AllHex(d: seq<Byte>)
  {
    forall k :: 0 <= k < |d| ==> IsHexDigit(d[k])
  }

  /** The value of a run of hex digits, most significant first. */
  function HexValue(d: seq<Byte>): nat
    requires AllHex(d)
  {
    if d == [] then 0 else HexValue(d[..|d| - 1]) * 16 + Xdigit(d[|d| - 1])
  }

  /** The digit loop from `n` on reads what is left of a run of `e` hex
      digits, `e` at most four, and ends right after it with the run's
      value. */
  lemma {:induction false} HexRunIsValue(s: seq<Byte>, p: nat, n: nat, e: nat)
    requires n <= e <= 4 && p + e <= |s|
    requires forall k :: p <= k < p + e ==> IsHexDigit(At(s, k))
    requires e < 4 ==> !IsHexDigit(At(s, p + e))
    ensures AllHex(s[p..p + n]) && AllHex(s[p..p + e])
    ensures HexRun(s, p, n, HexValue(s[p..p + n])) == Ok(HexValue(s[p..p + e]), p + e)
    decreases e - n
  {
    HexSlice(s, p, n);
    HexSlice(s, p, e);
    if n < e {
      HexSlice(s, p, n + 1);
      HexValueStep(s, p, n);
      HexRunIsValue(s, p, n + 1, e);
      HexRunChain(s, p, n, HexValue(s[p..p + n]), HexValue(s[p..p + n + 1]), Ok(HexValue(s[p..p + e]), p + e));
    }
  }

  /** A pass of the digit loop followed by the rest of the loop. */
  lemma HexRunChain(s: seq<Byte>, p: nat, n: nat, acc: nat, next: nat, r: Res<nat>)
    requires n < 4 && IsHexDigit(At(s, p + n)) && next == acc * 16 + Xdigit(At(s, p + n))
    requires HexRun(s, p, n + 1, next) == r
    ensures HexRun(s, p, n, acc) == r
  {
    HexRunStep(s, p, n, acc);
  }

  /** One pass of the `h16` digit loop. */
  lemma {:induction false} HexRunStep(s: seq<Byte>, p: nat, n: nat, acc: nat)
    requires n < 4 && IsHexDigit(At(s, p + n))
    ensures HexRun(s, p, n, acc) == HexRun(s, p, n + 1, acc * 16 + Xdigit(At(s, p + n)))
  {
  }

  /** One more digit on the right of a run multiplies its value by 16 and
      adds the digit. */
  lemma {:induction false} HexValueStep(s: seq<Byte>, p: nat, n: nat)
    requires p + n < |s| && AllHex(s[p..p + n]) && AllHex(s[p..p + n + 1])
    ensures HexValue(s[p..p + n + 1]) == HexValue(s[p..p + n]) * 16 + Xdigit(At(s, p + n))
  {
    var d := s[p..p + n + 1];
    assert d[..n] == s[p..p + n] && d[n] == At(s, p + n);
  }

  lemma {:induction false} HexSlice(s: seq<Byte>, p: nat, e: nat)
    requires p + e <= |s| && forall k :: p <= k < p + e ==> IsHexDigit(At(s, k))
    ensures AllHex(s[p..p + e])
  {
    var d := s[p..p + e];
    forall j | 0 <= j < |d|
      ensures IsHexDigit(d[j])
    {
      assert d[j] == At(s, p + j);
    }
  }

  /** A run of hex digits is worth less than `16` to the power of its
      length. */
  lemma {:induction false} HexValueBound(d: seq<Byte>)
    requires AllHex(d) && |d| <= 4
    ensures HexValue(d) < [0x1, 0x10, 0x100, 0x1000, 0x1_0000][|d|]
    decreases |d|
  {
    if d != [] {
      HexValueBound(d[..|d| - 1]);
    }
  }

  /** `h16` reads one to four hex digits, fails when there are none, and
      yields the value of the digits it read, which is below `2^16`. */
  lemma {:induction false} H16Accepts(s: seq<Byte>, p: nat)
    ensures H16Spec(s, p).Ok? <==> IsHexDigit(At(s, p))
    ensures var r := H16Spec(s, p);
      r.Ok? ==>
        (p < r.next <= p + 4 && r.next <= |s| && AllHex(s[p..r.next]) &&
         r.value == HexValue(s[p..r.next]) && r.value < 0x1_0000 &&
         (r.next < p + 4 ==> !IsHexDigit(At(s, r.next))))
  {
    if IsHexDigit(At(s, p)) {
      var e := HexSpan(s, p, 0);
      assert s[p..p] == [];
      HexRunIsValue(s, p, 0, e);
      HexValueBound(s[p..p + e]);
    }
  }

  /** The shortest lower-case spelling of a group (section 4.1 of RFC 5952
      drops leading zeros). */
  function HexText(g: nat): (d: seq<Byte>)
    ensures |d| >= 1
    decreases g
  {
    if g < 16 then [HexChar(g)] else HexText(g / 16) + [HexChar(g % 16)]
  }

  lemma {:induction false} HexTextDigits(g: nat)
    ensures AllHex(HexText(g)) && HexValue(HexText(g)) == g
    ensures g < 0x10 ==> |HexText(g)| == 1
    ensures g < 0x100 ==> |HexText(g)| <= 2
    ensures g < 0x1000 ==> |HexText(g)| <= 3
    ensures g < 0x1_0000 ==> |HexText(g)| <= 4
    decreases g
  {
    if g >= 16 {
      HexTextDigits(g / 16);
      var d := HexText(g);
      assert d[..|d| - 1] == HexText(g / 16);
    }
  }

  /** The loop only looks at the text from its position on. */
  lemma {:induction false} HexRunShift(s: seq<Byte>, q: nat, p: nat, n: nat, acc: nat)
    requires q <= p && q <= |s| && n <= 4
    ensures HexRun(s, p, n, acc) == Shifted(HexRun(s[q..], p - q, n, acc), q)
    decreases 4 - n
  {
    assert At(s, p + n) == At(s[q..], p - q + n);
    if n < 4 && IsHexDigit(At(s, p + n)) {
      HexRunShift(s, q, p, n + 1, acc * 16 + Xdigit(At(s, p + n)));
    }
  }

  lemma {:induction false} H16Shift(s: seq<Byte>, q: nat, p: nat)
    requires q <= p && q <= |s|
    ensures H16Spec(s, p) == Shifted(H16Spec(s[q..], p - q), q)
  {
    assert At(s, p) == At(s[q..], p - q);
    HexRunShift(s, q, p, 0, 0);
  }

  /** Round trip: the spelling of a group, followed by anything but a hex
      digit, is read back as that group and consumed entirely. */
  lemma {:induction false} H16OfHexText(g: nat, rest: seq<Byte>)
    requires g < 0x1_0000 && !IsHexDigit(At(rest, 0))
    ensures H16Spec(HexText(g) + rest, 0) == Ok(g, |HexText(g)|)
  {
    var x := HexText(g) + rest;
    var e := |HexText(g)|;
    HexTextDigits(g);
    assert x[0..e] == HexText(g);
    assert At(x, e) == At(rest, 0);
    assert x[0..0] == [];
    HexRunIsValue(x, 0, 0, e);
  }

  // ---------------------------------------------------------------------
  // ls32: the last 32 bits, as a dotted quad or as two groups

  /** The meaning of `ls32`: a dotted IPv4 address split into its high and
      low 16-bit halves if one is there, otherwise `h16 ":" h16`. */
  function Ls32Spec(s: seq<Byte>, p: nat): Res<(nat, nat)>
  {
    match Ipv4AddressSpec(s, p)
    case Ok(a, q) => Ok((a / 0x1_0000 % 0x1_0000, a % 0x1_0000), q)
    case Fail =>
      match H16Spec(s, p)
      case Fail => Fail
      case Ok(hi, q) =>
        if At(s, q) != ':' then Fail
        else
          match H16Spec(s, q + 1)
          case Fail => Fail
          case Ok(lo, r) => Ok((hi, lo), r)
  }

  /** `ls32`. */
  method Ls32(s: seq<Byte>, p: nat) returns (r: Res<(nat, nat)>)
    ensures r == Ls32Spec(s, p)
  {
    var a := Ipv4Address(s, p);
    if a.Ok? {
      return Ok((a.value / 0x1_0000 % 0x1_0000, a.value % 0x1_0000), a.next);
    }
    var hi := H16(s, p);
    if hi.Fail? {
      return Fail;
    }
    if At(s, hi.next) != ':' {
      return Fail;
    }
    var lo := H16(s, hi.next + 1);
    if lo.Fail? {
      return Fail;
    }
    return Ok((hi.value, lo.value), lo.next);
  }

  // ---------------------------------------------------------------------
  // The address: groups before `::`, groups after it, and the prefix length

  /** The bytes that may end an address whose groups were compressed. */
  predicate IsAddrEnd(c: Byte)
  {
    c == ' ' || c == '\t' || c == '/' || c == '\0'
  }

  function Zeros(n: nat): (z: seq<nat>)
    ensures |z| == n
  {
    seq(n, _ => 0)
  }

  /** The first loop from group `|gs|` on, `gs` holding the groups read so
      far: it stops at `::` (just past it), after the eighth group, or after
      an `ls32` tried in place of the seventh and eighth. */
  function HeadFrom(s: seq<Byte>, p: nat, gs: seq<nat>): (r: Res<seq<nat>>)
    requires |gs| <= 8
    ensures r.Ok? ==> |gs| <= |r.value| <= 8 && r.value[..|gs|] == gs
    decreases 8 - |gs|
  {
    var i := |gs|;
    if i == 8 then Ok(gs, p)
    else if At(s, p) == ':' && At(s, p + 1) == ':' then Ok(gs, p + 2)
    else if i > 0 && At(s, p) != ':' then Fail
    else
      var q := if i > 0 then p + 1 else p;
      var l := if i == 6 then Ls32Spec(s, q) else Fail;
      if l.Ok? then Ok(gs + [l.value.0, l.value.1], l.next)
      else
        match H16Spec(s, q)
        case Fail => Fail
        case Ok(g, r) =>
          var r' := HeadFrom(s, r, gs + [g]);
          assert r'.Ok? ==> r'.value[..|gs|] == (r'.value[..|gs| + 1])[..|gs|];
          r'
  }

  /** The second loop, after `::`, from group `|ws|` on: it stops at the end
      of the address, after the eighth group, or after an `ls32` that ends
      the address. `ls32` fills two slots, so it is tried only while two
      are left. */
  function TailFrom(s: seq<Byte>, p: nat, ws: seq<nat>): (r: Res<seq<nat>>)
    requires |ws| <= 8
    ensures r.Ok? ==> |ws| <= |r.value| <= 8 && r.value[..|ws|] == ws
    decreases 8 - |ws|
  {
    var j := |ws|;
    if j == 8 || IsAddrEnd(At(s, p)) then Ok(ws, p)
    else if j > 0 && At(s, p) != ':' then Fail
    else
      var q := if j > 0 then p + 1 else p;
      var l := if j < 7 then Ls32Spec(s, q) else Fail;
      if l.Ok? && IsAddrEnd(At(s, l.next)) then Ok(ws + [l.value.0, l.value.1], l.next)
      else
        match H16Spec(s, q)
        case Fail => Fail
        case Ok(g, r) =>
          var r' := TailFrom(s, r, ws + [g]);
          assert r'.Ok? ==> r'.value[..|ws|] == (r'.value[..|ws| + 1])[..|ws|];
          r'
  }

  /** The eight groups of an address: without `::` the ones the first loop
      read; with it, the groups before it, then zeros, then the groups after
      it, which must leave at least one group to the zeros. */
  function Ipv6GroupsSpec(s: seq<Byte>, i: nat): Res<seq<nat>>
  {
    match HeadFrom(s, i, [])
    case Fail => Fail
    case Ok(vs, p) =>
      if |vs| == 8 then Ok(vs, p)
      else
        match TailFrom(s, p, [])
        case Fail => Fail
        case Ok(ws, q) =>
          if |vs| + |ws| > 7 then Fail
          else Ok(vs + Zeros(8 - |vs| - |ws|) + ws, q)
  }

  /** The meaning of `gcfg_parse_ipv6`: the groups, then `/` and a decimal
      prefix length of at most 128 (mask flag set), or no prefix length
      (128, no mask flag). */
  function ParseIpv6Spec(s: seq<Byte>, i: nat): Res<Value>
  {
    match Ipv6GroupsSpec(s, i)
    case Fail => Fail
    case Ok(g, p) =>
      if At(s, p) == '/' then
        match DecNumSpec(s, p + 1, 128)
        case Fail => Fail
        case Ok(m, q) => Ok(Value(TypeIpv6, Ipv6Addr(g), HAVE_MASK, m % 0x100), q)
      else Ok(Value(TypeIpv6, Ipv6Addr(g), 0, 128), p)
  }

  /** The first loop of `gcfg_parse_ipv6`, filling the zeroed `v` from the
      front. */
  method ReadHead(s: seq<Byte>, start: nat, v: array<nat>) returns (r: Res<seq<nat>>)
    requires v.Length == 8 && v[..] == Zeros(8)
    modifies v
    ensures r == HeadFrom(s, start, [])
    ensures r.Ok? ==> v[..] == r.value + Zeros(8 - |r.value|)
  {
    var p := start;
    var i := 0;
    ghost var gs: seq<nat> := [];
    while i < 8
      invariant i <= 8 && |gs| == i && v[..] == gs + Zeros(8 - i)
      invariant HeadFrom(s, p, gs) == HeadFrom(s, start, [])
      decreases 8 - i
    {
      if At(s, p) == ':' && At(s, p + 1) == ':' {
        p := p + 2;
        break;
      }
      if i > 0 {
        if At(s, p) != ':' {
          return Fail;
        }
        p := p + 1;
      }
      if i == 6 {
        var l := Ls32(s, p);
        if l.Ok? {
          ghost var before := v[..];
          v[6], v[7] := l.value.0, l.value.1;
          ZerosFilled(before, v[..], gs, [l.value.0, l.value.1]);
          gs := gs + [l.value.0, l.value.1];
          p := l.next;
          i := i + 2;
          break;
        }
      }
      var h := H16(s, p);
      if h.Fail? {
        return Fail;
      }
      ghost var before := v[..];
      v[i] := h.value;
      ZerosFilled(before, v[..], gs, [h.value]);
      gs := gs + [h.value];
      p := h.next;
      i := i + 1;
    }
    ZerosAfter(v[..], gs);
    return Ok(v[..i], p);
  }

  /** Slots `|gs|` on of an array holding `gs` and zeros, filled with
      `xs`. */
  lemma {:induction false} ZerosFilled(before: seq<nat>, after: seq<nat>, gs: seq<nat>, xs: seq<nat>)
    requires |gs| + |xs| <= 8 && before == gs + Zeros(8 - |gs|) && |after| == 8
    requires forall k :: 0 <= k < 8 && !(|gs| <= k < |gs| + |xs|) ==> after[k] == before[k]
    requires forall k :: 0 <= k < |xs| ==> after[|gs| + k] == xs[k]
    ensures after == gs + xs + Zeros(8 - |gs| - |xs|)
  {
    var z := Zeros(8 - |gs|);
    assert forall k :: 0 <= k < |z| ==> z[k] == 0;
    var u := gs + xs + Zeros(8 - |gs| - |xs|);
    forall k | 0 <= k < 8
      ensures after[k] == u[k]
    {
      if k < |gs| {
        assert after[k] == before[k];
      } else if k < |gs| + |xs| {
        assert after[|gs| + (k - |gs|)] == xs[k - |gs|];
      } else {
        assert after[k] == before[k] == z[k - |gs|];
      }
    }
  }

  /** The groups at the front of an array holding them and zeros. */
  lemma {:induction false} ZerosAfter(v: seq<nat>, gs: seq<nat>)
    requires |gs| <= 8 && v == gs + Zeros(8 - |gs|)
    ensures v[..|gs|] == gs && v == v[..|gs|] + Zeros(8 - |v[..|gs|]|)
  {
  }

  /** The second loop of `gcfg_parse_ipv6`, filling `w` from the front. */
  method ReadTail(s: seq<Byte>, start: nat, w: array<nat>) returns (r: Res<seq<nat>>)
    requires w.Length == 8
    modifies w
    ensures r == TailFrom(s, start, [])
    ensures r.Ok? ==> w[..|r.value|] == r.value
  {
    var p := start;
    var j := 0;
    while j < 8
      invariant j <= 8 && TailFrom(s, p, w[..j]) == TailFrom(s, start, [])
      decreases 8 - j
    {
      if IsAddrEnd(At(s, p)) {
        break;
      }
      ghost var p0 := p;
      if j > 0 {
        if At(s, p) != ':' {
          return Fail;
        }
        p := p + 1;
      }
      if j < 7 {
        var l := Ls32(s, p);
        if l.Ok? && IsAddrEnd(At(s, l.next)) {
          ghost var ws := w[..j];
          w[j], w[j + 1] := l.value.0, l.value.1;
          assert w[..j + 2] == ws + [l.value.0, l.value.1];
          assert TailFrom(s, p0, ws) == Ok(w[..j + 2], l.next);
          return Ok(w[..j + 2], l.next);
        }
      }
      var h := H16(s, p);
      if h.Fail? {
        return Fail;
      }
      ghost var ws := w[..j];
      w[j] := h.value;
      assert w[..j + 1] == ws + [h.value];
      p := h.next;
      j := j + 1;
    }
    return Ok(w[..j], p);
  }

  /** The `memcpy` of the first `j` slots of `w` to the last `j` of `v`. */
  method CopyToEnd(v: array<nat>, w: array<nat>, j: nat)
    requires v != w && v.Length == 8 && w.Length == 8 && j <= 8
    modifies v
    ensures v[..] == old(v[..8 - j]) + w[..j]
  {
    forall k | 0 <= k < j {
      v[8 - j + k] := w[k];
    }
    assert v[..] == old(v[..8 - j]) + w[..j];
  }

  /** The groups of `gcfg_parse_ipv6`: those before `::` go to `v` in
      order, those after it to `w`, which is then copied to the last slots
      of `v`. */
  method ReadGroups(s: seq<Byte>, start: nat) returns (r: Res<seq<nat>>)
    ensures r == Ipv6GroupsSpec(s, start)
  {
    var v := new nat[8](_ => 0);
    var w := new nat[8](_ => 0);
    var head := ReadHead(s, start, v);
    if head.Fail? {
      return Fail;
    }
    var i := |head.value|;
    if i == 8 {
      assert Zeros(0) == [] && v[..] == head.value + [];
      assert v[..] == head.value;
      GroupsOfHead(s, start, head.value, head.next);
      return Ok(v[..], head.next);
    }
    ghost var before := v[..];
    var tail := ReadTail(s, head.next, w);
    if tail.Fail? {
      return Fail;
    }
    var j := |tail.value|;
    if j + i > 7 {
      return Fail;
    }
    CopyToEnd(v, w, j);
    GroupsOfArrays(s, start, head.value, head.next, tail.value, tail.next, before, v[..]);
    return Ok(v[..], tail.next);
  }

  /** Eight groups before any `::` are the address. */
  lemma {:induction false} GroupsOfHead(s: seq<Byte>, start: nat, vs: seq<nat>, p: nat)
    requires HeadFrom(s, start, []) == Ok(vs, p) && |vs| == 8
    ensures Ipv6GroupsSpec(s, start) == Ok(vs, p)
  {
  }

  /** What the copy leaves in `v` is the address the two loops read. */
  lemma {:induction false} GroupsOfArrays(s: seq<Byte>, start: nat, vs: seq<nat>, p: nat, ws: seq<nat>, f: nat, before: seq<nat>, after: seq<nat>)
    requires HeadFrom(s, start, []) == Ok(vs, p) && |vs| < 8
    requires before == vs + Zeros(8 - |vs|)
    requires TailFrom(s, p, []) == Ok(ws, f) && |vs| + |ws| <= 7
    requires after == before[..8 - |ws|] + ws
    ensures Ipv6GroupsSpec(s, start) == Ok(after, f)
  {
    Splice(before, after, vs, ws);
    GroupsOfLoops(s, start, vs, ws, p, f);
  }

  /** What the copy leaves in `v`: the groups before `::`, zeros, and the
      groups after it. */
  lemma {:induction false} Splice(before: seq<nat>, after: seq<nat>, vs: seq<nat>, ws: seq<nat>)
    requires |vs| + |ws| <= 8 && before == vs + Zeros(8 - |vs|)
    requires after == before[..8 - |ws|] + ws
    ensures after == vs + Zeros(8 - |vs| - |ws|) + ws
  {
    assert before[..8 - |ws|] == vs + Zeros(8 - |vs|)[..8 - |vs| - |ws|];
  }

  /** `gcfg_parse_ipv6`: the groups, then the prefix length. */
  method ParseIpv6(s: seq<Byte>, start: nat) returns (r: Res<Value>)
    ensures r == ParseIpv6Spec(s, start)
  {
    var g := ReadGroups(s, start);
    if g.Fail? {
      return Fail;
    }
    var p := g.next;
    if At(s, p) == '/' {
      var m := DecNumber(s, p + 1, 128);
      if m.Fail? {
        return Fail;
      }
      return Ok(Value(TypeIpv6, Ipv6Addr(g.value), HAVE_MASK, m.value % 0x100), m.next);
    }
    return Ok(Value(TypeIpv6, Ipv6Addr(g.value), 0, 128), p);
  }

  // ---------------------------------------------------------------------
  // What ls32 reads

  /** Both halves `ls32` yields are 16-bit groups, and it reads something. */
  lemma {:induction false} Ls32Bounds(s: seq<Byte>, p: nat)
    requires Ls32Spec(s, p).Ok?
    ensures var r := Ls32Spec(s, p);
      r.value.0 < 0x1_0000 && r.value.1 < 0x1_0000 && p < r.next
  {
    match Ipv4AddressSpec(s, p)
    case Ok(_, _) =>
      Ipv4AddressAccepts(s, p);
    case Fail =>
      H16Accepts(s, p);
      H16Accepts(s, H16Spec(s, p).next + 1);
  }

  lemma {:induction false} Ipv4AddressShift(s: seq<Byte>, q: nat, p: nat)
    requires q <= p && q <= |s|
    ensures Ipv4AddressSpec(s, p) == Shifted(Ipv4AddressSpec(s[q..], p - q), q)
  {
    OctetsShift(s, q, p, 0, 0);
  }

  /** `ls32` only looks at the text from its position on. */
  lemma {:induction false} Ls32Shift(s: seq<Byte>, q: nat, p: nat)
    requires q <= p && q <= |s|
    ensures Ls32Spec(s, p) == Shifted(Ls32Spec(s[q..], p - q), q)
  {
    Ipv4AddressShift(s, q, p);
    H16Shift(s, q, p);
    match H16Spec(s, p)
    case Fail =>
    case Ok(_, r) =>
      assert At(s, r) == At(s[q..], r - q);
      H16Shift(s, q, r + 1);
  }

  /** A spelling of one group: one to four hex digits, in either case and
      with or without leading zeros. */
  predicate IsGroupText(d: seq<Byte>)
  {
    1 <= |d| <= 4 && AllHex(d)
  }

  /** Any run of hex digits followed by a byte that is neither a digit nor a
      dot is no dotted quad: the first decimal field ends inside the run or
      at that byte, and neither is a dot. */
  lemma {:induction false} Ipv4RefusesGroup(d: seq<Byte>, t: seq<Byte>)
    requires AllHex(d) && !IsDigit(At(t, 0)) && At(t, 0) != '.'
    ensures Ipv4AddressSpec(d + t, 0) == Fail
  {
    var x := d + t;
    var e := |d|;
    OctetStep(x, 0, 0, 0);
    match DecNumSpec(x, 0, 255)
    case Fail =>
    case Ok(o, r) =>
      DecNumAccepts(x, 0, 255);
      DecimalDigits(o);
      forall k | 0 <= k < r
        ensures IsDigit(x[k])
      {
        assert x[k] == x[0..r][k];
      }
      assert e < |x| ==> x[e] == At(t, 0);
      assert r <= e;
      if r < e {
        assert At(x, r) == d[r];
      } else {
        assert At(x, r) == At(t, 0);
      }
      assert At(x, r) != '.';
  }

  /** A run of one to four hex digits at `q`, followed by `y`, is read
      there by `h16`. */
  lemma {:induction false} DigitsAt(x: seq<Byte>, q: nat, d: seq<Byte>, y: seq<Byte>)
    requires q <= |x| && x[q..] == d + y
    requires 1 <= |d| <= 4 && AllHex(d) && !IsHexDigit(At(y, 0))
    ensures IsHexDigit(At(x, q)) && H16Spec(x, q) == Ok(HexValue(d), q + |d|)
  {
    forall k | q <= k < q + |d|
      ensures IsHexDigit(x[k])
    {
      assert x[k] == d[k - q];
    }
    assert x[q..q + |d|] == d;
    assert At(x, q + |d|) == At(y, 0);
    assert x[q..q] == [];
    HexRunIsValue(x, q, 0, |d|);
  }

  /** Round trip for one group: its spelling, followed by anything but a
      hex digit, is read back as its value and consumed entirely. */
  lemma {:induction false} H16OfText(d: seq<Byte>, rest: seq<Byte>)
    requires IsGroupText(d) && !IsHexDigit(At(rest, 0))
    ensures H16Spec(d + rest, 0) == Ok(HexValue(d), |d|)
  {
    DigitsAt(d + rest, 0, d, rest);
  }

  /** `ls32` reading two groups joined by a colon. */
  lemma {:induction false} Ls32PairAt(s: seq<Byte>, q: nat, g: nat, e: nat, h: nat, n: nat)
    requires Ipv4AddressSpec(s, q) == Fail && H16Spec(s, q) == Ok(g, e)
    requires At(s, e) == ':' && H16Spec(s, e + 1) == Ok(h, n)
    ensures Ls32Spec(s, q) == Ok((g, h), n)
  {
  }

  /** `ls32` refusing a group that no colon and second group follow. */
  lemma {:induction false} Ls32StopsAt(s: seq<Byte>, q: nat, g: nat, e: nat)
    requires Ipv4AddressSpec(s, q) == Fail && H16Spec(s, q) == Ok(g, e)
    requires At(s, e) != ':' || !IsHexDigit(At(s, e + 1))
    ensures Ls32Spec(s, q) == Fail
  {
  }

  /** `ls32` prefers the dotted quad, and splits it into its high and low
      16-bit halves. */
  lemma {:induction false} Ls32OfDotted(a: nat, b: nat, c: nat, d: nat, rest: seq<Byte>)
    requires a < 0x100 && b < 0x100 && c < 0x100 && d < 0x100
    requires !IsDigit(At(rest, 0))
    ensures Ls32Spec(Dotted(a, b, c, d) + rest, 0)
         == Ok((a * 0x100 + b, c * 0x100 + d), |Dotted(a, b, c, d)|)
  {
    PackHalves(a, b, c, d);
    Ipv4AddressOfDotted(a, b, c, d, rest);
    Ls32OfIpv4(Dotted(a, b, c, d) + rest, 0, Pack(a, b, c, d), |Dotted(a, b, c, d)|);
  }

  /** A dotted quad read by `ls32` is split into its two 16-bit halves. */
  lemma {:induction false} Ls32OfIpv4(s: seq<Byte>, p: nat, v: nat, q: nat)
    requires Ipv4AddressSpec(s, p) == Ok(v, q)
    ensures Ls32Spec(s, p) == Ok((v / 0x1_0000 % 0x1_0000, v % 0x1_0000), q)
  {
  }

  /** The halves of four packed octets. */
  lemma {:induction false} PackHalves(a: nat, b: nat, c: nat, d: nat)
    requires a < 0x100 && b < 0x100 && c < 0x100 && d < 0x100
    ensures Pack(a, b, c, d) / 0x1_0000 % 0x1_0000 == a * 0x100 + b
    ensures Pack(a, b, c, d) % 0x1_0000 == c * 0x100 + d
  {
    DivModPlace(Pack(a, b, c, d), 0x1_0000, a * 0x100 + b, c * 0x100 + d);
  }

  // ---------------------------------------------------------------------
  // Round trips through the text forms of an address (section 2.2 of
  // RFC 4291). A spelling is first described position by position
  // (`SpelledAt`), then as what `h16` and the IPv4 reader find there
  // (`ReadsAt`), and only then run through the two loops.

  predicate AllGroupTexts(ts: seq<seq<Byte>>)
  {
    forall k :: 0 <= k < |ts| ==> IsGroupText(ts[k])
  }

  /** The group spellings `ts` separated by colons, with a colon before the
      first one too when `lead` is set. */
  function Joined(ts: seq<seq<Byte>>, lead: bool): seq<Byte>
  {
    if ts == [] then []
    else (if lead then [':'] else []) + (ts[0] + Joined(ts[1..], true))
  }

  /** The values of the group spellings `ts`. */
  function GroupValues(ts: seq<seq<Byte>>): (gs: seq<nat>)
    requires AllGroupTexts(ts)
    ensures |gs| == |ts|
  {
    if ts == [] then [] else [HexValue(ts[0])] + GroupValues(ts[1..])
  }

  /** The shortest spellings of the groups `gs`. */
  function HexTexts(gs: seq<nat>): (ts: seq<seq<Byte>>)
    ensures |ts| == |gs|
  {
    if gs == [] then [] else [HexText(gs[0])] + HexTexts(gs[1..])
  }

  /** Groups spelled by `HexTexts` are group texts worth the groups. */
  lemma {:induction false} HexTextsRead(gs: seq<nat>)
    requires AllGroups(gs)
    ensures AllGroupTexts(HexTexts(gs)) && GroupValues(HexTexts(gs)) == gs
    decreases |gs|
  {
    if gs != [] {
      HexTextDigits(gs[0]);
      HexTextsRead(gs[1..]);
    }
  }

  /** The spelling of the groups before a `::`, the `::`, and the spelling
      of the groups after it. */
  function Compressed(vs: seq<seq<Byte>>, ws: seq<seq<Byte>>): seq<Byte>
  {
    Joined(vs, false) + ([':', ':'] + Joined(ws, false))
  }

  /** Text `pre`, then `d`, then `y`, found at `p`. */
  lemma {:induction false} SplitAt(x: seq<Byte>, p: nat, pre: seq<Byte>, d: seq<Byte>, y: seq<Byte>)
    requires p <= |x| && x[p..] == pre + (d + y)
    ensures p + |pre| + |d| <= |x| && x[p + |pre|..] == d + y && x[p + |pre| + |d|..] == y
    ensures x[p + |pre|..p + |pre| + |d|] == d
    ensures pre != [] ==> At(x, p) == pre[0]
  {
    assert x[p + |pre|..] == x[p..][|pre|..];
    assert x[p + |pre| + |d|..] == x[p..][|pre| + |d|..];
    assert x[p + |pre|..p + |pre| + |d|] == x[p..][|pre|..|pre| + |d|];
  }

  /** The groups `ts` are spelled from `p` to `e`, the first one after a
      colon when `lead` is set. */
  predicate SpelledAt(x: seq<Byte>, p: nat, lead: bool, ts: seq<seq<Byte>>, e: nat)
    decreases |ts|
  {
    if ts == [] then p == e
    else
      var q := if lead then p + 1 else p;
      var f := q + |ts[0]|;
      (lead ==> At(x, p) == ':') && f <= |x| && x[q..f] == ts[0] && SpelledAt(x, f, true, ts[1..], e)
  }

  lemma {:induction false} SpelledOfJoined(x: seq<Byte>, p: nat, lead: bool, ts: seq<seq<Byte>>, rest: seq<Byte>)
    requires p <= |x| && x[p..] == Joined(ts, lead) + rest
    ensures |rest| <= |x| && x[|x| - |rest|..] == rest && SpelledAt(x, p, lead, ts, |x| - |rest|)
    decreases |ts|
  {
    if ts == [] {
      assert x[p..] == rest;
    } else {
      var q, f := JoinedAt(x, p, lead, ts, rest);
      SpelledOfJoined(x, f, true, ts[1..], rest);
      SpelledCons(x, p, lead, ts, q, f, |x| - |rest|);
    }
  }

  /** The first group of a joined spelling lies from `q` to `f`, after a
      colon at `p` when `lead` is set, and the others follow it. */
  lemma {:induction false} JoinedAt(x: seq<Byte>, p: nat, lead: bool, ts: seq<seq<Byte>>, rest: seq<Byte>) returns (q: nat, f: nat)
    requires ts != [] && p <= |x| && x[p..] == Joined(ts, lead) + rest
    ensures q == (if lead then p + 1 else p) && f == q + |ts[0]|
    ensures lead ==> At(x, p) == ':'
    ensures f <= |x| && x[q..f] == ts[0] && x[f..] == Joined(ts[1..], true) + rest
  {
    var pre: seq<Byte> := if lead then [':'] else [];
    var y := Joined(ts[1..], true) + rest;
    JoinedCons(ts, lead, pre, rest);
    SplitAt(x, p, pre, ts[0], y);
    q, f := p + |pre|, p + |pre| + |ts[0]|;
  }

  lemma {:induction false} JoinedCons(ts: seq<seq<Byte>>, lead: bool, pre: seq<Byte>, rest: seq<Byte>)
    requires ts != [] && pre == (if lead then [':'] else [])
    ensures Joined(ts, lead) + rest == pre + (ts[0] + (Joined(ts[1..], true) + rest))
  {
  }

  /** One more group in front of a spelling: the group from `q` to `f`,
      after a colon at `p` when `lead` is set. */
  lemma {:induction false} SpelledCons(x: seq<Byte>, p: nat, lead: bool, ts: seq<seq<Byte>>, q: nat, f: nat, e: nat)
    requires ts != [] && q == (if lead then p + 1 else p) && f == q + |ts[0]|
    requires lead ==> At(x, p) == ':'
    requires f <= |x| && x[q..f] == ts[0] && SpelledAt(x, f, true, ts[1..], e)
    ensures SpelledAt(x, p, lead, ts, e)
  {
  }

  /** The groups `gs` are read from `p` to `e` one `h16` at a time, the
      first one after a colon when `lead` is set, and no group starts a
      dotted quad. */
  predicate ReadsAt(x: seq<Byte>, p: nat, lead: bool, gs: seq<nat>, e: nat)
    decreases |gs|
  {
    if gs == [] then p == e
    else
      var q := if lead then p + 1 else p;
      var h := H16Spec(x, q);
      (lead ==> At(x, p) == ':') && IsHexDigit(At(x, q)) && Ipv4AddressSpec(x, q) == Fail &&
      h.Ok? && h.value == gs[0] && ReadsAt(x, h.next, true, gs[1..], e)
  }

  /** The first group of a reading and where the rest starts. */
  lemma {:induction false} ReadsFirst(x: seq<Byte>, p: nat, lead: bool, gs: seq<nat>, e: nat) returns (f: nat)
    requires gs != [] && ReadsAt(x, p, lead, gs, e)
    ensures var q := if lead then p + 1 else p;
      (lead ==> At(x, p) == ':') && IsHexDigit(At(x, q)) && Ipv4AddressSpec(x, q) == Fail &&
      H16Spec(x, q) == Ok(gs[0], f) && ReadsAt(x, f, true, gs[1..], e)
  {
    f := H16Spec(x, if lead then p + 1 else p).next;
  }

  /** A reading cut after its first `k` groups. */
  lemma {:induction false} ReadsSplit(x: seq<Byte>, p: nat, lead: bool, gs: seq<nat>, k: nat, e: nat)
    returns (m: nat)
    requires k <= |gs| && ReadsAt(x, p, lead, gs, e)
    ensures ReadsAt(x, p, lead, gs[..k], m) && ReadsAt(x, m, lead || k > 0, gs[k..], e)
    decreases k
  {
    if k == 0 {
      m := p;
      assert gs[k..] == gs;
    } else {
      var f := ReadsFirst(x, p, lead, gs, e);
      m := ReadsSplit(x, f, true, gs[1..], k - 1, e);
      assert gs[1..][..k - 1] == gs[..k][1..];
      assert gs[1..][k - 1..] == gs[k..];
    }
  }

  /** Any run of hex digits followed by a byte that is neither a digit nor a
      dot is no dotted quad, wherever it is found. */
  lemma {:induction false} Ipv4RefusesAt(x: seq<Byte>, q: nat, d: seq<Byte>, t: seq<Byte>)
    requires q <= |x| && x[q..] == d + t
    requires AllHex(d) && !IsDigit(At(t, 0)) && At(t, 0) != '.'
    ensures Ipv4AddressSpec(x, q) == Fail
  {
    Ipv4AddressShift(x, q, q);
    Ipv4RefusesGroup(d, t);
  }

  /** A group spelled at `q` and followed by a colon or the end of the
      address is read there by `h16` and starts no dotted quad. */
  lemma {:induction false} GroupOfSlice(x: seq<Byte>, q: nat, d: seq<Byte>)
    requires IsGroupText(d) && q + |d| <= |x| && x[q..q + |d|] == d
    requires var c := At(x, q + |d|); c == ':' || IsAddrEnd(c)
    ensures IsHexDigit(At(x, q)) && Ipv4AddressSpec(x, q) == Fail
    ensures H16Spec(x, q) == Ok(HexValue(d), q + |d|)
  {
    var y := x[q + |d|..];
    assert x[q..] == d + y;
    assert At(y, 0) == At(x, q + |d|);
    Ipv4RefusesAt(x, q, d, y);
    DigitsAt(x, q, d, y);
  }

  lemma {:induction false} ReadsOfSpelled(x: seq<Byte>, p: nat, lead: bool, ts: seq<seq<Byte>>, e: nat)
    requires AllGroupTexts(ts) && SpelledAt(x, p, lead, ts, e)
    requires At(x, e) == ':' || IsAddrEnd(At(x, e))
    ensures ReadsAt(x, p, lead, GroupValues(ts), e)
    decreases |ts|
  {
    if ts != [] {
      var q := if lead then p + 1 else p;
      var f := q + |ts[0]|;
      ReadsOfSpelled(x, f, true, ts[1..], e);
      if ts[1..] == [] {
        assert f == e;
      } else {
        assert At(x, f) == ':';
      }
      GroupOfSlice(x, q, ts[0]);
      ReadsCons(x, p, lead, HexValue(ts[0]), GroupValues(ts[1..]), q, f, e);
    }
  }

  /** One more group read in front of a reading: the group from `q` to
      `f`, after a colon at `p` when `lead` is set. */
  lemma {:induction false} ReadsCons(x: seq<Byte>, p: nat, lead: bool, g: nat, gs: seq<nat>, q: nat, f: nat, e: nat)
    requires q == (if lead then p + 1 else p) && (lead ==> At(x, p) == ':')
    requires IsHexDigit(At(x, q)) && Ipv4AddressSpec(x, q) == Fail && H16Spec(x, q) == Ok(g, f)
    requires ReadsAt(x, f, true, gs, e)
    ensures ReadsAt(x, p, lead, [g] + gs, e)
  {
    assert ([g] + gs)[1..] == gs;
  }

  /** One step of the first loop over a group it reads with `h16`: not at
      `::`, and, for the seventh group, not at an `ls32`. */
  lemma {:induction false} HeadStep(x: seq<Byte>, p: nat, done: seq<nat>, g: nat, e: nat)
    requires |done| < 8
    requires var q := if |done| > 0 then p + 1 else p;
      (|done| > 0 ==> At(x, p) == ':') && IsHexDigit(At(x, q)) &&
      H16Spec(x, q) == Ok(g, e) && (|done| == 6 ==> Ls32Spec(x, q).Fail?)
    ensures HeadFrom(x, p, done) == HeadFrom(x, e, done + [g])
  {
  }

  /** The same step of the second loop, where an `ls32` it tries does not
      end the address. */
  lemma {:induction false} TailStep(x: seq<Byte>, p: nat, done: seq<nat>, g: nat, e: nat)
    requires |done| < 8
    requires var q := if |done| > 0 then p + 1 else p;
      (|done| > 0 ==> At(x, p) == ':') && IsHexDigit(At(x, q)) &&
      H16Spec(x, q) == Ok(g, e) &&
      (|done| < 7 ==> var l := Ls32Spec(x, q); !(l.Ok? && IsAddrEnd(At(x, l.next))))
    ensures TailFrom(x, p, done) == TailFrom(x, e, done + [g])
  {
  }

  /** The step of the first loop that reads the seventh and eighth groups
      with one `ls32`. */
  lemma {:induction false} HeadPairStep(x: seq<Byte>, p: nat, done: seq<nat>, pair: (nat, nat), e: nat)
    requires |done| == 6 && At(x, p) == ':' && At(x, p + 1) != ':'
    requires Ls32Spec(x, p + 1) == Ok(pair, e)
    ensures HeadFrom(x, p, done) == Ok(done + [pair.0, pair.1], e)
  {
  }

  /** The step of the second loop whose `ls32` ends the address. */
  lemma {:induction false} TailPairStep(x: seq<Byte>, p: nat, done: seq<nat>, pair: (nat, nat), e: nat)
    requires |done| < 7 && !IsAddrEnd(At(x, p))
    requires var q := if |done| > 0 then p + 1 else p;
      (|done| > 0 ==> At(x, p) == ':') && Ls32Spec(x, q) == Ok(pair, e) && IsAddrEnd(At(x, e))
    ensures TailFrom(x, p, done) == Ok(done + [pair.0, pair.1], e)
  {
  }

  /** The first loop reads the groups `gs` and stops just past the `::`
      after them. */
  lemma {:induction false} HeadOfCompressed(x: seq<Byte>, p: nat, done: seq<nat>, gs: seq<nat>, e: nat)
    requires |done| + |gs| <= 7 && ReadsAt(x, p, |done| > 0, gs, e)
    requires At(x, e) == ':' && At(x, e + 1) == ':'
    ensures HeadFrom(x, p, done) == Ok(done + gs, e + 2)
    decreases |gs|
  {
    if gs == [] {
      AppendNil(done, gs);
    } else {
      var q := if |done| > 0 then p + 1 else p;
      var f := ReadsFirst(x, p, |done| > 0, gs, e);
      if |done| == 6 {
        assert f == e;
        Ls32StopsAt(x, q, gs[0], f);
      }
      HeadStep(x, p, done, gs[0], f);
      HeadOfCompressed(x, f, done + [gs[0]], gs[1..], e);
      ConsAppend(done, gs);
    }
  }

  /** Sequence facts the loop lemmas use, kept apart from the parsers'
      definitions. */
  lemma {:induction false} ConsAppend(done: seq<nat>, gs: seq<nat>)
    requires gs != []
    ensures done + [gs[0]] + gs[1..] == done + gs
    ensures |gs| == 2 ==> done + gs == done + [gs[0], gs[1]]
  {
    assert [gs[0]] + gs[1..] == gs;
  }

  lemma {:induction false} SuffixAfter(a: seq<Byte>, b: seq<Byte>, c: seq<Byte>)
    ensures |a + (b + c)| - |c| == |a| + |b| && (a + (b + c))[|a| + |b|..] == c
  {
    assert a + (b + c) == (a + b) + c;
  }

  lemma {:induction false} AppendNil(done: seq<nat>, gs: seq<nat>)
    requires gs == []
    ensures done + gs == done
  {
  }

  /** The first loop reads the groups `gs` one `h16` at a time while at
      most six are read. */
  lemma {:induction false} HeadOfReads(x: seq<Byte>, p: nat, done: seq<nat>, gs: seq<nat>, e: nat)
    requires |done| + |gs| <= 6 && ReadsAt(x, p, |done| > 0, gs, e)
    ensures HeadFrom(x, p, done) == HeadFrom(x, e, done + gs)
    decreases |gs|
  {
    if gs == [] {
      AppendNil(done, gs);
    } else {
      var f := ReadsFirst(x, p, |done| > 0, gs, e);
      HeadStep(x, p, done, gs[0], f);
      HeadOfReads(x, f, done + [gs[0]], gs[1..], e);
      ConsAppend(done, gs);
    }
  }

  /** The first loop reads six groups one `h16` at a time, then, after a
      colon, the last two with one `ls32`. */
  lemma {:induction false} HeadOfSix(x: seq<Byte>, p: nat, gs: seq<nat>, e: nat, pair: (nat, nat), n: nat)
    requires |gs| == 6 && ReadsAt(x, p, false, gs, e)
    requires At(x, e) == ':' && At(x, e + 1) != ':' && Ls32Spec(x, e + 1) == Ok(pair, n)
    ensures HeadFrom(x, p, []) == Ok(gs + [pair.0, pair.1], n)
  {
    HeadOfReads(x, p, [], gs, e);
    assert [] + gs == gs;
    HeadPairStep(x, e, gs, pair, n);
  }

  /** The second loop reads the groups `gs` up to the end of the address,
      the last two with one `ls32`. */
  lemma {:induction false} TailOfReads(x: seq<Byte>, p: nat, done: seq<nat>, gs: seq<nat>, e: nat)
    requires |done| + |gs| <= 8 && ReadsAt(x, p, |done| > 0, gs, e) && IsAddrEnd(At(x, e))
    ensures TailFrom(x, p, done) == Ok(done + gs, e)
    decreases |gs|
  {
    if gs == [] {
      AppendNil(done, gs);
    } else {
      var q := if |done| > 0 then p + 1 else p;
      var f := ReadsFirst(x, p, |done| > 0, gs, e);
      if |gs| == 1 {
        assert f == e;
        if |done| < 7 {
          Ls32StopsAt(x, q, gs[0], f);
        }
        TailStep(x, p, done, gs[0], f);
      } else {
        var f2 := ReadsFirst(x, f, true, gs[1..], e);
        if |done| < 7 {
          Ls32PairAt(x, q, gs[0], f, gs[1], f2);
          if |gs| > 2 {
            var f3 := ReadsFirst(x, f2, true, gs[2..], e);
            assert gs[1..][1..] == gs[2..];
          }
        }
        if |gs| == 2 && |done| < 7 {
          assert f2 == e;
          TailPairStep(x, p, done, (gs[0], gs[1]), e);
        } else {
          TailStep(x, p, done, gs[0], f);
        }
      }
      if |gs| != 2 || |done| >= 7 {
        TailOfReads(x, f, done + [gs[0]], gs[1..], e);
      }
      ConsAppend(done, gs);
    }
  }

  /** How the address is put together from what the two loops read. */
  lemma {:induction false} GroupsOfLoops(x: seq<Byte>, i: nat, vs: seq<nat>, ws: seq<nat>, p: nat, f: nat)
    requires HeadFrom(x, i, []) == Ok(vs, p) && |vs| < 8 && TailFrom(x, p, []) == Ok(ws, f)
    ensures Ipv6GroupsSpec(x, i)
         == if |vs| + |ws| <= 7 then Ok(vs + Zeros(8 - |vs| - |ws|) + ws, f) else Fail
  {
  }

  lemma {:induction false} NilAppend(gs: seq<nat>)
    ensures [] + gs == gs
  {
  }

  /** The first loop over the group spellings before `::`. */
  lemma {:induction false} HeadOfSpelled(x: seq<Byte>, vs: seq<seq<Byte>>, e: nat)
    requires AllGroupTexts(vs) && |vs| <= 7
    requires SpelledAt(x, 0, false, vs, e) && At(x, e) == ':' && At(x, e + 1) == ':'
    ensures HeadFrom(x, 0, []) == Ok(GroupValues(vs), e + 2)
  {
    ReadsOfSpelled(x, 0, false, vs, e);
    HeadOfCompressed(x, 0, [], GroupValues(vs), e);
    NilAppend(GroupValues(vs));
  }

  /** The second loop over the group spellings after `::`. */
  lemma {:induction false} TailOfSpelled(x: seq<Byte>, p: nat, ws: seq<seq<Byte>>, f: nat)
    requires AllGroupTexts(ws) && |ws| <= 8
    requires SpelledAt(x, p, false, ws, f) && IsAddrEnd(At(x, f))
    ensures TailFrom(x, p, []) == Ok(GroupValues(ws), f)
  {
    ReadsOfSpelled(x, p, false, ws, f);
    TailOfReads(x, p, [], GroupValues(ws), f);
    NilAppend(GroupValues(ws));
  }

  /** Where the parts of a compressed spelling lie. */
  lemma {:induction false} CompressedSpelled(vs: seq<seq<Byte>>, ws: seq<seq<Byte>>, rest: seq<Byte>) returns (e: nat)
    ensures var x := Compressed(vs, ws) + rest;
      var f := |Compressed(vs, ws)|;
      SpelledAt(x, 0, false, vs, e) && At(x, e) == ':' && At(x, e + 1) == ':' &&
      SpelledAt(x, e + 2, false, ws, f) && At(x, f) == At(rest, 0)
  {
    var x := Compressed(vs, ws) + rest;
    var y := Joined(ws, false) + rest;
    CompressedParts(vs, ws, rest);
    SpelledOfJoined(x, 0, false, vs, [':', ':'] + y);
    e := |x| - |[':', ':'] + y|;
    ColonsAt(x, e, y);
    SpelledOfJoined(x, e + 2, false, ws, rest);
    SuffixAt(x, rest);
  }

  /** The compressed form and the rest, as the two loops see it. */
  lemma {:induction false} CompressedParts(vs: seq<seq<Byte>>, ws: seq<seq<Byte>>, rest: seq<Byte>)
    ensures var x := Compressed(vs, ws) + rest;
      x[0..] == Joined(vs, false) + ([':', ':'] + (Joined(ws, false) + rest))
  {
  }

  /** `::` found at `e`. */
  lemma {:induction false} ColonsAt(x: seq<Byte>, e: nat, y: seq<Byte>)
    requires e <= |x| && x[e..] == [':', ':'] + y
    ensures At(x, e) == ':' && At(x, e + 1) == ':' && e + 2 <= |x| && x[e + 2..] == y
  {
    assert x[e] == x[e..][0] && x[e + 1] == x[e..][1];
    assert x[e + 2..] == x[e..][2..];
  }

  /** The character after a text is the first of the rest. */
  lemma {:induction false} SuffixAt(x: seq<Byte>, rest: seq<Byte>)
    requires |rest| <= |x| && x[|x| - |rest|..] == rest
    ensures At(x, |x| - |rest|) == At(rest, 0)
  {
    if rest != [] {
      assert x[|x| - |rest|] == x[|x| - |rest|..][0];
    }
  }

  /** Round trip for the compressed form: up to seven group spellings
      around `::` are read back as those groups with zeros in between, and
      eight or more are refused, since `::` stands for at least one zero
      group. */
  lemma {:induction false} Ipv6GroupsOfCompressed(vs: seq<seq<Byte>>, ws: seq<seq<Byte>>, rest: seq<Byte>)
    requires AllGroupTexts(vs) && AllGroupTexts(ws) && |vs| <= 7 && |ws| <= 8
    requires IsAddrEnd(At(rest, 0))
    ensures Ipv6GroupsSpec(Compressed(vs, ws) + rest, 0)
         == if |vs| + |ws| <= 7
            then Ok(GroupValues(vs) + Zeros(8 - |vs| - |ws|) + GroupValues(ws), |Compressed(vs, ws)|)
            else Fail
  {
    var e := CompressedSpelled(vs, ws, rest);
    GroupsOfSpelled(Compressed(vs, ws) + rest, vs, ws, e, |Compressed(vs, ws)|);
  }

  /** The groups of a compressed spelling, from where its parts lie. */
  lemma {:induction false} GroupsOfSpelled(x: seq<Byte>, vs: seq<seq<Byte>>, ws: seq<seq<Byte>>, e: nat, f: nat)
    requires AllGroupTexts(vs) && AllGroupTexts(ws) && |vs| <= 7 && |ws| <= 8
    requires SpelledAt(x, 0, false, vs, e) && At(x, e) == ':' && At(x, e + 1) == ':'
    requires SpelledAt(x, e + 2, false, ws, f) && IsAddrEnd(At(x, f))
    ensures Ipv6GroupsSpec(x, 0)
         == if |vs| + |ws| <= 7 then Ok(GroupValues(vs) + Zeros(8 - |vs| - |ws|) + GroupValues(ws), f) else Fail
  {
    var gv, gw := GroupValues(vs), GroupValues(ws);
    HeadOfSpelled(x, vs, e);
    TailOfSpelled(x, e + 2, ws, f);
    GroupsOfLoops(x, 0, gv, gw, e + 2, f);
    assert |gv| + |gw| == |vs| + |ws|;
  }

  /** Eight groups read one `h16` at a time: the first loop reads six, then
      the last two with one `ls32`. */
  lemma {:induction false} GroupsOfEight(x: seq<Byte>, gs: seq<nat>, f: nat)
    requires |gs| == 8 && ReadsAt(x, 0, false, gs, f)
    ensures Ipv6GroupsSpec(x, 0) == Ok(gs, f)
  {
    var m := ReadsSplit(x, 0, false, gs, 6, f);
    var f7 := ReadsFirst(x, m, true, gs[6..], f);
    assert gs[6..][1..] == gs[7..];
    var f8 := ReadsFirst(x, f7, true, gs[7..], f);
    Ls32PairAt(x, m + 1, gs[6], f7, gs[7], f8);
    HeadOfSix(x, 0, gs[..6], m, (gs[6], gs[7]), f);
    assert gs[..6] + [gs[6], gs[7]] == gs;
  }

  /** Round trip for the full form: eight group spellings joined by colons
      are read back as those groups. */
  lemma {:induction false} Ipv6GroupsOfFull(ts: seq<seq<Byte>>, rest: seq<Byte>)
    requires |ts| == 8 && AllGroupTexts(ts) && IsAddrEnd(At(rest, 0))
    ensures Ipv6GroupsSpec(Joined(ts, false) + rest, 0) == Ok(GroupValues(ts), |Joined(ts, false)|)
  {
    var x := Joined(ts, false) + rest;
    assert x[0..] == Joined(ts, false) + rest;
    SpelledOfJoined(x, 0, false, ts, rest);
    assert At(x, |Joined(ts, false)|) == At(rest, 0);
    ReadsOfSpelled(x, 0, false, ts, |Joined(ts, false)|);
    GroupsOfEight(x, GroupValues(ts), |Joined(ts, false)|);
  }

  /** Round trip for the mixed form: six group spellings, a colon and a
      dotted quad are read back as the six groups and the quad's two
      halves. */
  lemma {:induction false} Ipv6GroupsOfDotted(ts: seq<seq<Byte>>, a: nat, b: nat, c: nat, d: nat, rest: seq<Byte>)
    requires |ts| == 6 && AllGroupTexts(ts)
    requires a < 0x100 && b < 0x100 && c < 0x100 && d < 0x100 && !IsDigit(At(rest, 0))
    ensures var x := Joined(ts, false) + ([':'] + (Dotted(a, b, c, d) + rest));
      Ipv6GroupsSpec(x, 0)
      == Ok(GroupValues(ts) + [a * 0x100 + b, c * 0x100 + d], |x| - |rest|)
  {
    var x := Joined(ts, false) + ([':'] + (Dotted(a, b, c, d) + rest));
    var y := [':'] + (Dotted(a, b, c, d) + rest);
    SixParts(ts, Dotted(a, b, c, d) + rest);
    SpelledOfJoined(x, 0, false, ts, y);
    var e := |x| - |y|;
    ColonAt(x, e, Dotted(a, b, c, d) + rest);
    GroupsOfSixDotted(x, ts, e, a, b, c, d, rest);
  }

  /** Six spelled groups, a colon and a dotted quad are the address. */
  lemma {:induction false} GroupsOfSixDotted(x: seq<Byte>, ts: seq<seq<Byte>>, e: nat, a: nat, b: nat, c: nat, d: nat, rest: seq<Byte>)
    requires |ts| == 6 && AllGroupTexts(ts) && SpelledAt(x, 0, false, ts, e)
    requires a < 0x100 && b < 0x100 && c < 0x100 && d < 0x100 && !IsDigit(At(rest, 0))
    requires At(x, e) == ':' && e + 1 <= |x| && x[e + 1..] == Dotted(a, b, c, d) + rest
    ensures Ipv6GroupsSpec(x, 0) == Ok(GroupValues(ts) + [a * 0x100 + b, c * 0x100 + d], |x| - |rest|)
  {
    var pair := (a * 0x100 + b, c * 0x100 + d);
    var gv := GroupValues(ts);
    ReadsOfSpelled(x, 0, false, ts, e);
    DottedAt(x, e + 1, a, b, c, d, rest);
    HeadOfSix(x, 0, gv, e, pair, |x| - |rest|);
    GroupsOfHead(x, 0, gv + [pair.0, pair.1], |x| - |rest|);
  }

  /** Six group spellings, a colon and the rest, as the first loop sees
      them. */
  lemma {:induction false} SixParts(ts: seq<seq<Byte>>, y: seq<Byte>)
    ensures var x := Joined(ts, false) + ([':'] + y);
      x[0..] == Joined(ts, false) + ([':'] + y)
  {
  }

  /** A colon found at `e`. */
  lemma {:induction false} ColonAt(x: seq<Byte>, e: nat, y: seq<Byte>)
    requires e <= |x| && x[e..] == [':'] + y
    ensures At(x, e) == ':' && e + 1 <= |x| && x[e + 1..] == y
  {
    assert x[e] == x[e..][0];
    assert x[e + 1..] == x[e..][1..];
  }

  /** A dotted quad found at `p`: `ls32` reads it as two groups, and it
      starts with a digit. */
  lemma {:induction false} DottedAt(x: seq<Byte>, p: nat, a: nat, b: nat, c: nat, d: nat, rest: seq<Byte>)
    requires p <= |x| && x[p..] == Dotted(a, b, c, d) + rest
    requires a < 0x100 && b < 0x100 && c < 0x100 && d < 0x100 && !IsDigit(At(rest, 0))
    ensures |rest| <= |x| && Ls32Spec(x, p) == Ok((a * 0x100 + b, c * 0x100 + d), |x| - |rest|)
    ensures IsDigit(At(x, p)) && At(x, |x| - |rest|) == At(rest, 0)
  {
    Ls32Shift(x, p, p);
    Ls32OfDotted(a, b, c, d, rest);
    SplitSuffix(x, p, Dotted(a, b, c, d), rest);
    DottedFirst(a, b, c, d);
    assert At(x, p) == x[p..p + |Dotted(a, b, c, d)|][0];
  }

  /** A dotted quad starts with a digit. */
  lemma {:induction false} DottedFirst(a: nat, b: nat, c: nat, d: nat)
    ensures IsDigit(Dotted(a, b, c, d)[0])
  {
    DecimalDigits(a);
    assert Dotted(a, b, c, d)[0] == Decimal(a)[0];
  }

  /** The text after the compressed form's `::`. */
  lemma {:induction false} CompressedRest(vs: seq<seq<Byte>>, y: seq<Byte>)
    ensures var x := Compressed(vs, []) + y;
      |Compressed(vs, [])| <= |x| && x[|Compressed(vs, [])|..] == y
  {
  }

  /** Round trip for a compressed form ending in a dotted quad right after
      `::`: the groups before it, zeros, then the quad's two halves; with
      six groups before it nothing is left to the zeros and it is refused. */
  lemma {:induction false} Ipv6GroupsOfCompressedDotted(vs: seq<seq<Byte>>, a: nat, b: nat, c: nat, d: nat, rest: seq<Byte>)
    requires AllGroupTexts(vs) && |vs| <= 7
    requires a < 0x100 && b < 0x100 && c < 0x100 && d < 0x100 && IsAddrEnd(At(rest, 0))
    ensures var x := Compressed(vs, []) + (Dotted(a, b, c, d) + rest);
      Ipv6GroupsSpec(x, 0)
      == if |vs| <= 5
         then Ok(GroupValues(vs) + Zeros(6 - |vs|) + [a * 0x100 + b, c * 0x100 + d], |x| - |rest|)
         else Fail
  {
    var x := Compressed(vs, []) + (Dotted(a, b, c, d) + rest);
    var e := CompressedSpelled(vs, [], Dotted(a, b, c, d) + rest);
    CompressedRest(vs, Dotted(a, b, c, d) + rest);
    CompressedDottedAt(x, vs, e, a, b, c, d, rest);
  }

  /** The same, for any text in which the compressed form is found. */
  lemma {:induction false} CompressedDottedAt(x: seq<Byte>, vs: seq<seq<Byte>>, e: nat, a: nat, b: nat, c: nat, d: nat, rest: seq<Byte>)
    requires AllGroupTexts(vs) && |vs| <= 7
    requires a < 0x100 && b < 0x100 && c < 0x100 && d < 0x100 && IsAddrEnd(At(rest, 0))
    requires SpelledAt(x, 0, false, vs, e) && At(x, e) == ':' && At(x, e + 1) == ':'
    requires e + 2 <= |x| && x[e + 2..] == Dotted(a, b, c, d) + rest
    ensures Ipv6GroupsSpec(x, 0)
         == if |vs| <= 5
            then Ok(GroupValues(vs) + Zeros(6 - |vs|) + [a * 0x100 + b, c * 0x100 + d], |x| - |rest|)
            else Fail
  {
    var pair := (a * 0x100 + b, c * 0x100 + d);
    HeadOfSpelled(x, vs, e);
    DottedAt(x, e + 2, a, b, c, d, rest);
    TailPairStep(x, e + 2, [], pair, |x| - |rest|);
    GroupsOfPair(x, vs, pair, e + 2, |x| - |rest|);
  }

  /** The groups before `::` and one `ls32` after it. */
  lemma {:induction false} GroupsOfPair(x: seq<Byte>, vs: seq<seq<Byte>>, pair: (nat, nat), p: nat, f: nat)
    requires AllGroupTexts(vs) && |vs| <= 7
    requires HeadFrom(x, 0, []) == Ok(GroupValues(vs), p) && TailFrom(x, p, []) == Ok([] + [pair.0, pair.1], f)
    ensures Ipv6GroupsSpec(x, 0)
         == if |vs| <= 5 then Ok(GroupValues(vs) + Zeros(6 - |vs|) + [pair.0, pair.1], f) else Fail
  {
    assert [] + [pair.0, pair.1] == [pair.0, pair.1];
    GroupsOfLoops(x, 0, GroupValues(vs), [pair.0, pair.1], p, f);
    assert 8 - |GroupValues(vs)| - |[pair.0, pair.1]| == 6 - |vs|;
  }

  /** Groups before `::`, a dotted quad and a prefix length: the whole
      text is read, with the mask flag set. */
  lemma {:induction false} ParseIpv6OfCompressedDotted(vs: seq<seq<Byte>>, a: nat, b: nat, c: nat, d: nat, m: nat)
    requires AllGroupTexts(vs) && |vs| <= 5 && m <= 128
    requires a < 0x100 && b < 0x100 && c < 0x100 && d < 0x100
    ensures var s := Compressed(vs, []) + (Dotted(a, b, c, d) + (['/'] + Decimal(m)));
      ParseIpv6Spec(s, 0)
      == Ok(Value(TypeIpv6, Ipv6Addr(GroupValues(vs) + Zeros(6 - |vs|) + [a * 0x100 + b, c * 0x100 + d]), HAVE_MASK, m), |s|)
  {
    var mask := ['/'] + Decimal(m);
    var s := Compressed(vs, []) + (Dotted(a, b, c, d) + mask);
    Ipv6GroupsOfCompressedDotted(vs, a, b, c, d, mask);
    SuffixAfter(Compressed(vs, []), Dotted(a, b, c, d), mask);
    var p := |s| - |mask|;
    assert s[p..] == ['/'] + (Decimal(m) + []);
    ParseIpv6OfPrefix(s, 0, GroupValues(vs) + Zeros(6 - |vs|) + [a * 0x100 + b, c * 0x100 + d], p, m, []);
    assert p + 1 + |Decimal(m)| == |s|;
  }

  /** A third colon after `::` is refused (as in "ffff:::192.168.0.1"). */
  lemma {:induction false} Ipv6GroupsRefusesTripleColon(vs: seq<seq<Byte>>, rest: seq<Byte>)
    requires AllGroupTexts(vs) && |vs| <= 7
    ensures Ipv6GroupsSpec(Compressed(vs, []) + ([':'] + rest), 0) == Fail
  {
    var x := Compressed(vs, []) + ([':'] + rest);
    var e := CompressedSpelled(vs, [], [':'] + rest);
    HeadOfSpelled(x, vs, e);
    assert At(x, e + 2) == ':';
    TailRefusesColon(x, e + 2);
  }

  lemma {:induction false} TailRefusesColon(s: seq<Byte>, p: nat)
    requires At(s, p) == ':'
    ensures TailFrom(s, p, []) == Fail
  {
    OctetStep(s, p, 0, 0);
    DecNumDigitFirst(s, p);
  }

  /** A decimal number starts with a digit. */
  lemma {:induction false} DecNumDigitFirst(s: seq<Byte>, p: nat)
    requires !IsDigit(At(s, p))
    ensures DecNumSpec(s, p, 255) == Fail
  {
  }

  // ---------------------------------------------------------------------
  // The prefix length

  /** Without a `/` after the groups, the value is the address with prefix
      length 128 and no mask flag. */
  lemma {:induction false} ParseIpv6OfGroups(s: seq<Byte>, i: nat, g: seq<nat>, p: nat)
    requires Ipv6GroupsSpec(s, i) == Ok(g, p) && At(s, p) != '/'
    ensures ParseIpv6Spec(s, i) == Ok(Value(TypeIpv6, Ipv6Addr(g), 0, 128), p)
  {
  }

  /** With `/` and a decimal prefix length of at most 128 after the
      groups, the value has that prefix length and the mask flag. */
  lemma {:induction false} ParseIpv6OfPrefix(s: seq<Byte>, i: nat, g: seq<nat>, p: nat, m: nat, rest: seq<Byte>)
    requires Ipv6GroupsSpec(s, i) == Ok(g, p) && p <= |s| && s[p..] == ['/'] + (Decimal(m) + rest)
    requires !IsDigit(At(rest, 0)) && m <= 128
    ensures ParseIpv6Spec(s, i) == Ok(Value(TypeIpv6, Ipv6Addr(g), HAVE_MASK, m), p + 1 + |Decimal(m)|)
  {
    PrefixAt(s, p, m, rest);
    ParseIpv6MaskedOk(s, i, g, p, m, p + 1 + |Decimal(m)|);
  }

  /** A prefix length above 128 is refused. */
  lemma {:induction false} ParseIpv6RefusesLongPrefix(s: seq<Byte>, i: nat, g: seq<nat>, p: nat, m: nat, rest: seq<Byte>)
    requires Ipv6GroupsSpec(s, i) == Ok(g, p) && p <= |s| && s[p..] == ['/'] + (Decimal(m) + rest)
    requires !IsDigit(At(rest, 0)) && m > 128
    ensures ParseIpv6Spec(s, i) == Fail
  {
    PrefixAt(s, p, m, rest);
    ParseIpv6Masked(s, i, g, p);
  }

  lemma {:induction false} ParseIpv6MaskedOk(s: seq<Byte>, i: nat, g: seq<nat>, p: nat, m: nat, n: nat)
    requires Ipv6GroupsSpec(s, i) == Ok(g, p) && At(s, p) == '/'
    requires DecNumSpec(s, p + 1, 128) == Ok(m, n) && m <= 128
    ensures ParseIpv6Spec(s, i) == Ok(Value(TypeIpv6, Ipv6Addr(g), HAVE_MASK, m), n)
  {
    assert m % 0x100 == m;
  }

  lemma {:induction false} ParseIpv6Masked(s: seq<Byte>, i: nat, g: seq<nat>, p: nat)
    requires Ipv6GroupsSpec(s, i) == Ok(g, p) && At(s, p) == '/'
    ensures var d := DecNumSpec(s, p + 1, 128);
      ParseIpv6Spec(s, i) == if d.Ok? then Ok(Value(TypeIpv6, Ipv6Addr(g), HAVE_MASK, d.value % 0x100), d.next) else Fail
  {
  }

  /** A `/` and a decimal prefix length found at `p`. */
  lemma {:induction false} PrefixAt(s: seq<Byte>, p: nat, m: nat, rest: seq<Byte>)
    requires p <= |s| && s[p..] == ['/'] + (Decimal(m) + rest) && !IsDigit(At(rest, 0))
    ensures At(s, p) == '/'
    ensures DecNumSpec(s, p + 1, 128) == if m <= 128 then Ok(m, p + 1 + |Decimal(m)|) else Fail
  {
    assert At(s, p) == s[p..][0];
    assert s[p + 1..] == s[p..][1..];
    DecNumAtDecimal(s, p + 1, m, rest, 128);
  }

  // ---------------------------------------------------------------------
  // What an accepted address holds

  predicate AllGroups(gs: seq<nat>)
  {
    forall k :: 0 <= k < |gs| ==> gs[k] < 0x1_0000
  }

  lemma {:induction false} HeadBounded(s: seq<Byte>, p: nat, gs: seq<nat>)
    requires |gs| <= 8 && AllGroups(gs) && HeadFrom(s, p, gs).Ok?
    ensures AllGroups(HeadFrom(s, p, gs).value)
    decreases 8 - |gs|
  {
    var i := |gs|;
    if i < 8 && !(At(s, p) == ':' && At(s, p + 1) == ':') {
      var q := if i > 0 then p + 1 else p;
      var l := if i == 6 then Ls32Spec(s, q) else Fail;
      if l.Ok? {
        Ls32Bounds(s, q);
      } else {
        H16Accepts(s, q);
        var h := H16Spec(s, q);
        HeadBounded(s, h.next, gs + [h.value]);
      }
    }
  }

  lemma {:induction false} TailBounded(s: seq<Byte>, p: nat, ws: seq<nat>)
    requires |ws| <= 8 && AllGroups(ws) && TailFrom(s, p, ws).Ok?
    ensures AllGroups(TailFrom(s, p, ws).value)
    decreases 8 - |ws|
  {
    var j := |ws|;
    if j < 8 && !IsAddrEnd(At(s, p)) {
      var q := if j > 0 then p + 1 else p;
      var l := if j < 7 then Ls32Spec(s, q) else Fail;
      if l.Ok? && IsAddrEnd(At(s, l.next)) {
        Ls32Bounds(s, q);
      } else {
        H16Accepts(s, q);
        var h := H16Spec(s, q);
        TailBounded(s, h.next, ws + [h.value]);
      }
    }
  }

  /** An accepted address has exactly eight groups of 16 bits each. */
  lemma {:induction false} Ipv6GroupsAccepts(s: seq<Byte>, i: nat)
    requires Ipv6GroupsSpec(s, i).Ok?
    ensures var g := Ipv6GroupsSpec(s, i).value; |g| == 8 && AllGroups(g)
  {
    HeadBounded(s, i, []);
    var h := HeadFrom(s, i, []);
    if |h.value| < 8 {
      TailBounded(s, h.next, []);
      var t := TailFrom(s, h.next, []);
      var z := Zeros(8 - |h.value| - |t.value|);
      assert AllGroups(z);
    }
  }

  /** An accepted value is an IPv6 address of eight 16-bit groups, either
      without mask flag and with prefix length 128, or with the mask flag
      and a prefix length of at most 128. */
  lemma {:induction false} ParseIpv6Accepts(s: seq<Byte>, i: nat)
    requires ParseIpv6Spec(s, i).Ok?
    ensures var v := ParseIpv6Spec(s, i).value;
      v.vtype == TypeIpv6 && v.data.Ipv6Addr? && |v.data.ipv6| == 8 && AllGroups(v.data.ipv6) &&
      ((v.flags == 0 && v.cidrMask == 128) || (v.flags == HAVE_MASK && v.cidrMask <= 128))
  {
    Ipv6GroupsAccepts(s, i);
    var g := Ipv6GroupsSpec(s, i);
    if At(s, g.next) == '/' {
      var m := DecNumSpec(s, g.next + 1, 128);
      DecNumAtMost(s, g.next + 1, 128);
      assert m.value % 0x100 == m.value;
    }
  }

  // ---------------------------------------------------------------------
  // The second loop as written: `ls32` at the last slot

  /** The second loop as the C code has it: `ls32` is tried at every slot,
      the last one included, where its second group is stored one past the
      end of the eight-slot buffer. */
  function TailFromAsWritten(s: seq<Byte>, p: nat, ws: seq<nat>): (r: Res<seq<nat>>)
    requires |ws| <= 8
    ensures r.Ok? ==> |ws| <= |r.value| <= 9
    decreases 8 - |ws|
  {
    var j := |ws|;
    if j == 8 || IsAddrEnd(At(s, p)) then Ok(ws, p)
    else if j > 0 && At(s, p) != ':' then Fail
    else
      var q := if j > 0 then p + 1 else p;
      var l := Ls32Spec(s, q);
      if l.Ok? && IsAddrEnd(At(s, l.next)) then Ok(ws + [l.value.0, l.value.1], l.next)
      else
        match H16Spec(s, q)
        case Fail => Fail
        case Ok(g, r) => TailFromAsWritten(s, r, ws + [g])
  }

  /** The groups of an address with the second loop as written. */
  function Ipv6GroupsAsWritten(s: seq<Byte>, i: nat): Res<seq<nat>>
  {
    match HeadFrom(s, i, [])
    case Fail => Fail
    case Ok(vs, p) =>
      if |vs| == 8 then Ok(vs, p)
      else
        match TailFromAsWritten(s, p, [])
        case Fail => Fail
        case Ok(ws, q) =>
          if |vs| + |ws| > 7 then Fail
          else Ok(vs + Zeros(8 - |vs| - |ws|) + ws, q)
  }

  /** Whatever `ls32` reads starts with a hex digit. */
  lemma {:induction false} Ls32HexFirst(s: seq<Byte>, q: nat)
    requires Ls32Spec(s, q).Ok?
    ensures IsHexDigit(At(s, q))
  {
    match Ipv4AddressSpec(s, q)
    case Ok(_, _) =>
      OctetStep(s, q, 0, 0);
      DecNumAccepts(s, q, 255);
      var d := DecNumSpec(s, q, 255);
      DecimalDigits(d.value);
      assert At(s, q) == s[q..d.next][0];
    case Fail =>
      H16Accepts(s, q);
  }

  /** With seven groups read, an `ls32` that ends the address makes nine:
      the store into the ninth slot is out of bounds. */
  lemma {:induction false} TailAsWrittenOverruns(x: seq<Byte>, p: nat, done: seq<nat>, pair: (nat, nat), e: nat)
    requires |done| == 7 && At(x, p) == ':'
    requires Ls32Spec(x, p + 1) == Ok(pair, e) && IsAddrEnd(At(x, e))
    ensures TailFromAsWritten(x, p, done) == Ok(done + [pair.0, pair.1], e)
    ensures |TailFromAsWritten(x, p, done).value| == 9
  {
  }

  /** The as-written loop's step over one group before the seventh. */
  lemma {:induction false} TailAsWrittenStep(x: seq<Byte>, p: nat, done: seq<nat>, g: nat, e: nat)
    requires |done| < 7
    requires var q := if |done| > 0 then p + 1 else p;
      (|done| > 0 ==> At(x, p) == ':') && IsHexDigit(At(x, q)) && H16Spec(x, q) == Ok(g, e) &&
      (var l := Ls32Spec(x, q); !(l.Ok? && IsAddrEnd(At(x, l.next))))
    ensures TailFromAsWritten(x, p, done) == TailFromAsWritten(x, e, done + [g])
  {
  }

  /** The as-written loop reads the groups `gs`, then a colon and a further
      group `h` follow, and then another colon. */
  lemma {:induction false} TailAsWrittenOfReads(x: seq<Byte>, p: nat, done: seq<nat>, gs: seq<nat>, e: nat,
                                                h: nat, e2: nat)
    requires |done| + |gs| <= 7 && ReadsAt(x, p, |done| > 0, gs, e)
    requires ReadsAt(x, e, true, [h], e2) && At(x, e2) == ':'
    ensures TailFromAsWritten(x, p, done) == TailFromAsWritten(x, e, done + gs)
    decreases |gs|
  {
    if gs == [] {
      AppendNil(done, gs);
    } else {
      var q := if |done| > 0 then p + 1 else p;
      var f := ReadsFirst(x, p, |done| > 0, gs, e);
      if |gs| == 1 {
        assert f == e;
        var f2 := ReadsFirst(x, e, true, [h], e2);
        Ls32PairAt(x, q, gs[0], f, h, e2);
      } else {
        var f2 := ReadsFirst(x, f, true, gs[1..], e);
        Ls32PairAt(x, q, gs[0], f, gs[1], f2);
        if |gs| > 2 {
          var f3 := ReadsFirst(x, f2, true, gs[2..], e);
          assert gs[1..][1..] == gs[2..];
        } else {
          assert f2 == e;
        }
      }
      TailAsWrittenStep(x, p, done, gs[0], f);
      TailAsWrittenOfReads(x, f, done + [gs[0]], gs[1..], e, h, e2);
      ConsAppend(done, gs);
    }
  }

  /** Nine groups after `::`, as in "::1:2:3:4:5:6:7:8:9": the as-written
      loop reads all nine, two of them with an `ls32` at the last slot. */
  lemma {:induction false} TailAsWrittenOverrunsOf(ts: seq<seq<Byte>>, rest: seq<Byte>)
    requires AllGroupTexts(ts) && |ts| == 9 && IsAddrEnd(At(rest, 0))
    ensures var r := TailFromAsWritten(Compressed([], ts) + rest, 2, []);
      r == Ok(GroupValues(ts), |Compressed([], ts)|) && |r.value| == 9
  {
    var x := Compressed([], ts) + rest;
    var f := |Compressed([], ts)|;
    var e := CompressedSpelled([], ts, rest);
    ReadsOfSpelled(x, e + 2, false, ts, f);
    var gs := GroupValues(ts);
    var m := ReadsSplit(x, e + 2, false, gs, 7, f);
    var f1 := ReadsFirst(x, m, true, gs[7..], f);
    var f2 := ReadsFirst(x, f1, true, gs[7..][1..], f);
    NineGroups(gs);
    TailAsWrittenOfReads(x, 2, [], gs[..7], m, gs[7], f1);
    Ls32PairAt(x, m + 1, gs[7], f1, gs[8], f);
    TailAsWrittenOverruns(x, m, gs[..7], (gs[7], gs[8]), f);
  }

  lemma {:induction false} NineGroups(gs: seq<nat>)
    requires |gs| == 9
    ensures [] + gs[..7] == gs[..7] && gs[..7] + [gs[7], gs[8]] == gs && gs[7..][1..] == gs[8..]
  {
  }

  /** The overrun changes nothing the caller sees: nine groups after `::`
      are refused as overlong, as eight would be. */
  lemma {:induction false} TailAsWrittenAgrees(s: seq<Byte>, p: nat, ws: seq<nat>)
    requires |ws| <= 8
    ensures var a := TailFromAsWritten(s, p, ws); var c := TailFrom(s, p, ws);
      a == c || (a.Ok? && c.Ok? && |a.value| == 9 && |c.value| == 8)
    decreases 8 - |ws|
  {
    if |ws| < 8 && !IsAddrEnd(At(s, p)) && !(|ws| > 0 && At(s, p) != ':') {
      var q := if |ws| > 0 then p + 1 else p;
      if |ws| == 7 {
        if Ls32Spec(s, q).Ok? {
          Ls32HexFirst(s, q);
          H16Accepts(s, q);
        }
      } else {
        match H16Spec(s, q)
        case Fail =>
        case Ok(g, r) => TailAsWrittenAgrees(s, r, ws + [g]);
      }
    }
  }

  lemma {:induction false} Ipv6GroupsAsWrittenAgrees(s: seq<Byte>, i: nat)
    ensures Ipv6GroupsAsWritten(s, i) == Ipv6GroupsSpec(s, i)
  {
    var h := HeadFrom(s, i, []);
    if h.Ok? && |h.value| < 8 {
      TailAsWrittenAgrees(s, h.next, []);
      GroupsAgreeAt(s, i, h.value, h.next, TailFromAsWritten(s, h.next, []), TailFrom(s, h.next, []));
    }
  }

  /** Both readings of the groups agree when their second loops do, or
      when both read too many groups. */
  lemma {:induction false} GroupsAgreeAt(s: seq<Byte>, i: nat, vs: seq<nat>, p: nat, a: Res<seq<nat>>, c: Res<seq<nat>>)
    requires HeadFrom(s, i, []) == Ok(vs, p) && |vs| < 8
    requires TailFromAsWritten(s, p, []) == a && TailFrom(s, p, []) == c
    requires a == c || (a.Ok? && c.Ok? && |a.value| == 9 && |c.value| == 8)
    ensures Ipv6GroupsAsWritten(s, i) == Ipv6GroupsSpec(s, i)
  {
  }
}
