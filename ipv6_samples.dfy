/** The IPv6 addresses of the library's own examples, read through the
    round-trip lemmas. A group is spelled either with its shortest text
    (`HexTexts`) or with any text worth its value. */
module Ipv6Samples {
  import opened Base
  import opened Values
  import opened DecNum
  import opened Ipv4
  import opened Ipv6

  /** "::" is the address of eight zero groups. */
  lemma {:induction false} ParseIpv6OfUnspecified()
    ensures ParseIpv6Spec(Compressed([], []), 0)
         == Ok(Value(TypeIpv6, Ipv6Addr([0, 0, 0, 0, 0, 0, 0, 0]), 0, 128), 2)
  {
    var s := Compressed([], []);
    assert AllGroupTexts([]);
    Ipv6GroupsOfCompressed([], [], []);
    assert s + [] == s && |s| == 2;
    assert GroupValues([]) + Zeros(8) + GroupValues([]) == [0, 0, 0, 0, 0, 0, 0, 0];
    ParseIpv6OfGroups(s, 0, [0, 0, 0, 0, 0, 0, 0, 0], 2);
  }

  /** "2001:41d0:52:cff::1714", with the groups in any spelling: four
      groups, `::`, one group. */
  lemma {:induction false} ParseIpv6OfCompressedSample(vs: seq<seq<Byte>>, ws: seq<seq<Byte>>)
    requires AllGroupTexts(vs) && GroupValues(vs) == [0x2001, 0x41D0, 0x52, 0xCFF]
    requires AllGroupTexts(ws) && GroupValues(ws) == [0x1714]
    ensures ParseIpv6Spec(Compressed(vs, ws), 0)
         == Ok(Value(TypeIpv6, Ipv6Addr([0x2001, 0x41D0, 0x52, 0xCFF, 0, 0, 0, 0x1714]), 0, 128), |Compressed(vs, ws)|)
  {
    Ipv6GroupsOfCompressed(vs, ws, []);
    CompressedSampleValues(vs, ws);
    ParseIpv6OfGroups(Compressed(vs, ws) + [], 0, [0x2001, 0x41D0, 0x52, 0xCFF, 0, 0, 0, 0x1714], |Compressed(vs, ws)|);
  }

  /** The groups of "2001:41d0:52:cff::1714" written out. */
  lemma {:induction false} CompressedSampleValues(vs: seq<seq<Byte>>, ws: seq<seq<Byte>>)
    requires AllGroupTexts(vs) && GroupValues(vs) == [0x2001, 0x41D0, 0x52, 0xCFF]
    requires AllGroupTexts(ws) && GroupValues(ws) == [0x1714]
    ensures |vs| + |ws| <= 7 && Compressed(vs, ws) + [] == Compressed(vs, ws)
    ensures GroupValues(vs) + Zeros(8 - |vs| - |ws|) + GroupValues(ws) == [0x2001, 0x41D0, 0x52, 0xCFF, 0, 0, 0, 0x1714]
  {
  }

  /** "::1/32": the loopback group after `::`, with a prefix length. */
  lemma {:induction false} ParseIpv6OfPrefixSample()
    ensures var s := Compressed([], HexTexts([1])) + (['/'] + Decimal(32));
      ParseIpv6Spec(s, 0)
      == Ok(Value(TypeIpv6, Ipv6Addr([0, 0, 0, 0, 0, 0, 0, 1]), HAVE_MASK, 32), |s|)
  {
    var rest := ['/'] + Decimal(32);
    var s := Compressed([], HexTexts([1])) + rest;
    var p := |Compressed([], HexTexts([1]))|;
    assert AllGroupTexts([]);
    HexTextsRead([1]);
    Ipv6GroupsOfCompressed([], HexTexts([1]), rest);
    assert GroupValues([]) + Zeros(7) + [1] == [0, 0, 0, 0, 0, 0, 0, 1];
    assert s[p..] == ['/'] + (Decimal(32) + []);
    ParseIpv6OfPrefix(s, 0, [0, 0, 0, 0, 0, 0, 0, 1], p, 32, []);
  }

  /** "::1/130": a prefix length above 128 is refused. */
  lemma {:induction false} ParseIpv6RefusesPrefixSample()
    ensures ParseIpv6Spec(Compressed([], HexTexts([1])) + (['/'] + Decimal(130)), 0) == Fail
  {
    var rest := ['/'] + Decimal(130);
    var s := Compressed([], HexTexts([1])) + rest;
    var p := |Compressed([], HexTexts([1]))|;
    assert AllGroupTexts([]);
    HexTextsRead([1]);
    Ipv6GroupsOfCompressed([], HexTexts([1]), rest);
    assert s[p..] == ['/'] + (Decimal(130) + []);
    ParseIpv6RefusesLongPrefix(s, 0, GroupValues([]) + Zeros(7) + [1], p, 130, []);
  }

  /** "ffff::192.168.0.1/64", with the group `ffff` in any spelling (`v`):
      one group, `::`, the dotted quad `a.b.c.d` for the last two groups
      and a prefix length. */
  lemma {:induction false} ParseIpv6OfDottedSample(v: seq<Byte>, a: nat, b: nat, c: nat, d: nat)
    requires IsGroupText(v) && HexValue(v) == 0xFFFF
    requires a == 192 && b == 168 && c == 0 && d == 1
    ensures var s := Compressed([v], []) + (Dotted(a, b, c, d) + (['/'] + Decimal(64)));
      ParseIpv6Spec(s, 0) == Ok(Value(TypeIpv6, Ipv6Addr([0xFFFF] + Zeros(5) + [0xC0A8, 1]), HAVE_MASK, 64), |s|)
  {
    DottedSampleValues(v, a, b, c, d);
    ParseIpv6OfCompressedDotted([v], a, b, c, d, 64);
  }

  /** The groups of "ffff::192.168.0.1" written out. */
  lemma {:induction false} DottedSampleValues(v: seq<Byte>, a: nat, b: nat, c: nat, d: nat)
    requires IsGroupText(v) && HexValue(v) == 0xFFFF
    requires a == 192 && b == 168 && c == 0 && d == 1
    ensures AllGroupTexts([v])
    ensures GroupValues([v]) + Zeros(6 - |[v]|) + [a * 0x100 + b, c * 0x100 + d] == [0xFFFF] + Zeros(5) + [0xC0A8, 1]
  {
    assert GroupValues([v]) == [0xFFFF];
  }

  /** "ffff:::192.168.0.1/64": a third colon is refused. */
  lemma {:induction false} ParseIpv6RefusesTripleColonSample()
    ensures ParseIpv6Spec(Compressed(HexTexts([0xFFFF]), []) + ([':'] + (Dotted(192, 168, 0, 1) + (['/'] + Decimal(64)))), 0)
         == Fail
  {
    HexTextsRead([0xFFFF]);
    Ipv6GroupsRefusesTripleColon(HexTexts([0xFFFF]), Dotted(192, 168, 0, 1) + (['/'] + Decimal(64)));
  }
}
