/** `gcfg_parse_enum`: a name from a caller-supplied table. */
module Enum {
  import opened Base
  import opened Values
  import opened Words

  /** A table entry (`gcfg_enum_t`): a name and the value it stands for.
      The table is the sequence of entries before the NULL-name sentinel;
      each name is the bytes of a C string, so it holds no NUL and
      `strlen` measures all of it. */
  datatype EnumToken = EnumToken(name: CName, value: int)

  /** The names of a table, in table order. */
  function Names(tokens: seq<EnumToken>): (ns: seq<seq<Byte>>)
    ensures |ns| == |tokens| && forall k :: 0 <= k < |tokens| ==> ns[k] == tokens[k].name
  {
    if tokens == [] then [] else [tokens[0].name] + Names(tokens[1..])
  }

  /** The meaning of `gcfg_parse_enum`: the first entry whose name stands
      whole at `i` (followed by a blank or the end), its value, and the
      position just past the name. */
  function ParseEnumSpec(s: seq<Byte>, i: nat, tokens: seq<EnumToken>): Res<Value>
  {
    match FirstToken(s, i, Names(tokens), false, 0)
    case None => Fail
    case Some(k) => Ok(Value(TypeEnum, EnumValue(tokens[k].value), 0, 0), i + |tokens[k].name|)
  }

  /** `gcfg_parse_enum`: the scan of the table up to the sentinel, then the
      value of the entry it stopped at. */
  method ParseEnum(s: seq<Byte>, i: nat, tokens: seq<EnumToken>) returns (r: Res<Value>)
    ensures r == ParseEnumSpec(s, i, tokens)
  {
    var found := FindToken(s, i, Names(tokens), false);
    if found.None? {
      return Fail;
    }
    var k := found.value;
    return Ok(Value(TypeEnum, EnumValue(tokens[k].value), 0, 0), i + |tokens[k].name|);
  }

  /** An entry whose name stands whole at `i`, with no earlier entry doing
      so, is the one read: its value, and the name consumed. */
  lemma {:induction false} ParseEnumFirstMatch(s: seq<Byte>, i: nat, tokens: seq<EnumToken>, k: nat)
    requires k < |tokens| && TokenAt(s, i, tokens[k].name, false)
    requires forall j :: 0 <= j < k ==> !TokenAt(s, i, tokens[j].name, false)
    ensures ParseEnumSpec(s, i, tokens) == Ok(Value(TypeEnum, EnumValue(tokens[k].value), 0, 0), i + |tokens[k].name|)
  {
    FirstTokenIs(s, i, Names(tokens), false, 0, k);
  }

  /** Conversely, what is read is some entry's name standing whole at `i`,
      with that entry's value, and no earlier entry stands there. */
  lemma {:induction false} ParseEnumAccepts(s: seq<Byte>, i: nat, tokens: seq<EnumToken>)
    requires ParseEnumSpec(s, i, tokens).Ok?
    ensures var r := ParseEnumSpec(s, i, tokens);
      exists k :: 0 <= k < |tokens| && TokenAt(s, i, tokens[k].name, false)
        && r == Ok(Value(TypeEnum, EnumValue(tokens[k].value), 0, 0), i + |tokens[k].name|)
        && forall j :: 0 <= j < k ==> !TokenAt(s, i, tokens[j].name, false)
  {
    var k := FirstToken(s, i, Names(tokens), false, 0).value;
    assert TokenAt(s, i, tokens[k].name, false);
  }

  /** The text is refused exactly when no entry's name stands whole at `i`. */
  lemma {:induction false} ParseEnumRefuses(s: seq<Byte>, i: nat, tokens: seq<EnumToken>)
    ensures ParseEnumSpec(s, i, tokens) == Fail
        <==> forall k :: 0 <= k < |tokens| ==> !TokenAt(s, i, tokens[k].name, false)
  {
    if ParseEnumSpec(s, i, tokens) != Fail {
      var k := FirstToken(s, i, Names(tokens), false, 0).value;
      assert TokenAt(s, i, tokens[k].name, false);
    }
  }

  /** A name is matched only whole: with "foo" listed before "foobar",
      "foobar" reads the second entry and "foo bar" the first. */
  lemma {:induction false} ParseEnumPrefixSample(foo: seq<Byte>, foobar: seq<Byte>, bar: seq<Byte>)
    requires foo == "foo" && foobar == "foobar" && bar == " bar"
    ensures ParseEnumSpec(foobar, 0, [EnumToken(foo, 1), EnumToken(foobar, 2)])
      == Ok(Value(TypeEnum, EnumValue(2), 0, 0), 6)
    ensures ParseEnumSpec(foo + bar, 0, [EnumToken(foo, 1), EnumToken(foobar, 2)])
      == Ok(Value(TypeEnum, EnumValue(1), 0, 0), 3)
  {
    var tokens := [EnumToken(foo, 1), EnumToken(foobar, 2)];
    assert foobar[0..3] == foo && At(foobar, 3) == 'b';
    TokenOfText(foobar, [], false);
    assert foobar + [] == foobar;
    ParseEnumFirstMatch(foobar, 0, tokens, 1);
    TokenOfText(foo, bar, false);
    ParseEnumFirstMatch(foo + bar, 0, tokens, 0);
  }

  /** When two entries share a name, the earlier one wins. */
  lemma {:induction false} ParseEnumOrderSample(w: CName, rest: seq<Byte>, a: int, b: int)
    requires EndsWord(At(rest, 0), false)
    ensures ParseEnumSpec(w + rest, 0, [EnumToken(w, a), EnumToken(w, b)])
      == Ok(Value(TypeEnum, EnumValue(a), 0, 0), |w|)
  {
    TokenOfText(w, rest, false);
    ParseEnumFirstMatch(w + rest, 0, [EnumToken(w, a), EnumToken(w, b)], 0);
  }
}
