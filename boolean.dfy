/** `gcfg_parse_boolean`: one of six fixed words, case-sensitive. */
module Boolean {
  import opened Base
  import opened Values
  import opened Words

  /** The `mapping` table, column by column: the words in table order
      (the `len` column is each word's length) ... */
  const WORDS: seq<seq<Byte>> := ["on", "yes", "true", "off", "no", "false"]

  /** ... and the value of each. */
  const VALUES: seq<nat> := [1, 1, 1, 0, 0, 0]

  /** The words meaning true. */
  const TRUE_WORDS: set<seq<Byte>> := {"on", "yes", "true"}

  /** The meaning of `gcfg_parse_boolean`: the first table word standing
      whole at `i` (followed by a blank or the end), its value as a truth
      value, and the position just past it. */
  function ParseBooleanSpec(s: seq<Byte>, i: nat): Res<Value>
  {
    match FirstToken(s, i, WORDS, false, 0)
    case None => Fail
    case Some(k) => Ok(Value(TypeBoolean, Truth(VALUES[k] != 0), 0, 0), i + |WORDS[k]|)
  }

  /** `gcfg_parse_boolean`: the scan of the table, then the value of the
      entry found. */
  method ParseBoolean(s: seq<Byte>, i: nat) returns (r: Res<Value>)
    ensures r == ParseBooleanSpec(s, i)
  {
    var found := FindToken(s, i, WORDS, false);
    if found.None? {
      return Fail;
    }
    var k := found.value;
    return Ok(Value(TypeBoolean, Truth(VALUES[k] != 0), 0, 0), i + |WORDS[k]|);
  }

  /** Each table word is true exactly when it is one of the true words. */
  lemma {:induction false} MappingValues(k: nat)
    requires k < |WORDS|
    ensures VALUES[k] != 0 <==> WORDS[k] in TRUE_WORDS
  {
  }

  /** Round trip: each of the six words, followed by a blank or the end,
      is read as its truth value, and exactly the word is consumed. */
  lemma {:induction false} ParseBooleanOfWord(w: seq<Byte>, rest: seq<Byte>)
    requires w in WORDS && EndsWord(At(rest, 0), false)
    ensures ParseBooleanSpec(w + rest, 0) == Ok(Value(TypeBoolean, Truth(w in TRUE_WORDS), 0, 0), |w|)
  {
    var s := w + rest;
    var m :| 0 <= m < |WORDS| && WORDS[m] == w;
    TokenOfText(w, rest, false);
    forall j | 0 <= j < m
      ensures !TokenAt(s, 0, WORDS[j], false)
    {
      EarlierWordDiffers(s, w, j, m);
    }
    FirstTokenIs(s, 0, WORDS, false, 0, m);
    MappingValues(m);
  }

  /** No table word is a prefix of a later one, and none is followed in a
      later word by an ending character, so an earlier word never stands
      where a later one is written. */
  lemma {:induction false} EarlierWordDiffers(s: seq<Byte>, w: seq<Byte>, j: nat, m: nat)
    requires j < m < |WORDS| && WORDS[m] == w && |w| <= |s| && s[..|w|] == w
    ensures !WordAt(s, 0, WORDS[j])
  {
    assert s[0] == s[..|w|][0] == w[0];
    if j == 0 && m == 3 {
      assert s[1] == s[..|w|][1] == w[1] != WORDS[j][1];
    } else {
      assert WORDS[j][0] != w[0];
    }
  }

  /** What is accepted is a table word standing whole at `i`, and it is
      true exactly when the word is one of the true words. */
  lemma {:induction false} ParseBooleanAccepts(s: seq<Byte>, i: nat)
    requires ParseBooleanSpec(s, i).Ok?
    ensures var r := ParseBooleanSpec(s, i);
      i <= r.next <= |s| && s[i..r.next] in WORDS && EndsWord(At(s, r.next), false)
      && (r.value.data.boolean <==> s[i..r.next] in TRUE_WORDS)
  {
    var k := FirstToken(s, i, WORDS, false, 0).value;
    FoundToken(s, i, WORDS, false, k);
    MappingValues(k);
  }

  /** A text at which no table word stands whole is refused. */
  lemma {:induction false} ParseBooleanRefuses(s: seq<Byte>, i: nat)
    requires forall k :: 0 <= k < |WORDS| ==> !TokenAt(s, i, WORDS[k], false)
    ensures ParseBooleanSpec(s, i) == Fail
  {
  }

  /** The words are case-sensitive and must stand whole: "On" and "onx"
      are refused. */
  lemma {:induction false} ParseBooleanRefusals()
    ensures ParseBooleanSpec("On", 0) == Fail
    ensures ParseBooleanSpec("onx", 0) == Fail
  {
    var a: seq<Byte> := "On";
    var b: seq<Byte> := "onx";
    assert a[0] == 'O' && b[2] == 'x' && |a| == 2 && |b| == 3;
    forall k | 0 <= k < |WORDS|
      ensures !TokenAt(a, 0, WORDS[k], false) && !TokenAt(b, 0, WORDS[k], false)
    {
      assert WORDS[k][0] != a[0];
      assert k == 0 || WORDS[k][0] != b[0] || WORDS[k][1] != b[1];
    }
    ParseBooleanRefuses(a, 0);
    ParseBooleanRefuses(b, 0);
  }
}
