/** Matching a word of a table at the cursor, as `gcfg_parse_boolean`,
    `gcfg_parse_enum` and the keyword search do it: `strncmp` over the
    word's length, then a look at the character after it. */
module Words {
  import opened Base

  /** The characters that end a value word: a blank or the end of the
      line, and, where comments may follow, a `#`. */
  predicate EndsWord(c: Byte, hashEnds: bool)
  {
    c == ' ' || c == '\t' || c == '\0' || (hashEnds && c == '#')
  }

  /** The word stands at `i`, whole. */
  predicate TokenAt(s: seq<Byte>, i: nat, w: seq<Byte>, hashEnds: bool)
  {
    WordAt(s, i, w) && EndsWord(At(s, i + |w|), hashEnds)
  }

  /** The first entry from `k` on whose word stands whole at `i`. */
  function FirstToken(s: seq<Byte>, i: nat, words: seq<seq<Byte>>, hashEnds: bool, k: nat): (r: Option<nat>)
    ensures r.Some? ==> k <= r.value < |words| && TokenAt(s, i, words[r.value], hashEnds)
    ensures r.Some? ==> forall j :: k <= j < r.value ==> !TokenAt(s, i, words[j], hashEnds)
    ensures r.None? ==> forall j :: k <= j < |words| ==> !TokenAt(s, i, words[j], hashEnds)
    decreases |words| - k
  {
    if k >= |words| then None
    else if TokenAt(s, i, words[k], hashEnds) then Some(k)
    else FirstToken(s, i, words, hashEnds, k + 1)
  }

  /** The scan of a table as the three parsers write it: each entry in
      turn, skipping those whose word is not at the cursor or is followed by
      anything but an ending character. */
  method FindToken(s: seq<Byte>, i: nat, words: seq<seq<Byte>>, hashEnds: bool) returns (r: Option<nat>)
    ensures r == FirstToken(s, i, words, hashEnds, 0)
  {
    for k := 0 to |words|
      invariant FirstToken(s, i, words, hashEnds, k) == FirstToken(s, i, words, hashEnds, 0)
    {
      var len := |words[k]|;
      if !WordAt(s, i, words[k]) {
        continue;
      }
      var c := At(s, i + len);
      if c == ' ' || c == '\t' || c == '\0' || (hashEnds && c == '#') {
        return Some(k);
      }
    }
    return None;
  }

  /** An entry whose word stands at `i`, with no earlier entry matching,
      is the one found. */
  lemma {:induction false} FirstTokenIs(s: seq<Byte>, i: nat, words: seq<seq<Byte>>, hashEnds: bool, k: nat, m: nat)
    requires k <= m < |words| && TokenAt(s, i, words[m], hashEnds)
    requires forall j :: k <= j < m ==> !TokenAt(s, i, words[j], hashEnds)
    ensures FirstToken(s, i, words, hashEnds, k) == Some(m)
    decreases m - k
  {
    if k < m {
      FirstTokenIs(s, i, words, hashEnds, k + 1, m);
    }
  }

  /** The entry found stands whole at `i`: the text there is its word, and
      an ending character follows. */
  lemma {:induction false} FoundToken(s: seq<Byte>, i: nat, words: seq<seq<Byte>>, hashEnds: bool, k: nat)
    requires FirstToken(s, i, words, hashEnds, 0) == Some(k)
    ensures k < |words| && i + |words[k]| <= |s| && s[i..i + |words[k]|] == words[k] && words[k] in words
    ensures EndsWord(At(s, i + |words[k]|), hashEnds)
  {
    WordAtSlice(s, i, words[k]);
  }

  /** A word written out, followed by an ending character, stands whole at
      the start of the text. */
  lemma {:induction false} TokenOfText(w: seq<Byte>, rest: seq<Byte>, hashEnds: bool)
    requires EndsWord(At(rest, 0), hashEnds)
    ensures TokenAt(w + rest, 0, w, hashEnds)
  {
    assert (w + rest)[0..|w|] == w;
    WordAtSlice(w + rest, 0, w);
    assert At(w + rest, |w|) == At(rest, 0);
  }
}
