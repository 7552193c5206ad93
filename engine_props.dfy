// Properties of the grammar engine: how a block can end, what a listing
// records, which statements reach the callbacks, and small files read
// line by line.

module EngineProps {
  import opened Base
  import opened Values
  import opened Words
  import Utf8
  import opened Engine

  /** A line `parse` passes over: accepted by the UTF-8 check, and only
      blanks before its end or its comment. */
  predicate IsBlankLine(f: Fetch)
  {
    f.Line? && Utf8.ValidAsWrittenFrom(CString(Buffer(f.text)), 0) && EndsLine(Buffer(f.text), 0)
  }

  /** The outermost block succeeds only by reading to the end of the
      file; an inner block succeeds only on a `}` line, the last it
      fetches. */
  lemma {:induction false} ParseOutcome(src: seq<Fetch>, pos: nat, kws: seq<Keyword>, parent: Handle, level: nat, tr: Trace)
    requires pos <= |src|
    ensures var r := ParseSpec(src, pos, kws, parent, level, tr);
            (r.ok && level == 0 ==> r.pos == |src|) &&
            (r.ok && level > 0 ==> pos < r.pos && ClosesBlock(src[r.pos - 1]))
    decreases |src| - pos
  {
    if pos < |src| {
      var more, next, trace := LineStep(src, pos, kws, parent, level, tr);
      if more {
        ParseOutcome(src, next, kws, parent, level, trace);
      }
    }
  }

  /** One line of `parse`: either the block goes on from a later fetch,
      or it ends with this line, and then successfully only on a `}` line
      inside a block. */
  lemma LineStep(src: seq<Fetch>, pos: nat, kws: seq<Keyword>, parent: Handle, level: nat, tr: Trace)
    returns (more: bool, next: nat, trace: Trace)
    requires pos < |src|
    ensures more ==> pos < next <= |src| &&
                     ParseSpec(src, pos, kws, parent, level, tr) == ParseSpec(src, next, kws, parent, level, trace)
    ensures !more ==> var r := ParseSpec(src, pos, kws, parent, level, tr);
                      r.ok ==> level > 0 && r.pos == pos + 1 && ClosesBlock(src[pos])
  {
    more, next, trace := false, pos + 1, tr;
    if src[pos].ReadError? {
      return;
    }
    var s := Buffer(src[pos].text);
    if !Utf8.ValidAsWrittenFrom(CString(s), 0) {
      return;
    }
    var p := SkipBlanks(s, 0);
    if IsAlpha(At(s, p)) {
      var st := KeywordLine(src, pos + 1, kws, parent, level, tr, s, p);
      more, next, trace := st.ok, st.pos, st.trace;
    } else if At(s, p) == '}' {
      if level != 0 && EndsLine(s, p + 1) {
        ClosingLine(src[pos], s, p);
      }
    } else if IsLineEnd(At(s, p)) {
      more := true;
    }
  }

  /** A line that passes the UTF-8 check, made of blanks, `}`, blanks and
      a line end, closes a block. */
  lemma ClosingLine(f: Fetch, s: seq<Byte>, p: nat)
    requires f.Line? && s == Buffer(f.text) && Utf8.ValidAsWrittenFrom(CString(s), 0)
    requires p == SkipBlanks(s, 0) && At(s, p) == '}' && EndsLine(s, p + 1)
    ensures ClosesBlock(f)
  {
  }

  /** A listing that succeeds ends on a `}` line, the last it fetched. */
  lemma {:induction false} ListingCloses(src: seq<Fetch>, pos: nat, kwd: Keyword, obj: Handle, tr: Trace)
    requires pos <= |src| && kwd.handleListing.Some?
    ensures var r := ListingSpec(src, pos, kwd, obj, tr);
            r.ok ==> pos < r.pos && ClosesBlock(src[r.pos - 1])
    decreases |src| - pos
  {
    if pos < |src| {
      var more, trace := ListingStep(src, pos, kwd, obj, tr);
      if more {
        ListingCloses(src, pos + 1, kwd, obj, trace);
      }
    }
  }

  /** A listing that succeeds handed every line it fetched, the closing
      one included, to the handler, in order, one call per line. */
  lemma {:induction false} ListingRecordsLines(src: seq<Fetch>, pos: nat, kwd: Keyword, obj: Handle, tr: Trace)
    requires pos <= |src| && kwd.handleListing.Some?
    ensures var r := ListingSpec(src, pos, kwd, obj, tr);
            r.ok ==> |r.trace| == |tr| + (r.pos - pos) &&
                     forall k :: |tr| <= k < |r.trace| ==> ListedAt(src, r.trace, |tr|, pos, k, kwd.name, obj)
    decreases |src| - pos
  {
    var r0 := ListingSpec(src, pos, kwd, obj, tr);
    if pos < |src| {
      var more, trace := ListingStep(src, pos, kwd, obj, tr);
      if more {
        var r := ListingSpec(src, pos + 1, kwd, obj, trace);
        assert r0 == r;
        ListingRecordsLines(src, pos + 1, kwd, obj, trace);
        if r.ok {
          forall k | |tr| <= k < |r.trace|
            ensures ListedAt(src, r.trace, |tr|, pos, k, kwd.name, obj)
          {
            if k == |tr| {
              ListedPrefix(src, trace, r.trace, |tr|, pos, k, kwd.name, obj);
            } else {
              ListedShift(src, r.trace, |tr|, pos, k, kwd.name, obj);
            }
          }
        }
      } else if r0.ok {
        forall k | |tr| <= k < |r0.trace|
          ensures ListedAt(src, r0.trace, |tr|, pos, k, kwd.name, obj)
        {
          assert k == |tr|;
        }
      }
    }
  }

  /** One line of `plain_listing`: it is handed to the handler, and either
      the listing goes on with the next fetch, or it ends with this line,
      and then successfully only on a `}` line. */
  lemma ListingStep(src: seq<Fetch>, pos: nat, kwd: Keyword, obj: Handle, tr: Trace)
    returns (more: bool, trace: Trace)
    requires pos < |src| && kwd.handleListing.Some?
    ensures more ==> |trace| == |tr| + 1 && tr <= trace && ListedAt(src, trace, |tr|, pos, |tr|, kwd.name, obj) &&
                     ListingSpec(src, pos, kwd, obj, tr) == ListingSpec(src, pos + 1, kwd, obj, trace)
    ensures !more ==> var r := ListingSpec(src, pos, kwd, obj, tr);
                      r.ok ==> r.pos == pos + 1 && ClosesBlock(src[pos]) && |r.trace| == |tr| + 1 &&
                               ListedAt(src, r.trace, |tr|, pos, |tr|, kwd.name, obj)
  {
    more, trace := false, tr;
    if src[pos].ReadError? {
      return;
    }
    var s := Buffer(src[pos].text);
    if !Utf8.ValidAsWrittenFrom(CString(s), 0) {
      return;
    }
    var line := CString(s);
    var ret := kwd.handleListing.value(tr, obj, line);
    trace := tr + [Listing(kwd.name, obj, line, ret)];
    more := ret == 0;
    assert ListedAt(src, trace, |tr|, pos, |tr|, kwd.name, obj);
  }

  /** A later trace keeps the calls of an earlier one. */
  lemma ListedPrefix(src: seq<Fetch>, t1: Trace, t2: Trace, base: nat, start: nat, k: nat, name: CName, obj: Handle)
    requires t1 <= t2 && ListedAt(src, t1, base, start, k, name, obj)
    ensures ListedAt(src, t2, base, start, k, name, obj)
  {
    assert t2[k] == t1[k];
  }

  /** Counting from the next call and the next line names the same pair. */
  lemma ListedShift(src: seq<Fetch>, trace: Trace, base: nat, start: nat, k: nat, name: CName, obj: Handle)
    requires base < k && ListedAt(src, trace, base + 1, start + 1, k, name, obj)
    ensures ListedAt(src, trace, base, start, k, name, obj)
  {
  }

  /** Blank and comment lines make no calls: a file of them is accepted
      at the outermost level, and refused inside a block. */
  lemma {:induction false} BlankSource(src: seq<Fetch>, pos: nat, kws: seq<Keyword>, parent: Handle, level: nat, tr: Trace)
    requires pos <= |src|
    requires forall j :: pos <= j < |src| ==> IsBlankLine(src[j])
    ensures ParseSpec(src, pos, kws, parent, level, tr) == Run(level == 0, |src|, tr)
    decreases |src| - pos
  {
    if pos < |src| {
      assert IsBlankLine(src[pos]);
      BlankSource(src, pos + 1, kws, parent, level, tr);
    }
  }

  /** `set_property` is called on a keyword line exactly when a keyword
      of the table is found, the presence of an argument matches its
      type, and the argument reads; it is the first call the statement
      makes, with the value read. */
  lemma SetPropertyCalled(src: seq<Fetch>, pos: nat, kws: seq<Keyword>, parent: Handle, level: nat, tr: Trace,
                          s: seq<Byte>, p: nat)
    requires pos <= |src|
    ensures var r := KeywordLine(src, pos, kws, parent, level, tr, s, p);
            var f := FindKeywordSpec(s, p, kws);
            var called := f.Some? && HasArgument(s, f.value.1) == (kws[f.value.0].arg != 0) &&
                          ArgSpec(kws[f.value.0], s, f.value.1).Ok?;
            (called <==> |r.trace| > |tr|) &&
            (!called ==> r == Run(false, pos, tr)) &&
            (called ==> var v := ArgSpec(kws[f.value.0], s, f.value.1).value;
                        r.trace[|tr|] == SetProperty(kws[f.value.0].name, parent, v, kws[f.value.0].setProperty(tr, parent, v)))
  {
    var f := FindKeywordSpec(s, p, kws);
    if f.Some? {
      var kwd := kws[f.value.0];
      var q := f.value.1;
      if HasArgument(s, q) == (kwd.arg != 0) && ArgSpec(kwd, s, q).Ok? {
        var a := ArgSpec(kwd, s, q);
        var r := StatementSpec(src, pos, kwd, parent, level, tr, a.value, LineAfterArg(kwd, s, q), a.next);
        var child := kwd.setProperty(tr, parent, a.value);
        var tr1 := tr + [SetProperty(kwd.name, parent, a.value, child)];
        assert tr1 <= r.trace;
        assert r.trace[|tr|] == tr1[|tr|];
      }
    }
  }

  /** A keyword whose argument type is a percentage, a URI or no known
      type never reaches `set_property`: its line fails as soon as the
      keyword is found. */
  lemma UnsupportedArgument(src: seq<Fetch>, pos: nat, kws: seq<Keyword>, parent: Handle, level: nat, tr: Trace,
                            s: seq<Byte>, p: nat, k: nat)
    requires pos <= |src|
    requires FindKeywordSpec(s, p, kws).Some? && FindKeywordSpec(s, p, kws).value.0 == k
    requires kws[k].arg == TypePercentage.Code() || kws[k].arg >= TypeUri.Code()
    ensures KeywordLine(src, pos, kws, parent, level, tr, s, p) == Run(false, pos, tr)
  {
    var q := FindKeywordSpec(s, p, kws).value.1;
    var c := TypeOfCode(kws[k].arg);
    assert c == Some(TypePercentage) || c == Some(TypeUri) || c.None?;
    assert ArgSpec(kws[k], s, q) == Fail;
  }

  /** `a{`: a `{` does not end a keyword, so the keyword `a` is not
      found and the file is refused before any call. */
  lemma BraceIsNoBoundary(kwd: Keyword, usr: Handle)
    requires kwd.name == ['a']
    ensures ParseSpec([Line(['a', '{'])], 0, [kwd], usr, 0, []) == Run(false, 1, [])
  {
    var s := Buffer(['a', '{']);
    assert CString(s) == ['a', '{'];
    Utf8.AsciiValid(['a', '{'], 0);
    Utf8.ValidIsValidAsWritten(['a', '{'], 0);
    assert !TokenAt(s, 0, kwd.name, true);
    assert FirstToken(s, 0, KeywordNames([kwd]), true, 0) == None;
  }

  /** `a` alone on its line, for a keyword without argument, block or
      finalizer: one `set_property` call with a zeroed value, and the
      file is accepted. */
  lemma SimpleStatement(kwd: Keyword, usr: Handle)
    requires kwd.name == ['a'] && kwd.arg == TypeNone.Code()
    requires kwd.finalizeObject.None? && kwd.setProperty([], usr, ZEROED) != NULL
    ensures var child := kwd.setProperty([], usr, ZEROED);
            ParseSpec([Line(['a'])], 0, [kwd], usr, 0, []) == Run(true, 1, [SetProperty(kwd.name, usr, ZEROED, child)])
  {
    var s := Buffer(['a']);
    assert CString(s) == ['a'];
    Utf8.AsciiValid(['a'], 0);
    Utf8.ValidIsValidAsWritten(['a'], 0);
    TokenOfText(['a'], ['\0'], true);
    assert s == ['a'] + ['\0'];
    assert FirstToken(s, 0, KeywordNames([kwd]), true, 0) == Some(0);
  }

  /** A line `}` inside a block ends it, without a call. */
  lemma ClosingBraceEndsBlock(src: seq<Fetch>, pos: nat, kws: seq<Keyword>, parent: Handle, level: nat, tr: Trace)
    requires pos < |src| && src[pos] == Line(['}']) && level > 0
    ensures ParseSpec(src, pos, kws, parent, level, tr) == Run(true, pos + 1, tr)
  {
    var c := Buffer(['}']);
    assert CString(c) == ['}'];
    Utf8.AsciiValid(['}'], 0);
    Utf8.ValidIsValidAsWritten(['}'], 0);
    assert LineSpec(src, pos, kws, parent, level, tr, c) == Run(true, pos + 1, tr);
  }

  /** `a {` and `}` on the next line, for a keyword with an empty child
      table: the block is read and closed, and both lines are consumed. */
  lemma EmptyBlock(kwd: Keyword, usr: Handle)
    requires kwd.name == ['a'] && kwd.arg == TypeNone.Code() && kwd.children == Some([])
    requires kwd.handleListing.None? && kwd.finalizeObject.None? && kwd.setProperty([], usr, ZEROED) != NULL
    ensures var child := kwd.setProperty([], usr, ZEROED);
            ParseSpec([Line(['a', ' ', '{']), Line(['}'])], 0, [kwd], usr, 0, []) ==
            Run(true, 2, [SetProperty(kwd.name, usr, ZEROED, child)])
  {
    var src := [Line(['a', ' ', '{']), Line(['}'])];
    var s := Buffer(['a', ' ', '{']);
    assert CString(s) == ['a', ' ', '{'];
    Utf8.AsciiValid(['a', ' ', '{'], 0);
    Utf8.ValidIsValidAsWritten(['a', ' ', '{'], 0);
    assert SkipBlanks(s, 0) == 0 && IsAlpha(At(s, 0));
    EmptyBlockStatement(src, kwd, usr);
    var tr1 := [SetProperty(kwd.name, usr, ZEROED, kwd.setProperty([], usr, ZEROED))];
    assert ParseSpec(src, 2, [kwd], usr, 0, tr1) == Run(true, 2, tr1);
    assert LineSpec(src, 0, [kwd], usr, 0, [], s) == ParseSpec(src, 2, [kwd], usr, 0, tr1);
  }

  /** The statement `a {` of the previous lemma, and its block. */
  lemma EmptyBlockStatement(src: seq<Fetch>, kwd: Keyword, usr: Handle)
    requires src == [Line(['a', ' ', '{']), Line(['}'])]
    requires kwd.name == ['a'] && kwd.arg == TypeNone.Code() && kwd.children == Some([])
    requires kwd.handleListing.None? && kwd.finalizeObject.None? && kwd.setProperty([], usr, ZEROED) != NULL
    ensures var child := kwd.setProperty([], usr, ZEROED);
            KeywordLine(src, 1, [kwd], usr, 0, [], Buffer(['a', ' ', '{']), 0) ==
            Run(true, 2, [SetProperty(kwd.name, usr, ZEROED, child)])
  {
    var s := Buffer(['a', ' ', '{']);
    TokenOfText(['a'], [' ', '{', '\0'], true);
    assert s == ['a'] + [' ', '{', '\0'];
    assert FirstToken(s, 0, KeywordNames([kwd]), true, 0) == Some(0);
    assert SkipBlanks(s, 1) == 2;
    var child := kwd.setProperty([], usr, ZEROED);
    var tr1 := [SetProperty(kwd.name, usr, ZEROED, child)];
    ClosingBraceEndsBlock(src, 1, [], child, 1, tr1);
    assert BlockSpec(src, 1, kwd, child, 0, tr1, s, 2) == Run(true, 2, tr1);
    assert Finalized(kwd, child, Run(true, 2, tr1)) == Run(true, 2, tr1);
    assert [] + tr1 == tr1;
    assert StatementSpec(src, 1, kwd, usr, 0, [], ZEROED, s, 1) == Run(true, 2, tr1);
    assert FindKeywordSpec(s, 0, [kwd]) == Some((0, 2));
    assert !HasArgument(s, 2) && ArgSpec(kwd, s, 2) == Ok(ZEROED, 2) && LineAfterArg(kwd, s, 2) == s;
  }
}
