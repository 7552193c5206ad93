/** `gcfg_parse_vector`: a parenthesised, comma-separated list of exactly
    `count` numbers, each read by `gcfg_parse_number` into its own number
    slot of the record. */
module Vector {
  import opened Base
  import opened Values
  import opened DecNum
  import opened Number

  /** The record type of a vector of `count` elements: VEC2, VEC3 or VEC4,
      and NUMBER for any other count. */
  function VecType(count: nat): ValueType
  {
    if count == 2 then TypeVec2
    else if count == 3 then TypeVec3
    else if count == 4 then TypeVec4
    else TypeNumber
  }

  /** A reader of one element at a position: what it reads and where it
      stops. The decoder's reader is `gcfg_parse_number` (`ParseNumberSpec`);
      the element loop is stated over any reader, so that what is proved
      about the loop holds whatever reader fills the slots. */
  type Reader = (seq<Byte>, nat) -> Res<Reading>

  /** One pass of the element loop: element `k`, after a `,` unless it is
      the first, with blanks before and after it skipped, stored in number
      slot `k`. */
  function NextElement(read: Reader, s: seq<Byte>, p: nat, k: nat, v: Value): Res<Value>
    requires k < 4
  {
    if k > 0 && At(s, p) != ',' then Fail
    else
      match read(s, SkipBlanks(s, if k > 0 then p + 1 else p))
      case Fail => Fail
      case Ok(rd, r) => Ok(StoreNumber(v, k, rd), SkipBlanks(s, r))
  }

  /** The element loop from element `k` on, at `p`. */
  function ElementsFrom(read: Reader, s: seq<Byte>, p: nat, k: nat, count: nat, v: Value): Res<Value>
    requires count <= 4
    decreases count - k
  {
    if k >= count then Ok(v, p)
    else
      match NextElement(read, s, p, k, v)
      case Fail => Fail
      case Ok(w, q) => ElementsFrom(read, s, q, k + 1, count, w)
  }

  /** `(`, the elements, `)`, then any blanks; the record's type then says
      how many elements there are. */
  function VectorWith(read: Reader, s: seq<Byte>, i: nat, v: Value, count: nat): Res<Value>
    requires count <= 4
  {
    if At(s, i) != '(' then Fail
    else
      match ElementsFrom(read, s, i + 1, 0, count, v)
      case Fail => Fail
      case Ok(w, p) =>
        if At(s, p) != ')' then Fail
        else Ok(w.(vtype := VecType(count)), SkipBlanks(s, p + 1))
  }

  /** `gcfg_parse_vector`: the elements are read by `gcfg_parse_number`
      with its fraction sum checked. */
  function ParseVectorSpec(s: seq<Byte>, i: nat, v: Value, count: nat): Res<Value>
    requires count <= 4
  {
    VectorWith(ParseNumberSpec, s, i, v, count)
  }

  /** `gcfg_parse_vector` as written: the elements are read by
      `gcfg_parse_number` as written. */
  function ParseVectorAsWritten(s: seq<Byte>, i: nat, v: Value, count: nat): Res<Value>
    requires count <= 4
  {
    VectorWith(ParseNumberAsWritten, s, i, v, count)
  }

  /** The element reader: `gcfg_parse_number` as written with `wrap`, with
      its sum checked without. */
  function ElementReader(wrap: bool): Reader
  {
    if wrap then ParseNumberAsWritten else ParseNumberSpec
  }

  /** The loop of `gcfg_parse_vector` over the `count` elements, filling
      the record one slot at a time, its numbers read as `wrap` says. */
  method ParseVector(s: seq<Byte>, i: nat, v: Value, count: nat, wrap: bool) returns (r: Res<Value>)
    requires count <= 4
    ensures wrap ==> r == ParseVectorAsWritten(s, i, v, count)
    ensures !wrap ==> r == ParseVectorSpec(s, i, v, count)
  {
    ghost var read := ElementReader(wrap);
    if At(s, i) != '(' {
      return Fail;
    }
    var p: nat := i + 1;
    var w := v;
    var k: nat := 0;
    while k < count
      invariant k <= count
      invariant ElementsFrom(read, s, p, k, count, w) == ElementsFrom(read, s, i + 1, 0, count, v)
      decreases count - k
    {
      var n := ReadElement(s, p, k, w, wrap);
      if n.Fail? {
        return Fail;
      }
      w, p, k := n.value, n.next, k + 1;
    }
    if At(s, p) != ')' {
      return Fail;
    }
    var e := SkipSpace(s, p + 1);
    return Ok(w.(vtype := VecType(count)), e);
  }

  /** One pass of the loop of `gcfg_parse_vector`. */
  method ReadElement(s: seq<Byte>, p: nat, k: nat, v: Value, wrap: bool) returns (r: Res<Value>)
    requires k < 4
    ensures r == NextElement(ElementReader(wrap), s, p, k, v)
  {
    var q: nat := p;
    if k > 0 {
      if At(s, p) != ',' {
        return Fail;
      }
      q := p + 1;
    }
    q := SkipSpace(s, q);
    var n := ParseNumber(s, q, wrap);
    if n.Fail? {
      return Fail;
    }
    var e := SkipSpace(s, n.next);
    return Ok(StoreNumber(v, k, n.value), e);
  }

  /** Wherever the vector with checked sums is accepted, the vector as
      written reads the same record: the wrapping sum matters only where
      the checked reader refuses. */
  lemma VectorAsWrittenAgrees(s: seq<Byte>, i: nat, v: Value, count: nat)
    requires count <= 4 && ParseVectorSpec(s, i, v, count).Ok?
    ensures ParseVectorAsWritten(s, i, v, count) == ParseVectorSpec(s, i, v, count)
  {
    ElementsAgree(s, i + 1, 0, count, v);
  }

  lemma {:induction false} ElementsAgree(s: seq<Byte>, p: nat, k: nat, count: nat, v: Value)
    requires count <= 4 && ElementsFrom(ParseNumberSpec, s, p, k, count, v).Ok?
    ensures ElementsFrom(ParseNumberAsWritten, s, p, k, count, v) == ElementsFrom(ParseNumberSpec, s, p, k, count, v)
    decreases count - k
  {
    if k < count {
      var q := SkipBlanks(s, if k > 0 then p + 1 else p);
      ParseNumberAsWrittenAgrees(s, q);
      var n := ParseNumberSpec(s, q);
      ElementsAgree(s, SkipBlanks(s, n.next), k + 1, count, StoreNumber(v, k, n.value));
    }
  }

  /** A later element without its comma ends the loop unread. */
  lemma CommaMissing(read: Reader, s: seq<Byte>, p: nat, k: nat, count: nat, v: Value)
    requires count <= 4 && 0 < k < count && At(s, p) != ','
    ensures ElementsFrom(read, s, p, k, count, v) == Fail
  {
  }

  /** The decoder's last steps once the elements are read. */
  lemma VectorAccepted(read: Reader, s: seq<Byte>, i: nat, v: Value, count: nat, p: nat, w: Value, e: nat)
    requires count <= 4 && At(s, i) == '(' && ElementsFrom(read, s, i + 1, 0, count, v) == Ok(w, p)
    requires At(s, p) == ')' && SkipBlanks(s, p + 1) == e
    ensures VectorWith(read, s, i, v, count) == Ok(w.(vtype := VecType(count)), e)
  {
  }

  /** The same, with the record's slots spelled out. */
  lemma VectorFilled(read: Reader, s: seq<Byte>, v: Value, count: nat, p: nat, w: Value, e: nat,
                     ns: seq<Values.Number>, post: seq<Values.Number>)
    requires count <= 4 && At(s, 0) == '(' && ElementsFrom(read, s, 1, 0, count, v) == Ok(w, p)
    requires At(s, p) == ')' && SkipBlanks(s, p + 1) == e
    requires w.data == Numbers(ns + post) && w.flags == v.flags && w.cidrMask == v.cidrMask
    ensures VectorWith(read, s, 0, v, count) == Ok(Value(VecType(count), Numbers(ns + post), v.flags, v.cidrMask), e)
  {
    VectorAccepted(read, s, 0, v, count, p, w, e);
    FilledValue(v, w, count, ns, post);
  }

  lemma FilledValue(v: Value, w: Value, count: nat, ns: seq<Values.Number>, post: seq<Values.Number>)
    requires w.data == Numbers(ns + post) && w.flags == v.flags && w.cidrMask == v.cidrMask
    ensures w.(vtype := VecType(count)) == Value(VecType(count), Numbers(ns + post), v.flags, v.cidrMask)
  {
  }

  /** Elements read to the count, then no `)`. */
  lemma VectorCut(read: Reader, s: seq<Byte>, i: nat, v: Value, count: nat, p: nat, w: Value)
    requires count <= 4 && At(s, i) == '(' && ElementsFrom(read, s, i + 1, 0, count, v) == Ok(w, p) && At(s, p) != ')'
    ensures VectorWith(read, s, i, v, count) == Fail
  {
  }

  /** The element loop fails. */
  lemma VectorFails(read: Reader, s: seq<Byte>, i: nat, v: Value, count: nat)
    requires count <= 4 && ElementsFrom(read, s, i + 1, 0, count, v) == Fail
    ensures VectorWith(read, s, i, v, count) == Fail
  {
  }

  /** With no elements the list must close at once. */
  lemma NoElements(read: Reader, s: seq<Byte>, i: nat, v: Value, count: nat)
    requires count == 0 && At(s, i) == '(' && At(s, i + 1) != ')'
    ensures VectorWith(read, s, i, v, count) == Fail
  {
  }

  // ---------------------------------------------------------------------
  // What an accepted vector leaves in the record

  /** The reader moves forward whenever it reads something. */
  ghost predicate Advances(read: Reader)
  {
    forall s: seq<Byte>, i: nat :: read(s, i).Ok? ==> i < read(s, i).next
  }

  lemma NumberAdvances()
    ensures Advances(ParseNumberSpec)
  {
    forall s: seq<Byte>, i: nat | ParseNumberSpec(s, i).Ok?
      ensures i < ParseNumberSpec(s, i).next
    {
      ParseNumberBounds(s, i);
    }
  }

  /** The element loop changes only the number slots it fills: the flags,
      the mask and every slot from `count` on are kept. */
  lemma {:induction false} ElementsKeep(read: Reader, s: seq<Byte>, p: nat, k: nat, count: nat, v: Value)
    requires count <= 4 && Advances(read) && ElementsFrom(read, s, p, k, count, v).Ok?
    ensures p <= ElementsFrom(read, s, p, k, count, v).next
    ensures var w := ElementsFrom(read, s, p, k, count, v).value;
      w.flags == v.flags && w.cidrMask == v.cidrMask &&
      forall j :: count <= j < 4 ==> NumberSlots(w)[j] == NumberSlots(v)[j]
    decreases count - k
  {
    if k < count {
      var q := SkipBlanks(s, if k > 0 then p + 1 else p);
      var n := read(s, q);
      var u := StoreNumber(v, k, n.value);
      ElementsKeep(read, s, SkipBlanks(s, n.next), k + 1, count, u);
    }
  }

  /** An accepted vector has the type its count calls for, ends past the
      `)` and the blanks after it, and keeps the flags, the mask and the
      slots it has no element for. */
  lemma {:induction false} ParseVectorShape(s: seq<Byte>, i: nat, v: Value, count: nat)
    requires count <= 4 && ParseVectorSpec(s, i, v, count).Ok?
    ensures var w := ParseVectorSpec(s, i, v, count);
      w.value.vtype == VecType(count) && !IsBlank(At(s, w.next)) && i < w.next &&
      w.value.flags == v.flags && w.value.cidrMask == v.cidrMask &&
      forall j :: count <= j < 4 ==> NumberSlots(w.value)[j] == NumberSlots(v)[j]
  {
    NumberAdvances();
    var e := ElementsFrom(ParseNumberSpec, s, i + 1, 0, count, v);
    ElementsKeep(ParseNumberSpec, s, i + 1, 0, count, v);
    var w := e.value.(vtype := VecType(count));
    assert NumberSlots(w) == NumberSlots(e.value);
  }

  // ---------------------------------------------------------------------
  // Round trip

  /** `t` is a number the reader reads whole, as `rd`, wherever it stands
      and whatever character ends it; it starts with neither a blank nor
      the closing parenthesis. */
  ghost predicate ReadsAs(read: Reader, t: seq<Byte>, rd: Reading)
  {
    |t| > 0 && !IsBlank(t[0]) && t[0] != ')' &&
    forall s: seq<Byte>, q: nat {:trigger read(s, q)} ::
      q + |t| <= |s| && s[q..q + |t|] == t && Stops(At(s, q + |t|)) ==> read(s, q) == Ok(rd, q + |t|)
  }

  /** Every text is read as its reading. */
  ghost predicate AllRead(read: Reader, ts: seq<seq<Byte>>, rds: seq<Reading>)
  {
    |ts| == |rds| && forall j :: 0 <= j < |ts| ==> ReadsAs(read, ts[j], rds[j])
  }

  /** Texts after the first, each preceded by a comma. */
  function Joined(ts: seq<seq<Byte>>): seq<Byte>
  {
    if ts == [] then [] else [','] + ts[0] + Joined(ts[1..])
  }

  /** The texts of a list, separated by commas. */
  function ListText(ts: seq<seq<Byte>>): seq<Byte>
    requires ts != []
  {
    ts[0] + Joined(ts[1..])
  }

  /** The readings stored from slot `k` on, one after another. */
  function StoreFrom(v: Value, k: nat, rds: seq<Reading>): Value
    requires k + |rds| <= 4
    decreases |rds|
  {
    if rds == [] then v else StoreFrom(StoreNumber(v, k, rds[0]), k + 1, rds[1..])
  }

  /** The number slot a reading fills: the signed mantissa and the
      exponent. */
  function SlotOf(rd: Reading): Values.Number
  {
    Number(Mantissa(rd), rd.exponent)
  }

  function SlotsOf(rds: seq<Reading>): (ns: seq<Values.Number>)
    ensures |ns| == |rds|
  {
    if rds == [] then [] else [SlotOf(rds[0])] + SlotsOf(rds[1..])
  }

  /** Slot `j` holds reading `j`. */
  lemma {:induction false} SlotsOfAt(rds: seq<Reading>, j: nat)
    requires j < |rds|
    ensures SlotsOf(rds)[j] == SlotOf(rds[j])
    decreases j
  {
    if j > 0 {
      SlotsOfAt(rds[1..], j - 1);
    }
  }

  /** What storing the readings leaves: their slots in place, the other
      slots, the flags and the mask as they were. */
  lemma {:induction false} StoreFromSlots(v: Value, k: nat, rds: seq<Reading>, w: Value,
                                          pre: seq<Values.Number>, ns: seq<Values.Number>, post: seq<Values.Number>)
    requires k + |rds| <= 4 && w == StoreFrom(v, k, rds)
    requires pre == NumberSlots(v)[..k] && ns == SlotsOf(rds) && post == NumberSlots(v)[k + |rds|..]
    ensures NumberSlots(w) == pre + ns + post
    ensures w.flags == v.flags && w.cidrMask == v.cidrMask
    ensures rds != [] ==> w.data == Numbers(pre + ns + post)
    decreases |rds|
  {
    if rds != [] {
      var u := StoreNumber(v, k, rds[0]);
      var pre' := NumberSlots(u)[..k + 1];
      StoreStep(v, k, rds[0], u, pre, pre', post, k + |rds|);
      StoreFromSlots(u, k + 1, rds[1..], w, pre', ns[1..], post);
      Regroup(pre, SlotOf(rds[0]), ns, post);
    } else {
      assert NumberSlots(v) == NumberSlots(v)[..k] + NumberSlots(v)[k..];
    }
  }

  /** One reading stored in slot `k`. */
  lemma StoreStep(v: Value, k: nat, rd: Reading, u: Value,
                  pre: seq<Values.Number>, pre': seq<Values.Number>, post: seq<Values.Number>, m: nat)
    requires k < m <= 4 && u == StoreNumber(v, k, rd)
    requires pre == NumberSlots(v)[..k] && pre' == NumberSlots(u)[..k + 1] && post == NumberSlots(v)[m..]
    ensures pre' == pre + [SlotOf(rd)] && post == NumberSlots(u)[m..]
    ensures u.flags == v.flags && u.cidrMask == v.cidrMask && u.data == Numbers(NumberSlots(u))
  {
  }

  lemma Regroup(pre: seq<Values.Number>, x: Values.Number, ns: seq<Values.Number>, post: seq<Values.Number>)
    requires ns != [] && ns[0] == x
    ensures pre + [x] + ns[1..] + post == pre + ns + post
  {
    assert ns == [x] + ns[1..];
  }

  /** A text read whole at `q`, followed by a character that ends it: no
      blanks are skipped before or after it. */
  lemma TextAt(read: Reader, s: seq<Byte>, q: nat, t: seq<Byte>, rd: Reading, rest: seq<Byte>)
    requires ReadsAs(read, t, rd) && q <= |s| && s[q..] == t + rest
    requires Stops(At(rest, 0)) && !IsBlank(At(rest, 0))
    ensures read(s, q) == Ok(rd, q + |t|)
    ensures SkipBlanks(s, q) == q && SkipBlanks(s, q + |t|) == q + |t|
  {
    SplitSuffix(s, q, t, rest);
    assert At(s, q) == t[0];
  }

  /** The first element, with no blanks around it. */
  lemma FirstStep(read: Reader, s: seq<Byte>, p: nat, count: nat, v: Value, rd: Reading, r: nat)
    requires 0 < count <= 4
    requires SkipBlanks(s, p) == p && read(s, p) == Ok(rd, r) && SkipBlanks(s, r) == r
    ensures ElementsFrom(read, s, p, 0, count, v) == ElementsFrom(read, s, r, 1, count, StoreNumber(v, 0, rd))
  {
  }

  /** A later element after its comma, with no blanks around it. */
  lemma CommaStep(read: Reader, s: seq<Byte>, p: nat, k: nat, count: nat, v: Value, rd: Reading, r: nat)
    requires count <= 4 && 0 < k < count && At(s, p) == ','
    requires SkipBlanks(s, p + 1) == p + 1 && read(s, p + 1) == Ok(rd, r) && SkipBlanks(s, r) == r
    ensures ElementsFrom(read, s, p, k, count, v) == ElementsFrom(read, s, r, k + 1, count, StoreNumber(v, k, rd))
  {
  }

  /** What follows a text inside the list ends it: a comma, or the
      character after the list. */
  lemma {:induction false} JoinedLead(ts: seq<seq<Byte>>, rest: seq<Byte>)
    requires Stops(At(rest, 0)) && !IsBlank(At(rest, 0))
    ensures Stops(At(Joined(ts) + rest, 0)) && !IsBlank(At(Joined(ts) + rest, 0))
    ensures ts != [] ==> At(Joined(ts) + rest, 0) == ','
  {
    if ts != [] {
      assert (Joined(ts) + rest)[0] == ',';
    } else {
      assert Joined(ts) + rest == rest;
    }
  }

  /** The elements after the first, as the decoder meets them: each behind
      its comma, read whole from the character after the comma with no
      blanks around it, the last one ending at `e`. */
  ghost predicate CommaList(read: Reader, s: seq<Byte>, p: nat, rds: seq<Reading>, e: nat)
    decreases |rds|
  {
    if rds == [] then p == e
    else
      var n := read(s, p + 1);
      At(s, p) == ',' && SkipBlanks(s, p + 1) == p + 1 && n.Ok? && n.value == rds[0] &&
      SkipBlanks(s, n.next) == n.next && CommaList(read, s, n.next, rds[1..], e)
  }

  lemma CommaListStep(read: Reader, s: seq<Byte>, p: nat, rds: seq<Reading>, e: nat, r: nat)
    requires rds != [] && At(s, p) == ',' && SkipBlanks(s, p + 1) == p + 1
    requires read(s, p + 1) == Ok(rds[0], r) && SkipBlanks(s, r) == r
    requires CommaList(read, s, r, rds[1..], e)
    ensures CommaList(read, s, p, rds, e)
  {
  }

  /** Texts joined by commas are met as such a list. */
  lemma {:induction false} JoinedIsCommaList(read: Reader, s: seq<Byte>, p: nat, ts: seq<seq<Byte>>, rds: seq<Reading>,
                                             rest: seq<Byte>, e: nat)
    requires AllRead(read, ts, rds) && p <= |s| && s[p..] == Joined(ts) + rest && e == p + |Joined(ts)|
    requires Stops(At(rest, 0)) && !IsBlank(At(rest, 0))
    ensures e <= |s| && CommaList(read, s, p, rds, e)
    decreases |ts|
  {
    if ts != [] {
      var t, more := ts[0], Joined(ts[1..]) + rest;
      var q := p + 1 + |t|;
      JoinedHead(s, p, ts, rest, e, t, more, q);
      assert ReadsAs(read, t, rds[0]);
      TextAt(read, s, p + 1, t, rds[0], more);
      assert AllRead(read, ts[1..], rds[1..]);
      JoinedIsCommaList(read, s, q, ts[1..], rds[1..], rest, e);
      CommaListStep(read, s, p, rds, e, q);
    } else {
      assert rds == [];
    }
  }

  /** Where the first text of a comma-joined list stands. */
  lemma JoinedHead(s: seq<Byte>, p: nat, ts: seq<seq<Byte>>, rest: seq<Byte>, e: nat, t: seq<Byte>, more: seq<Byte>, q: nat)
    requires ts != [] && p <= |s| && s[p..] == Joined(ts) + rest && e == p + |Joined(ts)|
    requires Stops(At(rest, 0)) && !IsBlank(At(rest, 0))
    requires t == ts[0] && more == Joined(ts[1..]) + rest && q == p + 1 + |t|
    ensures At(s, p) == ',' && p + 1 <= |s| && s[p + 1..] == t + more
    ensures Stops(At(more, 0)) && !IsBlank(At(more, 0))
    ensures q <= |s| && s[q..] == more && q + |Joined(ts[1..])| == e
  {
    var j := Joined(ts[1..]);
    assert Joined(ts) == [','] + t + j;
    Regroup4([','], t, j, rest);
    SplitSuffix(s, p, [','], t + more);
    JoinedLead(ts[1..], rest);
    SplitSuffix(s, p + 1, t, more);
  }

  /** The element loop over such a list, from element `k` on to element
      `m`. */
  lemma {:induction false} ElementsOfCommaList(read: Reader, s: seq<Byte>, p: nat, k: nat, count: nat, v: Value,
                                               rds: seq<Reading>, e: nat, w: Value, m: nat)
    requires count <= 4 && 0 < k && m == k + |rds| <= count && CommaList(read, s, p, rds, e) && w == StoreFrom(v, k, rds)
    ensures ElementsFrom(read, s, p, k, count, v) == ElementsFrom(read, s, e, m, count, w)
    decreases |rds|
  {
    if rds != [] {
      var r := read(s, p + 1).next;
      CommaStep(read, s, p, k, count, v, rds[0], r);
      var u := StoreNumber(v, k, rds[0]);
      assert w == StoreFrom(u, k + 1, rds[1..]);
      ElementsOfCommaList(read, s, r, k + 1, count, u, rds[1..], e, w, m);
    } else {
      assert p == e && w == v && k == m;
    }
  }

  /** A list of texts read whole, as the decoder meets it: the first with
      no blanks around it, the others as a comma list. */
  lemma {:induction false} ListFacts(read: Reader, s: seq<Byte>, p: nat, ts: seq<seq<Byte>>, rds: seq<Reading>,
                                     rest: seq<Byte>, r: nat, e: nat)
    requires 1 <= |ts| && AllRead(read, ts, rds)
    requires p <= |s| && s[p..] == ListText(ts) + rest
    requires Stops(At(rest, 0)) && !IsBlank(At(rest, 0))
    requires r == p + |ts[0]| && e == p + |ListText(ts)|
    ensures SkipBlanks(s, p) == p && read(s, p) == Ok(rds[0], r)
    ensures SkipBlanks(s, r) == r
    ensures CommaList(read, s, r, rds[1..], e)
  {
    var t, more := ts[0], Joined(ts[1..]) + rest;
    assert s[p..] == t + more;
    JoinedLead(ts[1..], rest);
    assert ReadsAs(read, t, rds[0]);
    TextAt(read, s, p, t, rds[0], more);
    SplitSuffix(s, p, t, more);
    assert AllRead(read, ts[1..], rds[1..]);
    assert e == r + |Joined(ts[1..])|;
    JoinedIsCommaList(read, s, r, ts[1..], rds[1..], rest, e);
  }

  /** The element loop over a whole list. */
  lemma {:induction false} ElementsOfFirst(read: Reader, s: seq<Byte>, p: nat, count: nat, v: Value, rds: seq<Reading>,
                                           r: nat, e: nat, w: Value)
    requires 1 <= |rds| <= count <= 4
    requires SkipBlanks(s, p) == p && read(s, p) == Ok(rds[0], r) && SkipBlanks(s, r) == r
    requires CommaList(read, s, r, rds[1..], e) && w == StoreFrom(v, 0, rds)
    ensures ElementsFrom(read, s, p, 0, count, v) == ElementsFrom(read, s, e, |rds|, count, w)
  {
    FirstStep(read, s, p, count, v, rds[0], r);
    var u := StoreNumber(v, 0, rds[0]);
    assert w == StoreFrom(u, 1, rds[1..]);
    ElementsOfCommaList(read, s, r, 1, count, u, rds[1..], e, w, |rds|);
  }

  /** The element loop over a whole list read to its last text. */
  lemma ListElements(read: Reader, s: seq<Byte>, p: nat, ts: seq<seq<Byte>>, rds: seq<Reading>, v: Value,
                     rest: seq<Byte>, e: nat, w: Value)
    requires 1 <= |ts| <= 4 && AllRead(read, ts, rds)
    requires p <= |s| && s[p..] == ListText(ts) + rest
    requires Stops(At(rest, 0)) && !IsBlank(At(rest, 0))
    requires e == p + |ListText(ts)| && w == StoreFrom(v, 0, rds)
    ensures ElementsFrom(read, s, p, 0, |ts|, v) == Ok(w, e)
  {
    var r := p + |ts[0]|;
    ListFacts(read, s, p, ts, rds, rest, r, e);
    ElementsOfFirst(read, s, p, |ts|, v, rds, r, e, w);
  }

  /** Round trip over texts: one to four numbers read whole, written as a
      vector with any blanks after the `)`, are read back into the first
      slots, with the type the count calls for; the other slots, the flags
      and the mask are kept, and reading ends past the blanks. */
  lemma {:induction false} VectorOfTexts(read: Reader, ts: seq<seq<Byte>>, rds: seq<Reading>, v: Value,
                                         s: seq<Byte>, pad: seq<Byte>, rest: seq<Byte>)
    requires 1 <= |ts| <= 4 && AllRead(read, ts, rds)
    requires s == ['('] + ListText(ts) + [')'] + pad + rest
    requires forall k :: 0 <= k < |pad| ==> IsBlank(pad[k])
    requires !IsBlank(At(rest, 0))
    ensures VectorWith(read, s, 0, v, |ts|)
         == Ok(Value(VecType(|ts|), Numbers(SlotsOf(rds) + NumberSlots(v)[|ts|..]), v.flags, v.cidrMask),
               2 + |ListText(ts)| + |pad|)
  {
    var body, more := ListText(ts), [')'] + pad + rest;
    var e, w := 1 + |body|, StoreFrom(v, 0, rds);
    var ns, post := SlotsOf(rds), NumberSlots(v)[|ts|..];
    VectorLayout(s, body, pad, rest, more, e);
    StoreAllSlots(v, rds, w, ns, post);
    ListElements(read, s, 1, ts, rds, v, more, e, w);
    VectorFilled(read, s, v, |ts|, e, w, e + 1 + |pad|, ns, post);
  }

  /** Where the parts of a vector's text stand. */
  lemma VectorLayout(s: seq<Byte>, body: seq<Byte>, pad: seq<Byte>, rest: seq<Byte>, more: seq<Byte>, e: nat)
    requires s == ['('] + body + more && more == [')'] + pad + rest && e == 1 + |body|
    requires forall k :: 0 <= k < |pad| ==> IsBlank(pad[k])
    requires !IsBlank(At(rest, 0))
    ensures At(s, 0) == '(' && 1 <= |s| && s[1..] == body + more && At(more, 0) == ')'
    ensures At(s, e) == ')' && SkipBlanks(s, e + 1) == e + 1 + |pad|
  {
    assert s == ['('] + (body + more);
    SplitSuffix(s, 0, ['('], body + more);
    SplitSuffix(s, 1, body, more);
    assert s[e + 1..] == pad + rest;
    SkipBlanksOver(s, e + 1, pad, rest);
  }

  /** All the readings stored from slot 0. */
  lemma StoreAllSlots(v: Value, rds: seq<Reading>, w: Value, ns: seq<Values.Number>, post: seq<Values.Number>)
    requires 1 <= |rds| <= 4 && w == StoreFrom(v, 0, rds) && ns == SlotsOf(rds) && post == NumberSlots(v)[|rds|..]
    ensures w.data == Numbers(ns + post) && w.flags == v.flags && w.cidrMask == v.cidrMask
  {
    StoreFromSlots(v, 0, rds, w, [], ns, post);
    assert [] + ns + post == ns + post;
  }

  /** Commas between two lists of texts. */
  lemma {:induction false} JoinedAppend(a: seq<seq<Byte>>, b: seq<seq<Byte>>)
    ensures Joined(a + b) == Joined(a) + Joined(b)
    decreases |a|
  {
    if a != [] {
      assert (a + b)[0] == a[0] && (a + b)[1..] == a[1..] + b;
      JoinedAppend(a[1..], b);
      Reassociate([','] + a[0], Joined(a[1..]), Joined(b));
    } else {
      assert a + b == b;
    }
  }

  lemma Reassociate(x: seq<Byte>, y: seq<Byte>, z: seq<Byte>)
    ensures x + (y + z) == x + y + z
  {
  }

  lemma Regroup6(a: seq<Byte>, x: seq<Byte>, y: seq<Byte>, z: seq<Byte>, b: seq<Byte>, c: seq<Byte>)
    ensures a + (x + (y + z)) + b + c == a + ((x + y) + (z + (b + c)))
  {
  }

  lemma Regroup4(w: seq<Byte>, x: seq<Byte>, y: seq<Byte>, z: seq<Byte>)
    ensures w + x + y + z == w + (x + (y + z))
  {
  }

  /** More or fewer numbers than `count` are refused. */
  lemma VectorOfTextsOtherCount(read: Reader, ts: seq<seq<Byte>>, rds: seq<Reading>, v: Value,
                                 count: nat, s: seq<Byte>, rest: seq<Byte>)
    requires 1 <= |ts| && AllRead(read, ts, rds) && count <= 4 && count != |ts|
    requires s == ['('] + ListText(ts) + [')'] + rest
    ensures VectorWith(read, s, 0, v, count) == Fail
  {
    if count == 0 {
      NoneExpected(read, ts, rds, v, s, rest);
    } else if count < |ts| {
      FewerExpected(read, ts, rds, v, count, s, rest);
    } else {
      MoreExpected(read, ts, rds, v, count, s, rest);
    }
  }

  /** A vector of no elements must close at once. */
  lemma NoneExpected(read: Reader, ts: seq<seq<Byte>>, rds: seq<Reading>, v: Value, s: seq<Byte>, rest: seq<Byte>)
    requires 1 <= |ts| && AllRead(read, ts, rds)
    requires s == ['('] + ListText(ts) + [')'] + rest
    ensures VectorWith(read, s, 0, v, 0) == Fail
  {
    assert ReadsAs(read, ts[0], rds[0]);
    assert s == ['('] + ts[0] + (Joined(ts[1..]) + [')'] + rest);
    assert At(s, 1) == ts[0][0];
    NoElements(read, s, 0, v, 0);
  }

  /** The loop stops after `count` elements, at the comma before the
      next. */
  lemma FewerExpected(read: Reader, ts: seq<seq<Byte>>, rds: seq<Reading>, v: Value,
                      count: nat, s: seq<Byte>, rest: seq<Byte>)
    requires 1 <= count < |ts| && count <= 4 && AllRead(read, ts, rds)
    requires s == ['('] + ListText(ts) + [')'] + rest
    ensures VectorWith(read, s, 0, v, count) == Fail
  {
    var head, more := ts[..count], Joined(ts[count..]) + ([')'] + rest);
    CutLayout(ts, count, s, rest, head, more);
    assert AllRead(read, head, rds[..count]);
    var e, w := 1 + |ListText(head)|, StoreFrom(v, 0, rds[..count]);
    ListElements(read, s, 1, head, rds[..count], v, more, e, w);
    VectorCut(read, s, 0, v, count, e, w);
  }

  /** The first `count` texts of a longer list, and the comma after them. */
  lemma CutLayout(ts: seq<seq<Byte>>, count: nat, s: seq<Byte>, rest: seq<Byte>, head: seq<seq<Byte>>, more: seq<Byte>)
    requires 1 <= count < |ts| && s == ['('] + ListText(ts) + [')'] + rest
    requires head == ts[..count] && more == Joined(ts[count..]) + ([')'] + rest)
    ensures 1 <= |s| && At(s, 0) == '(' && s[1..] == ListText(head) + more
    ensures Stops(At(more, 0)) && !IsBlank(At(more, 0))
    ensures At(s, 1 + |ListText(head)|) == ','
  {
    var tail := ts[count..];
    assert ts[1..] == head[1..] + tail && head[0] == ts[0];
    JoinedAppend(head[1..], tail);
    var h, jh, jt := ts[0], Joined(head[1..]), Joined(tail);
    assert ListText(ts) == h + (jh + jt) && ListText(head) == h + jh;
    Regroup6(['('], h, jh, jt, [')'], rest);
    SplitSuffix(s, 0, ['('], ListText(head) + more);
    JoinedLead(tail, [')'] + rest);
    SplitSuffix(s, 1, ListText(head), more);
  }

  /** The loop expects a comma after the last element and meets the
      `)`. */
  lemma MoreExpected(read: Reader, ts: seq<seq<Byte>>, rds: seq<Reading>, v: Value,
                     count: nat, s: seq<Byte>, rest: seq<Byte>)
    requires 1 <= |ts| < count <= 4 && AllRead(read, ts, rds)
    requires s == ['('] + ListText(ts) + [')'] + rest
    ensures VectorWith(read, s, 0, v, count) == Fail
  {
    var body, more := ListText(ts), [')'] + rest;
    assert s == ['('] + (body + more);
    SplitSuffix(s, 0, ['('], body + more);
    SplitSuffix(s, 1, body, more);
    var r, e, w := 1 + |ts[0]|, 1 + |body|, StoreFrom(v, 0, rds);
    ListFacts(read, s, 1, ts, rds, more, r, e);
    ElementsOfFirst(read, s, 1, count, v, rds, r, e, w);
    CommaMissing(read, s, e, |ts|, count, w);
    VectorFails(read, s, 0, v, count);
  }

  // ---------------------------------------------------------------------
  // Items: the numbers of a vector as the decoder's grammar writes them

  /** A number as written in a vector: sign, integer part, fraction and
      suffix. */
  datatype Item = Item(sg: Sign, n: nat, frac: Option<nat>, sx: Suffix)

  /** Every guard of `gcfg_parse_number` passes on the item. */
  predicate Readable(e: Item)
  {
    e.n <= U64_MAX && FractionFits(e.n, e.frac) &&
    (e.sx.Exponent? ==> e.sx.x <= INT32_MAX) && InInt32(Adjust(e.sx) - FractionDigits(e.frac))
  }

  function ItemText(e: Item): seq<Byte>
  {
    NumberText(e.sg, e.n, e.frac, e.sx)
  }

  /** The reading the item spells. */
  function ItemReading(e: Item): Reading
  {
    Reading(e.sg == Minus, Magnitude(e.n, e.frac), Adjust(e.sx) - FractionDigits(e.frac), e.sx.Percent?)
  }

  function Texts(es: seq<Item>): (ts: seq<seq<Byte>>)
    ensures |ts| == |es| && forall j :: 0 <= j < |es| ==> ts[j] == ItemText(es[j])
  {
    seq(|es|, j requires 0 <= j < |es| => ItemText(es[j]))
  }

  function Readings(es: seq<Item>): (rds: seq<Reading>)
    ensures |rds| == |es| && forall j :: 0 <= j < |es| ==> rds[j] == ItemReading(es[j])
  {
    seq(|es|, j requires 0 <= j < |es| => ItemReading(es[j]))
  }

  /** The items written as a vector, with no blanks. */
  function VectorText(es: seq<Item>): seq<Byte>
    requires es != []
  {
    ['('] + ListText(Texts(es)) + [')']
  }

  /** A readable item is read whole as its reading: it starts with its
      sign or its first digit. */
  lemma {:induction false} ItemReadsAs(e: Item)
    requires Readable(e)
    ensures ReadsAs(ParseNumberSpec, ItemText(e), ItemReading(e))
  {
    var t := ItemText(e);
    assert t == SignText(e.sg) + Decimal(e.n) + FractionText(e.frac) + SuffixText(e.sx);
    DecimalStartsWithDigit(e.n);
    if e.sg == Unsigned {
      assert t[0] == Decimal(e.n)[0];
    } else {
      assert t[0] == SignText(e.sg)[0];
    }
    forall s: seq<Byte>, q: nat | q + |t| <= |s| && s[q..q + |t|] == t && Stops(At(s, q + |t|))
      ensures ParseNumberSpec(s, q) == Ok(ItemReading(e), q + |t|)
    {
      ItemReadAt(e, t, s, q);
    }
  }

  /** The item read where its text stands in a longer one. */
  lemma ItemReadAt(e: Item, t: seq<Byte>, s: seq<Byte>, q: nat)
    requires Readable(e) && t == ItemText(e)
    requires q + |t| <= |s| && s[q..q + |t|] == t && Stops(At(s, q + |t|))
    ensures ParseNumberSpec(s, q) == Ok(ItemReading(e), q + |t|)
  {
    var rest, text := s[q + |t|..], NumberText(e.sg, e.n, e.frac, e.sx);
    var rd := Reading(e.sg == Minus, Magnitude(e.n, e.frac), Adjust(e.sx) - FractionDigits(e.frac), e.sx.Percent?);
    assert text == t && rd == ItemReading(e);
    assert s[q..] == text + rest;
    assert At(rest, 0) == At(s, q + |t|);
    TextReadAt(e.sg, e.n, e.frac, e.sx, s, q, rest, text, rd);
  }

  /** A number's text read where it stands in a longer one. */
  lemma TextReadAt(sg: Sign, n: nat, frac: Option<nat>, sx: Suffix, s: seq<Byte>, q: nat, rest: seq<Byte>,
                   text: seq<Byte>, rd: Reading)
    requires n <= U64_MAX && FractionFits(n, frac)
    requires (sx.Exponent? ==> sx.x <= INT32_MAX) && InInt32(Adjust(sx) - FractionDigits(frac))
    requires text == NumberText(sg, n, frac, sx)
    requires rd == Reading(sg == Minus, Magnitude(n, frac), Adjust(sx) - FractionDigits(frac), sx.Percent?)
    requires q <= |s| && s[q..] == text + rest && Stops(At(rest, 0))
    ensures ParseNumberSpec(s, q) == Ok(rd, q + |text|)
  {
    ParseNumberOfText(sg, n, frac, sx, rest);
    ParseReadingShift(s, q, q, false);
  }

  lemma {:induction false} ItemsRead(es: seq<Item>)
    requires forall j :: 0 <= j < |es| ==> Readable(es[j])
    ensures AllRead(ParseNumberSpec, Texts(es), Readings(es))
  {
    forall j | 0 <= j < |es|
      ensures ReadsAs(ParseNumberSpec, Texts(es)[j], Readings(es)[j])
    {
      ItemReadsAs(es[j]);
    }
  }

  /** Round trip: one to four readable numbers written as a vector, with
      any blanks after the `)`, are read back into the first slots, with
      the type the count calls for; the other slots, the flags and the mask
      are kept, and reading ends past the blanks. */
  lemma {:induction false} ParseVectorOfText(es: seq<Item>, v: Value, pad: seq<Byte>, rest: seq<Byte>, s: seq<Byte>)
    requires 1 <= |es| <= 4 && forall j :: 0 <= j < |es| ==> Readable(es[j])
    requires forall k :: 0 <= k < |pad| ==> IsBlank(pad[k])
    requires !IsBlank(At(rest, 0)) && s == VectorText(es) + pad + rest
    ensures ParseVectorSpec(s, 0, v, |es|)
         == Ok(Value(VecType(|es|), Numbers(SlotsOf(Readings(es)) + NumberSlots(v)[|es|..]), v.flags, v.cidrMask),
               |VectorText(es)| + |pad|)
  {
    ItemsRead(es);
    VectorOfTexts(ParseNumberSpec, Texts(es), Readings(es), v, s, pad, rest);
  }

  /** A vector of readable numbers is refused under any other count. */
  lemma {:induction false} ParseVectorOfTextOtherCount(es: seq<Item>, v: Value, count: nat, rest: seq<Byte>)
    requires 1 <= |es| && forall j :: 0 <= j < |es| ==> Readable(es[j])
    requires count <= 4 && count != |es|
    ensures ParseVectorSpec(VectorText(es) + rest, 0, v, count) == Fail
  {
    ItemsRead(es);
    VectorOfTextsOtherCount(ParseNumberSpec, Texts(es), Readings(es), v, count, VectorText(es) + rest, rest);
  }

  // ---------------------------------------------------------------------
  // The library's own examples

  /** The four numbers of the examples, +1, -2, +3 and -4. */
  const SAMPLE := [Item(Plus, 1, None, Plain), Item(Minus, 2, None, Plain), Item(Plus, 3, None, Plain), Item(Minus, 4, None, Plain)]

  lemma SampleReadable(es: seq<Item>)
    requires es == SAMPLE
    ensures forall j :: 0 <= j < |es| ==> Readable(es[j])
  {
  }

  lemma SampleText(es: seq<Item>)
    requires es == SAMPLE
    ensures VectorText(es) == "(+1,-2,+3,-4)"
  {
    SampleTextList(es);
    SampleLists();
  }

  lemma SampleTextOfThree(es: seq<Item>)
    requires es == SAMPLE
    ensures VectorText(es[..3]) == "(+1,-2,+3)"
  {
    SampleTextList(es);
    SampleLists();
    assert Texts(es[..3]) == Texts(es)[..3] == ["+1", "-2", "+3"];
  }

  lemma SampleTextList(es: seq<Item>)
    requires es == SAMPLE
    ensures Texts(es) == ["+1", "-2", "+3", "-4"]
  {
    var ts := Texts(es);
    SmallText(Plus, 1);
    SmallText(Minus, 2);
    SmallText(Plus, 3);
    SmallText(Minus, 4);
    assert ts[0] == ItemText(Item(Plus, 1, None, Plain)) == "+1";
    assert ts[1] == ItemText(Item(Minus, 2, None, Plain)) == "-2";
    assert ts[2] == ItemText(Item(Plus, 3, None, Plain)) == "+3";
    assert ts[3] == ItemText(Item(Minus, 4, None, Plain)) == "-4";
  }

  lemma SampleLists()
    ensures ListText(["+1", "-2", "+3", "-4"]) == "+1,-2,+3,-4"
    ensures ListText(["+1", "-2", "+3"]) == "+1,-2,+3"
  {
  }

  /** A one-digit number with no fraction and no suffix. */
  lemma SmallText(sg: Sign, n: nat)
    requires n < 10
    ensures NumberText(sg, n, None, Plain) == SignText(sg) + [DigitChar(n)]
  {
  }

  lemma SampleSlots(es: seq<Item>)
    requires es == SAMPLE
    ensures SlotsOf(Readings(es)) == [Number(1, 0), Number(-2, 0), Number(3, 0), Number(-4, 0)]
  {
    var rds := Readings(es);
    assert rds[0] == ItemReading(Item(Plus, 1, None, Plain)) == Reading(false, 1, 0, false);
    assert rds[1] == ItemReading(Item(Minus, 2, None, Plain)) == Reading(true, 2, 0, false);
    assert rds[2] == ItemReading(Item(Plus, 3, None, Plain)) == Reading(false, 3, 0, false);
    assert rds[3] == ItemReading(Item(Minus, 4, None, Plain)) == Reading(true, 4, 0, false);
    var ns := SlotsOf(rds);
    SlotsOfAt(rds, 0);
    SlotsOfAt(rds, 1);
    SlotsOfAt(rds, 2);
    SlotsOfAt(rds, 3);
    assert ns[0] == Number(1, 0) && ns[1] == Number(-2, 0) && ns[2] == Number(3, 0) && ns[3] == Number(-4, 0);
  }

  /** "(+1,-2,+3,-4)" as a four-element vector into a zeroed record: VEC4
      with 1, -2, 3, -4, all at exponent zero. */
  lemma {:induction false} ParseVectorSample(s: seq<Byte>, v: Value)
    requires s == "(+1,-2,+3,-4)" && v == ZEROED
    ensures ParseVectorSpec(s, 0, v, 4)
         == Ok(Value(TypeVec4, Numbers([Number(1, 0), Number(-2, 0), Number(3, 0), Number(-4, 0)]), 0, 0), 13)
  {
    SampleText(SAMPLE);
    SampleReadable(SAMPLE);
    FourRead(SAMPLE, s, v);
    SampleSlots(SAMPLE);
    SampleValue(v, SlotsOf(Readings(SAMPLE)));
  }

  /** Four readable numbers written as a vector with nothing after it. */
  lemma FourRead(es: seq<Item>, s: seq<Byte>, v: Value)
    requires |es| == 4 && forall j :: 0 <= j < |es| ==> Readable(es[j])
    requires s == VectorText(es)
    ensures ParseVectorSpec(s, 0, v, 4)
         == Ok(Value(VecType(4), Numbers(SlotsOf(Readings(es)) + NumberSlots(v)[4..]), v.flags, v.cidrMask), |s|)
  {
    assert s == VectorText(es) + [] + [];
    ParseVectorOfText(es, v, [], [], s);
  }

  lemma SampleValue(v: Value, ns: seq<Values.Number>)
    requires v == ZEROED && ns == [Number(1, 0), Number(-2, 0), Number(3, 0), Number(-4, 0)]
    ensures Value(VecType(4), Numbers(ns + NumberSlots(v)[4..]), v.flags, v.cidrMask)
         == Value(TypeVec4, Numbers([Number(1, 0), Number(-2, 0), Number(3, 0), Number(-4, 0)]), 0, 0)
  {
    assert ns + NumberSlots(v)[4..] == ns;
  }

  /** The same text is refused as a three-element vector, and
      "(+1,-2,+3)" as a four-element one. */
  lemma {:induction false} ParseVectorSampleRefusals(s: seq<Byte>, t: seq<Byte>, v: Value)
    requires s == "(+1,-2,+3,-4)" && t == "(+1,-2,+3)"
    ensures ParseVectorSpec(s, 0, v, 3) == Fail
    ensures ParseVectorSpec(t, 0, v, 4) == Fail
  {
    var es := SAMPLE;
    SampleReadable(es);
    SampleText(es);
    SampleTextOfThree(es);
    ParseVectorOfTextOtherCount(es, v, 3, []);
    assert VectorText(es) + [] == s;
    ParseVectorOfTextOtherCount(es[..3], v, 4, []);
    assert VectorText(es[..3]) + [] == t;
  }
}
