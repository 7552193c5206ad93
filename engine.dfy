/** The grammar engine of parse_file.c: lines are fetched one at a time,
    each names a keyword of the current table with its argument, and a
    `{` at the end of a keyword line opens either the keyword's child
    table, one level deeper, or a raw listing handed line by line to the
    keyword's handler. The caller's callbacks are function values that
    see the calls made before them (`Trace`), so they may keep state. */
module Engine {
  import opened Base
  import opened Values
  import opened Words
  import Utf8
  import Strings
  import Number
  import Vector
  import Boolean
  import Enum
  import Size
  import Ipv4
  import Ipv6
  import Mac
  import Bandwidth

  /** An object pointer passed to and returned by the callbacks; 0 is
      NULL. */
  type Handle = nat

  const NULL: Handle := 0

  /** A call the engine made into the caller's code, with its result. */
  datatype Event =
    | SetProperty(keyword: CName, parent: Handle, value: Value, child: Handle)
    | Finalize(keyword: CName, target: Handle, result: int)
    | Listing(keyword: CName, target: Handle, line: seq<Byte>, result: int)

  /** The calls made so far, oldest first. */
  type Trace = seq<Event>

  /** A keyword table entry (`gcfg_keyword_t`): the argument type code,
      the name, the enumeration table for ENUM arguments, the callbacks,
      and the child table (absent when NULL). A table is the entries
      before the NULL-name sentinel. */
  datatype Keyword = Keyword(
    arg: nat,
    name: CName,
    enumTokens: seq<Enum.EnumToken>,
    setProperty: (Trace, Handle, Value) -> Handle,
    children: Option<seq<Keyword>>,
    finalizeObject: Option<(Trace, Handle) -> int>,
    handleListing: Option<(Trace, Handle, seq<Byte>) -> int>)

  /** One call of `fetch_line`: a line, without its line break, or an
      internal error. Past the last entry every call reports end of
      file. */
  datatype Fetch = Line(text: seq<Byte>) | ReadError

  /** The outcome of a loop of the engine: success, the number of
      `fetch_line` calls made so far, and the callback calls. */
  datatype Run = Run(ok: bool, pos: nat, trace: Trace)

  // ---------------------------------------------------------------------
  // The meaning of the engine

  /** `is_line_end`: the NUL ending the line or a comment's `#`. */
  predicate IsLineEnd(c: Byte)
  {
    c == '\0' || c == '#'
  }

  /** The line buffer after a successful fetch: the line and its NUL. */
  function Buffer(text: seq<Byte>): (s: seq<Byte>)
    ensures |s| == |text| + 1 && s[|text|] == '\0' && s[..|text|] == text
  {
    text + ['\0']
  }

  /** After blanks, only a line end remains. */
  predicate EndsLine(s: seq<Byte>, i: nat)
  {
    IsLineEnd(At(s, SkipBlanks(s, i)))
  }

  /** The line closes a block: blanks, `}`, blanks and a line end. */
  predicate IsClosing(s: seq<Byte>)
  {
    At(s, SkipBlanks(s, 0)) == '}' && EndsLine(s, SkipBlanks(s, 0) + 1)
  }

  /** What the engine accepts as the line ending a block or a listing. */
  predicate ClosesBlock(f: Fetch)
  {
    f.Line? && Utf8.ValidAsWrittenFrom(CString(Buffer(f.text)), 0) && IsClosing(Buffer(f.text))
  }

  /** The names of a table, in table order. */
  function KeywordNames(kws: seq<Keyword>): (ns: seq<seq<Byte>>)
    ensures |ns| == |kws| && forall k :: 0 <= k < |kws| ==> ns[k] == kws[k].name
  {
    seq(|kws|, k requires 0 <= k < |kws| => kws[k].name)
  }

  /** `find_keyword`: at a letter or digit, the first entry whose name
      stands at `i` followed by a blank, a NUL or a `#`; the result is the
      entry and the position past the name and the blanks after it. */
  function FindKeywordSpec(s: seq<Byte>, i: nat, kws: seq<Keyword>): (r: Option<(nat, nat)>)
    ensures r.Some? ==> r.value.0 < |kws| && TokenAt(s, i, kws[r.value.0].name, true)
    ensures r.Some? ==> forall j :: 0 <= j < r.value.0 ==> !TokenAt(s, i, kws[j].name, true)
    ensures r.Some? ==> r.value.1 == SkipBlanks(s, i + |kws[r.value.0].name|)
    ensures r.None? <==>
              !(IsAlpha(At(s, i)) || IsDigit(At(s, i))) || forall j :: 0 <= j < |kws| ==> !TokenAt(s, i, kws[j].name, true)
  {
    if !(IsAlpha(At(s, i)) || IsDigit(At(s, i))) then None
    else
      var names := KeywordNames(kws);
      match FirstToken(s, i, names, true, 0)
      case None => None
      case Some(k) => Some((k, SkipBlanks(s, i + |kws[k].name|)))
  }

  /** The value `apply_arg` reads for the keyword's argument type at `i`,
      from a zeroed record, and the position after it. The `default`
      branch takes the PERCENTAGE and URI codes and every code past the
      last one: no value. */
  function ArgSpec(kwd: Keyword, s: seq<Byte>, i: nat): Res<Value>
  {
    match TypeOfCode(kwd.arg)
    case Some(TypeNone) => Ok(ZEROED, i)
    case Some(TypeBoolean) => Boolean.ParseBooleanSpec(s, i)
    case Some(TypeString) =>
      (match Strings.ParseStringAsWritten(s, i)
       case Fail => Fail
       case Ok(_, n) => Ok(Value(TypeString, Text(CString(Strings.InPlace(s, i))), 0, 0), n))
    case Some(TypeEnum) => Enum.ParseEnumSpec(s, i, kwd.enumTokens)
    case Some(TypeNumber) => Number.ParseNumberInto(s, i, ZEROED, 0)
    case Some(TypeSize) => Size.ParseSizeSpec(s, i)
    case Some(TypeVec2) => Vector.ParseVectorSpec(s, i, ZEROED, 2)
    case Some(TypeVec3) => Vector.ParseVectorSpec(s, i, ZEROED, 3)
    case Some(TypeVec4) => Vector.ParseVectorSpec(s, i, ZEROED, 4)
    case Some(TypeIpv4) => Ipv4.ParseIpv4Spec(s, i)
    case Some(TypeIpv6) => Ipv6.ParseIpv6Spec(s, i)
    case Some(TypeMac) => Mac.ParseMacSpec(s, i)
    case Some(TypeBandwidth) => Bandwidth.ParseBandwidthSpec(s, i)
    case _ => Fail
  }

  /** The line buffer once the argument is read: a string is decoded in
      place from the start of the buffer; nothing else writes to it. */
  function LineAfterArg(kwd: Keyword, s: seq<Byte>, i: nat): seq<Byte>
  {
    if kwd.arg == TypeString.Code() then Strings.InPlace(s, i) else s
  }

  /** The keyword's argument is present: something other than a line end,
      `{` or `}` follows the name. */
  predicate HasArgument(s: seq<Byte>, q: nat)
  {
    !IsLineEnd(At(s, q)) && At(s, q) != '{' && At(s, q) != '}'
  }

  /** `parse` at `level` from the `pos`-th fetch on: end of file ends
      the outermost block only, and an internal error of `fetch_line`
      fails. */
  function ParseSpec(src: seq<Fetch>, pos: nat, kws: seq<Keyword>, parent: Handle, level: nat, tr: Trace): (r: Run)
    requires pos <= |src|
    ensures pos <= r.pos <= |src| && tr <= r.trace
    decreases |src| - pos, 4
  {
    if pos == |src| then Run(level == 0, pos, tr)
    else match src[pos]
      case ReadError => Run(false, pos + 1, tr)
      case Line(text) => LineSpec(src, pos, kws, parent, level, tr, Buffer(text))
  }

  /** One pass of the loop of `parse` on the line buffer `s`, fetched as
      number `pos`: the line must pass `gcfg_is_valid_utf8`; a line
      starting with a letter is a keyword statement; a `}` line ends the
      block, which must not be the outermost one; blank and comment lines
      are skipped; anything else fails. */
  function LineSpec(src: seq<Fetch>, pos: nat, kws: seq<Keyword>, parent: Handle, level: nat, tr: Trace,
                    s: seq<Byte>): (r: Run)
    requires pos < |src|
    ensures pos < r.pos <= |src| && tr <= r.trace
    decreases |src| - pos, 3
  {
    if !Utf8.ValidAsWrittenFrom(CString(s), 0) then Run(false, pos + 1, tr)
    else
      var p := SkipBlanks(s, 0);
      if IsAlpha(At(s, p)) then
        var st := KeywordLine(src, pos + 1, kws, parent, level, tr, s, p);
        if !st.ok then st else ParseSpec(src, st.pos, kws, parent, level, st.trace)
      else if At(s, p) == '}' then Run(level != 0 && EndsLine(s, p + 1), pos + 1, tr)
      else if !IsLineEnd(At(s, p)) then Run(false, pos + 1, tr)
      else ParseSpec(src, pos + 1, kws, parent, level, tr)
  }

  /** One keyword statement, the line `s` having been fetched as number
      `pos`: the keyword, the argument check, the value, `set_property`,
      then a block or the end of the line, then `finalize_object`. A
      result that is `ok` means the loop goes on with the next line. */
  function KeywordLine(src: seq<Fetch>, pos: nat, kws: seq<Keyword>, parent: Handle, level: nat, tr: Trace,
                       s: seq<Byte>, p: nat): (r: Run)
    requires pos <= |src|
    ensures pos <= r.pos <= |src| && tr <= r.trace
    decreases |src| - pos + 1, 2
  {
    match FindKeywordSpec(s, p, kws)
    case None => Run(false, pos, tr)
    case Some((k, q)) =>
      var kwd := kws[k];
      if HasArgument(s, q) != (kwd.arg != TypeNone.Code()) then Run(false, pos, tr)
      else match ArgSpec(kwd, s, q)
        case Fail => Run(false, pos, tr)
        case Ok(v, e) => StatementSpec(src, pos, kwd, parent, level, tr, v, LineAfterArg(kwd, s, q), e)
  }

  /** The statement once its value `v` is read and the line buffer is
      `s`, with `e` past the argument: `set_property`, which must not
      return NULL, then the rest of the line and its block, then
      `finalize_object`. */
  function StatementSpec(src: seq<Fetch>, pos: nat, kwd: Keyword, parent: Handle, level: nat, tr: Trace,
                         v: Value, s: seq<Byte>, e: nat): (r: Run)
    requires pos <= |src|
    ensures pos <= r.pos <= |src| && tr <= r.trace
    decreases |src| - pos + 1, 1
  {
    var child := kwd.setProperty(tr, parent, v);
    var tr1 := tr + [SetProperty(kwd.name, parent, v, child)];
    if child == NULL then Run(false, pos, tr1)
    else
      var body := BlockSpec(src, pos, kwd, child, level, tr1, s, SkipBlanks(s, e));
      if !body.ok then body else Finalized(kwd, child, body)
  }

  /** What follows the argument, from `t` in the line buffer `s`: either
      the end of the line, or a `{` and the end of the line, then the
      listing or the child block, read from the `pos`-th fetch on. */
  function BlockSpec(src: seq<Fetch>, pos: nat, kwd: Keyword, child: Handle, level: nat, tr: Trace,
                     s: seq<Byte>, t: nat): (r: Run)
    requires pos <= |src|
    ensures pos <= r.pos <= |src| && tr <= r.trace
    decreases |src| - pos + 1, 0
  {
    if At(s, t) == '{' then
      if !EndsLine(s, t + 1) then Run(false, pos, tr)
      else if kwd.handleListing.Some? then ListingSpec(src, pos, kwd, child, tr)
      else if kwd.children.None? then Run(false, pos, tr)
      else ParseSpec(src, pos, kwd.children.value, child, level + 1, tr)
    else Run(IsLineEnd(At(s, t)), pos, tr)
  }

  /** `finalize_object`, when the keyword has one, after the statement
      and its block; a nonzero result fails. */
  function Finalized(kwd: Keyword, child: Handle, body: Run): (r: Run)
    ensures r.pos == body.pos && body.trace <= r.trace
    ensures kwd.finalizeObject.None? ==> r == body
  {
    if kwd.finalizeObject.None? then body
    else
      var res := kwd.finalizeObject.value(body.trace, child);
      Run(body.ok && res == 0, body.pos, body.trace + [Finalize(kwd.name, child, res)])
  }

  /** `plain_listing` from the `pos`-th fetch on: every line, checked by
      `gcfg_is_valid_utf8`, goes to the handler; a negative result fails,
      a positive one ends the listing, on a `}` line only; end of file
      fails. */
  function ListingSpec(src: seq<Fetch>, pos: nat, kwd: Keyword, obj: Handle, tr: Trace): (r: Run)
    requires pos <= |src| && kwd.handleListing.Some?
    ensures pos <= r.pos <= |src| && tr <= r.trace
    decreases |src| - pos, 1
  {
    if pos == |src| then Run(false, pos, tr)
    else match src[pos]
      case ReadError => Run(false, pos + 1, tr)
      case Line(text) => ListingLine(src, pos, kwd, obj, tr, Buffer(text))
  }

  /** One pass of the loop of `plain_listing` on the line buffer `s`,
      fetched as number `pos`. */
  function ListingLine(src: seq<Fetch>, pos: nat, kwd: Keyword, obj: Handle, tr: Trace, s: seq<Byte>): (r: Run)
    requires pos < |src| && kwd.handleListing.Some?
    ensures pos < r.pos <= |src| && tr <= r.trace
    decreases |src| - pos, 0
  {
    if !Utf8.ValidAsWrittenFrom(CString(s), 0) then Run(false, pos + 1, tr)
    else
      var ret := kwd.handleListing.value(tr, obj, CString(s));
      var tr1 := tr + [Listing(kwd.name, obj, CString(s), ret)];
      if ret < 0 then Run(false, pos + 1, tr1)
      else if ret > 0 then Run(IsClosing(s), pos + 1, tr1)
      else ListingSpec(src, pos + 1, kwd, obj, tr1)
  }

  /** Call number `k` of the trace, counted from `base`, handed line
      number `start + (k - base)` to the listing handler of `name` for
      `obj`. */
  ghost predicate ListedAt(src: seq<Fetch>, trace: Trace, base: nat, start: nat, k: nat, name: CName, obj: Handle)
  {
    var j := start + (k - base);
    base <= k < |trace| && j < |src| && src[j].Line? && trace[k].Listing? &&
    trace[k].keyword == name && trace[k].target == obj && trace[k].line == CString(Buffer(src[j].text))
  }

  // ---------------------------------------------------------------------
  // The engine

  /** A `gcfg_file_t` as the engine sees it: the answers `fetch_line`
      will give, how many calls were made, and the line buffer the last
      successful call filled. */
  class File {
    const source: seq<Fetch>
    var pos: nat
    var buffer: array<Byte>

    predicate Valid()
      reads this
    {
      pos <= |source|
    }

    constructor(source: seq<Fetch>)
      ensures Valid() && this.source == source && pos == 0 && buffer[..] == ['\0']
    {
      this.source := source;
      pos := 0;
      buffer := new Byte[1](_ => '\0');
    }

    /** `fetch_line`: a positive result at end of file, a negative one on
        an internal error, zero with the next line, NUL-terminated, in a
        new buffer. */
    method FetchLine() returns (ret: int)
      requires Valid()
      modifies this
      ensures Valid()
      ensures old(pos) == |source| ==> ret > 0 && pos == old(pos) && buffer == old(buffer)
      ensures old(pos) < |source| && source[old(pos)].ReadError? ==>
                ret < 0 && pos == old(pos) + 1 && buffer == old(buffer)
      ensures old(pos) < |source| && source[old(pos)].Line? ==>
                ret == 0 && pos == old(pos) + 1 && fresh(buffer) && buffer[..] == Buffer(source[old(pos)].text)
    {
      if pos == |source| {
        return 1;
      }
      match source[pos]
      case ReadError =>
        pos := pos + 1;
        return -1;
      case Line(text) =>
        var b := new Byte[|text| + 1](k => if 0 <= k < |text| then text[k] else '\0');
        assert b[..] == Buffer(text) by {
          forall k | 0 <= k < b.Length
            ensures b[k] == Buffer(text)[k]
          {
          }
        }
        buffer := b;
        pos := pos + 1;
        return 0;
    }
  }

  /** `find_keyword`. */
  method FindKeyword(s: seq<Byte>, i: nat, kws: seq<Keyword>) returns (r: Option<(nat, nat)>)
    ensures r == FindKeywordSpec(s, i, kws)
  {
    var c := At(s, i);
    if !(IsAlpha(c) || IsDigit(c)) {
      return None;
    }
    var found := FindToken(s, i, KeywordNames(kws), true);
    if found.None? {
      return None;
    }
    var k := found.value;
    var q := SkipSpace(s, i + |kws[k].name|);
    return Some((k, q));
  }

  /** `apply_arg` up to the `set_property` call: the value read from the
      line buffer at `q`; a string is decoded into the buffer itself. */
  method ApplyArg(buf: array<Byte>, kwd: Keyword, q: nat) returns (r: Res<Value>)
    modifies buf
    ensures r == ArgSpec(kwd, old(buf[..]), q)
    ensures buf[..] == LineAfterArg(kwd, old(buf[..]), q)
  {
    var s := buf[..];
    match TypeOfCode(kwd.arg)
    case Some(TypeNone) => r := Ok(ZEROED, q);
    case Some(TypeBoolean) => r := Boolean.ParseBoolean(s, q);
    case Some(TypeString) =>
      var n := Strings.ParseString(buf, q);
      if n.None? {
        r := Fail;
      } else {
        r := Ok(Value(TypeString, Text(CString(buf[..])), 0, 0), n.value);
      }
    case Some(TypeEnum) => r := Enum.ParseEnum(s, q, kwd.enumTokens);
    case Some(TypeNumber) =>
      var rd := Number.ParseNumber(s, q, false);
      r := if rd.Fail? then Fail else Ok(Number.StoreNumber(ZEROED, 0, rd.value), rd.next);
    case Some(TypeSize) => r := Size.ParseSize(s, q);
    case Some(TypeVec2) => r := Vector.ParseVector(s, q, ZEROED, 2, false);
    case Some(TypeVec3) => r := Vector.ParseVector(s, q, ZEROED, 3, false);
    case Some(TypeVec4) => r := Vector.ParseVector(s, q, ZEROED, 4, false);
    case Some(TypeIpv4) => r := Ipv4.ParseIpv4(s, q);
    case Some(TypeIpv6) => r := Ipv6.ParseIpv6(s, q);
    case Some(TypeMac) => r := Mac.ParseMac(s, q);
    case Some(TypeBandwidth) => r := Bandwidth.ParseBandwidth(s, q);
    case _ => r := Fail;
  }

  /** The line in the buffer, as far as its NUL, passes
      `gcfg_is_valid_utf8` as written. */
  method CheckLine(buf: array<Byte>) returns (ok: bool)
    requires '\0' in buf[..]
    ensures ok == Utf8.ValidAsWrittenFrom(CString(buf[..]), 0)
  {
    var n := StrLen(buf, 0);
    assert buf[0..] == buf[..];
    ok := Utf8.IsValidUtf8(buf[..n], true);
    assert buf[..n] == CString(buf[..]);
  }

  /** `parse`: lines are fetched and handled until the block ends. */
  method Parse(file: File, kws: seq<Keyword>, parent: Handle, level: nat, tr: Trace) returns (ok: bool, trace: Trace)
    requires file.Valid()
    modifies file, file.buffer
    ensures file.Valid() && (file.buffer == old(file.buffer) || fresh(file.buffer))
    ensures Run(ok, file.pos, trace) == ParseSpec(file.source, old(file.pos), kws, parent, level, tr)
    decreases |file.source| - file.pos, 5
  {
    ghost var goal := ParseSpec(file.source, file.pos, kws, parent, level, tr);
    var done := false;
    ok, trace := false, tr;
    while !done
      invariant file.Valid() && (file.buffer == old(file.buffer) || fresh(file.buffer))
      invariant old(file.pos) <= file.pos
      invariant !done ==> ParseSpec(file.source, file.pos, kws, parent, level, trace) == goal
      invariant done ==> Run(ok, file.pos, trace) == goal
      decreases |file.source| - file.pos + (if done then 0 else 1)
    {
      done, ok, trace := Step(file, kws, parent, level, trace);
    }
  }

  /** One pass of the loop of `parse`: fetch a line and handle it. When
      the block is not `done`, the rest of it is still to be read. */
  method Step(file: File, kws: seq<Keyword>, parent: Handle, level: nat, tr: Trace)
    returns (done: bool, ok: bool, trace: Trace)
    requires file.Valid()
    modifies file, file.buffer
    ensures file.Valid() && (file.buffer == old(file.buffer) || fresh(file.buffer))
    ensures done ==> Run(ok, file.pos, trace) == ParseSpec(file.source, old(file.pos), kws, parent, level, tr)
    ensures !done ==> old(file.pos) < file.pos &&
                      ParseSpec(file.source, file.pos, kws, parent, level, trace) ==
                      ParseSpec(file.source, old(file.pos), kws, parent, level, tr)
    decreases |file.source| - file.pos, 4
  {
    var ret := file.FetchLine();
    if ret != 0 {
      return true, ret > 0 && level == 0, tr;
    }
    done, ok, trace := HandleLine(file, kws, parent, level, tr);
  }

  /** The line just fetched, as one pass of the loop of `parse` handles
      it. */
  method HandleLine(file: File, kws: seq<Keyword>, parent: Handle, level: nat, tr: Trace)
    returns (done: bool, ok: bool, trace: Trace)
    requires file.Valid() && 0 < file.pos && file.source[file.pos - 1].Line?
    requires file.buffer[..] == Buffer(file.source[file.pos - 1].text)
    modifies file, file.buffer
    ensures file.Valid() && (file.buffer == old(file.buffer) || fresh(file.buffer))
    ensures done ==> Run(ok, file.pos, trace) ==
                     LineSpec(file.source, old(file.pos) - 1, kws, parent, level, tr, old(file.buffer[..]))
    ensures !done ==> old(file.pos) <= file.pos &&
                      ParseSpec(file.source, file.pos, kws, parent, level, trace) ==
                      LineSpec(file.source, old(file.pos) - 1, kws, parent, level, tr, old(file.buffer[..]))
    decreases |file.source| - file.pos + 1, 3
  {
    var valid := CheckLine(file.buffer);
    if !valid {
      return true, false, tr;
    }
    var p := SkipSpace(file.buffer[..], 0);
    var c := At(file.buffer[..], p);
    if IsAlpha(c) {
      var stmt;
      stmt, trace := KeywordStatement(file, kws, parent, level, tr, p);
      return !stmt, false, trace;
    } else if c == '}' {
      var q := SkipSpace(file.buffer[..], p + 1);
      return true, level != 0 && IsLineEnd(At(file.buffer[..], q)), tr;
    }
    return !IsLineEnd(c), false, tr;
  }

  /** The keyword statement on the fetched line, from `p`: `find_keyword`,
      the argument check, `apply_arg` and `set_property`, the block or the
      end of the line, and `finalize_object`. */
  method KeywordStatement(file: File, kws: seq<Keyword>, parent: Handle, level: nat, tr: Trace, p: nat)
    returns (ok: bool, trace: Trace)
    requires file.Valid()
    modifies file, file.buffer
    ensures file.Valid() && (file.buffer == old(file.buffer) || fresh(file.buffer))
    ensures Run(ok, file.pos, trace) == KeywordLine(file.source, old(file.pos), kws, parent, level, tr, old(file.buffer[..]), p)
    decreases |file.source| - file.pos + 1, 2
  {
    var found := FindKeyword(file.buffer[..], p, kws);
    if found.None? {
      return false, tr;
    }
    var k, q := found.value.0, found.value.1;
    var kwd := kws[k];
    var s := file.buffer[..];
    var haveArgs := !IsLineEnd(At(s, q)) && At(s, q) != '{' && At(s, q) != '}';
    if haveArgs != (kwd.arg != TypeNone.Code()) {
      return false, tr;
    }
    var a := ApplyArg(file.buffer, kwd, q);
    if a.Fail? {
      return false, tr;
    }
    ok, trace := Statement(file, kwd, parent, level, tr, a.value, a.next);
  }

  /** `set_property` with the value read, then the rest of the line from
      `e`, its block, and `finalize_object`. */
  method Statement(file: File, kwd: Keyword, parent: Handle, level: nat, tr: Trace, v: Value, e: nat)
    returns (ok: bool, trace: Trace)
    requires file.Valid()
    modifies file, file.buffer
    ensures file.Valid() && (file.buffer == old(file.buffer) || fresh(file.buffer))
    ensures Run(ok, file.pos, trace) == StatementSpec(file.source, old(file.pos), kwd, parent, level, tr, v, old(file.buffer[..]), e)
    decreases |file.source| - file.pos + 1, 1
  {
    var child := kwd.setProperty(tr, parent, v);
    trace := tr + [SetProperty(kwd.name, parent, v, child)];
    if child == NULL {
      return false, trace;
    }
    var t := SkipSpace(file.buffer[..], e);
    ok, trace := Block(file, kwd, child, level, trace, t);
    if !ok {
      return;
    }
    if kwd.finalizeObject.Some? {
      var res := kwd.finalizeObject.value(trace, child);
      trace := trace + [Finalize(kwd.name, child, res)];
      ok := res == 0;
    }
  }

  /** The rest of a keyword line from `t`, and the listing or child block
      that a `{` opens. */
  method Block(file: File, kwd: Keyword, child: Handle, level: nat, tr: Trace, t: nat)
    returns (ok: bool, trace: Trace)
    requires file.Valid()
    modifies file, file.buffer
    ensures file.Valid() && (file.buffer == old(file.buffer) || fresh(file.buffer))
    ensures Run(ok, file.pos, trace) == BlockSpec(file.source, old(file.pos), kwd, child, level, tr, old(file.buffer[..]), t)
    decreases |file.source| - file.pos + 1, 0
  {
    var s := file.buffer[..];
    if At(s, t) != '{' {
      return IsLineEnd(At(s, t)), tr;
    }
    var u := SkipSpace(s, t + 1);
    if !IsLineEnd(At(s, u)) {
      return false, tr;
    }
    if kwd.handleListing.Some? {
      ok, trace := PlainListing(file, kwd, child, tr);
    } else if kwd.children.None? {
      return false, tr;
    } else {
      ok, trace := Parse(file, kwd.children.value, child, level + 1, tr);
    }
  }

  /** `plain_listing`: every line up to the closing one goes to the
      keyword's listing handler. */
  method PlainListing(file: File, kwd: Keyword, obj: Handle, tr: Trace) returns (ok: bool, trace: Trace)
    requires file.Valid() && kwd.handleListing.Some?
    modifies file
    ensures file.Valid() && (file.buffer == old(file.buffer) || fresh(file.buffer))
    ensures Run(ok, file.pos, trace) == ListingSpec(file.source, old(file.pos), kwd, obj, tr)
  {
    ghost var goal := ListingSpec(file.source, file.pos, kwd, obj, tr);
    var done := false;
    ok, trace := false, tr;
    while !done
      invariant file.Valid() && (file.buffer == old(file.buffer) || fresh(file.buffer))
      invariant !done ==> ListingSpec(file.source, file.pos, kwd, obj, trace) == goal
      invariant done ==> Run(ok, file.pos, trace) == goal
      decreases |file.source| - file.pos + (if done then 0 else 1)
    {
      done, ok, trace := ListingPass(file, kwd, obj, trace);
    }
  }

  /** One pass of the loop of `plain_listing`: fetch a line and hand it to
      the handler. When the listing is not `done`, the rest of it is
      still to be read. */
  method ListingPass(file: File, kwd: Keyword, obj: Handle, tr: Trace) returns (done: bool, ok: bool, trace: Trace)
    requires file.Valid() && kwd.handleListing.Some?
    modifies file
    ensures file.Valid() && (file.buffer == old(file.buffer) || fresh(file.buffer))
    ensures done ==> Run(ok, file.pos, trace) == ListingSpec(file.source, old(file.pos), kwd, obj, tr)
    ensures !done ==> old(file.pos) < file.pos &&
                      ListingSpec(file.source, file.pos, kwd, obj, trace) == ListingSpec(file.source, old(file.pos), kwd, obj, tr)
  {
    ghost var start := file.pos;
    var ret := file.FetchLine();
    if ret != 0 {
      return true, false, tr;
    }
    ghost var s := file.buffer[..];
    assert ListingSpec(file.source, start, kwd, obj, tr) == ListingLine(file.source, start, kwd, obj, tr, s);
    var valid := CheckLine(file.buffer);
    if !valid {
      return true, false, tr;
    }
    var line := CString(file.buffer[..]);
    var res := kwd.handleListing.value(tr, obj, line);
    trace := tr + [Listing(kwd.name, obj, line, res)];
    if res < 0 {
      return true, false, trace;
    } else if res > 0 {
      var p := SkipSpace(file.buffer[..], 0);
      var q := SkipSpace(file.buffer[..], p + 1);
      return true, At(file.buffer[..], p) == '}' && IsLineEnd(At(file.buffer[..], q)), trace;
    }
    return false, false, trace;
  }

  /** `gcfg_parse_file`: the outermost block; zero on success and -1 on
      failure. */
  method ParseFile(file: File, kws: seq<Keyword>, usr: Handle) returns (ret: int, trace: Trace)
    requires file.Valid()
    modifies file, file.buffer
    ensures file.Valid()
    ensures ret in {0, -1}
    ensures Run(ret == 0, file.pos, trace) == ParseSpec(file.source, old(file.pos), kws, usr, 0, [])
  {
    var ok;
    ok, trace := Parse(file, kws, usr, 0, []);
    ret := if ok then 0 else -1;
  }
}
