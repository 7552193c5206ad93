/** `gcfg_parse_uri`: a generic URI after RFC 3986, split into scheme,
    user information, host, port, path, query and fragment. The parser
    copies each component, NUL-terminated, into a caller-supplied scratch
    buffer and points the record's fields at the copies. */
module Uri {
  import opened Base
  import opened DecNum
  import opened Ipv4
  import opened Ipv6
  import opened Values

  // ---------------------------------------------------------------------
  // Character classes (sections 2.2 and 2.3 of RFC 3986)

  predicate IsUnreserved(c: Byte)
  {
    IsAlpha(c) || IsDigit(c) || c == '-' || c == '.' || c == '_' || c == '~'
  }

  predicate IsGenDelim(c: Byte)
  {
    c == ':' || c == '/' || c == '?' || c == '#' || c == '[' || c == ']' || c == '@'
  }

  predicate IsSubDelim(c: Byte)
  {
    c == '!' || c == '$' || c == '&' || c == '\'' || c == '(' || c == ')' ||
    c == '*' || c == '+' || c == ',' || c == ';' || c == '='
  }

  /** A path character as the parser has it: unreserved, `%`, a
      sub-delimiter or `@`; unlike RFC 3986, not `:`. */
  predicate IsPchar(c: Byte)
  {
    IsUnreserved(c) || c == '%' || IsSubDelim(c) || c == '@'
  }

  predicate IsUriChar(c: Byte)
  {
    c == '%' || IsUnreserved(c) || IsGenDelim(c) || IsSubDelim(c)
  }

  /** The byte classes whose runs the parser copies or steps over. */
  datatype Class =
    | SchemeChar   // after the first letter of a scheme
    | UserChar     // user information
    | LiteralChar  // inside `[` `]`
    | RegNameChar  // a registered host name
    | SlashChar    // the slashes between path segments
    | PathChar     // a path segment
    | TailChar     // query and fragment
    | AnyUriChar   // the look-ahead for `@`

  predicate InClass(c: Byte, k: Class)
  {
    match k
    case SchemeChar => IsAlpha(c) || IsDigit(c) || c == '+' || c == '-' || c == '.'
    case UserChar => IsSubDelim(c) || IsUnreserved(c) || c == ':' || c == '%'
    case LiteralChar => IsHexDigit(c) || c == ':' || c == '.'
    case RegNameChar => IsUnreserved(c) || IsSubDelim(c) || c == '%'
    case SlashChar => c == '/'
    case PathChar => IsPchar(c)
    case TailChar => IsPchar(c) || c == '/' || c == '?'
    case AnyUriChar => IsUriChar(c)
  }

  /** The end of the run of class `k` that starts at `p`. No class holds
      NUL, so a run stops at the end of the text. */
  function RunEnd(s: seq<Byte>, p: nat, k: Class): (e: nat)
    ensures p <= e && (e == p || e <= |s|)
    ensures forall j :: p <= j < e ==> j < |s| && InClass(s[j], k)
    ensures !InClass(At(s, e), k)
    decreases |s| - p
  {
    if InClass(At(s, p), k) then RunEnd(s, p + 1, k) else p
  }

  /** A run holds no NUL. */
  lemma RunNulFree(s: seq<Byte>, p: nat, k: Class)
    requires p <= |s|
    ensures '\0' !in s[p..RunEnd(s, p, k)]
  {
    var e := RunEnd(s, p, k);
    forall j | 0 <= j < e - p
      ensures s[p..e][j] != '\0'
    {
      assert InClass(s[p + j], k);
    }
  }

  // ---------------------------------------------------------------------
  // The components

  /** Upper-case ASCII letters folded to lower case. */
  function Lower(c: Byte): (d: Byte)
    ensures IsUpper(c) ==> IsLower(d) && d as int == c as int + 32
    ensures !IsUpper(c) ==> d == c
  {
    if IsUpper(c) then (c as int + 32) as char else c
  }

  function LowerText(t: seq<Byte>): (r: seq<Byte>)
    ensures |r| == |t| && forall j :: 0 <= j < |t| ==> r[j] == Lower(t[j])
  {
    seq(|t|, j requires 0 <= j < |t| => Lower(t[j]))
  }

  /** `scheme`: a letter, then letters, digits, `+`, `-` and `.`, folded
      to lower case, ended by `:`. The result is the scheme and the
      position past the colon. */
  function SchemeSpec(s: seq<Byte>, i: nat): (r: Res<seq<Byte>>)
  {
    if !IsAlpha(At(s, i)) then Fail
    else
      var e := RunEnd(s, i, SchemeChar);
      if At(s, e) != ':' then Fail else Ok(LowerText(s[i..e]), e + 1)
  }

  /** `have_char_in_uri(in, '@')`: an `@` among the URI characters from
      `p` on. */
  predicate HasUserinfo(s: seq<Byte>, p: nat)
    requires p <= |s|
  {
    '@' in s[p..RunEnd(s, p, AnyUriChar)]
  }

  /** `userinfo`: user-information characters up to an `@`. */
  function UserinfoSpec(s: seq<Byte>, p: nat): (r: Res<seq<Byte>>)
    requires p <= |s|
  {
    var e := RunEnd(s, p, UserChar);
    if At(s, e) == '@' then Ok(s[p..e], e + 1) else Fail
  }

  /** A host, the flag saying what kind it is, and the port. */
  datatype HostPort = HostPort(host: seq<Byte>, kind: nat, port: Option<nat>)

  /** The host proper: a bracketed IPv6 literal, a dotted IPv4 address, or
      a non-empty registered name. */
  function HostSpec(s: seq<Byte>, p: nat): (r: Res<(seq<Byte>, nat)>)
    requires p <= |s|
    ensures r.Ok? ==> p < r.next <= |s| && |r.value.0| <= r.next - p
  {
    if At(s, p) == '[' then
      var e := RunEnd(s, p + 1, LiteralChar);
      if At(s, e) != ']' || ParseIpv6Spec(s[p + 1..e], 0).Fail? then Fail
      else Ok((s[p + 1..e], URI_HOST_IPV6), e + 1)
    else
      match Ipv4AddressSpec(s, p)
      case Ok(_, e) =>
        Ipv4AddressAhead(s, p);
        Ok((s[p..e], URI_HOST_IPV4), e)
      case Fail =>
        var e := RunEnd(s, p, RegNameChar);
        if e == p then Fail else Ok((s[p..e], URI_HOST_NAME), e)
  }

  /** After the host, `:` and a decimal port of at most 65535, or no
      port when no colon follows. */
  function PortSpec(s: seq<Byte>, q: nat): (r: Res<Option<nat>>)
    requires q <= |s|
    ensures r.Ok? ==> q <= r.next <= |s| && (r.value.Some? ==> r.value.value <= 0xFFFF)
  {
    if At(s, q) != ':' then Ok(None, q)
    else
      match DecNumSpec(s, q + 1, 0xFFFF)
      case Fail => Fail
      case Ok(port, e) =>
        DecNumAhead(s, q + 1, 0xFFFF);
        Ok(Some(port), e)
  }

  /** `hostname`: the host, then the port. */
  function HostPortSpec(s: seq<Byte>, p: nat): (r: Res<HostPort>)
    requires p <= |s|
    ensures r.Ok? ==> p < r.next <= |s| && |r.value.host| <= r.next - p
    ensures r.Ok? && r.value.port.Some? ==> r.value.port.value <= 0xFFFF
  {
    match HostSpec(s, p)
    case Fail => Fail
    case Ok(h, q) =>
      match PortSpec(s, q)
      case Fail => Fail
      case Ok(port, e) => Ok(HostPort(h.0, h.1, port), e)
  }

  /** Text read off, and the position where reading stopped. */
  datatype Span = Span(text: seq<Byte>, end: nat)

  /** The segment loop: while a `/` follows, the slashes are stepped over;
      a path character after them starts a segment, written with one
      `/` in front. So runs of slashes collapse and trailing slashes
      are dropped. */
  function Segments(s: seq<Byte>, p: nat): (r: Span)
    requires p <= |s|
    ensures p <= r.end <= |s| && |r.text| <= r.end - p
    decreases |s| - p
  {
    if At(s, p) != '/' then Span([], p)
    else
      var q := RunEnd(s, p, SlashChar);
      if !IsPchar(At(s, q)) then Span([], q)
      else
        var e := RunEnd(s, q, PathChar);
        var rest := Segments(s, e);
        Span(['/'] + s[q..e] + rest.text, rest.end)
  }

  /** `path_rootless`: a segment, then the segment loop. */
  function Rootless(s: seq<Byte>, p: nat): (r: Span)
    requires p <= |s|
    ensures p <= r.end <= |s| && |r.text| <= r.end - p
  {
    var e := RunEnd(s, p, PathChar);
    var rest := Segments(s, e);
    Span(s[p..e] + rest.text, rest.end)
  }

  /** Query and fragment: path characters, `/` and `?`. */
  function TailSpec(s: seq<Byte>, p: nat): (r: Span)
    requires p <= |s|
    ensures p <= r.end <= |s| && |r.text| == r.end - p
  {
    var e := RunEnd(s, p, TailChar);
    Span(s[p..e], e)
  }

  /** What comes between the scheme and the query. */
  datatype Hier = Hier(userinfo: Option<seq<Byte>>, host: Option<seq<Byte>>,
                       path: Option<seq<Byte>>, port: nat, flags: nat)

  /** An authority from `p` on (`user` read before it, if any): host and
      port, then the segment loop; an empty path is `/`. */
  function AuthoritySpec(s: seq<Byte>, p: nat, user: Option<seq<Byte>>): (r: Res<Hier>)
    requires p <= |s|
    ensures r.Ok? ==> p < r.next <= |s|
  {
    match HostPortSpec(s, p)
    case Fail => Fail
    case Ok(h, q) => Ok(HierOf(user, h, Segments(s, q).text), Segments(s, q).end)
  }

  /** The authority's record: the port flag joins the host kind when a
      port was read, and an empty path becomes `/`. */
  function HierOf(user: Option<seq<Byte>>, h: HostPort, path: seq<Byte>): Hier
  {
    var port := if h.port.Some? then h.port.value else 0;
    var flags := if h.port.Some? then h.kind + URI_HAS_PORT else h.kind;
    Hier(user, Some(h.host), Some(if path == [] then ['/'] else path), port, flags)
  }

  /** After `//`: the user information, when an `@` comes up among the
      URI characters, then the authority. */
  function AfterSlashes(s: seq<Byte>, p: nat): (r: Res<Hier>)
    requires p <= |s|
    ensures r.Ok? ==> p < r.next <= |s|
  {
    if HasUserinfo(s, p) then
      match UserinfoSpec(s, p)
      case Fail => Fail
      case Ok(u, q) => AuthoritySpec(s, q, Some(u))
    else AuthoritySpec(s, p, None)
  }

  /** The hierarchical part: `//` and an authority with an optional user
      information; or `/` and a path that must start with a path
      character; or a rootless path; or nothing. */
  function HierSpec(s: seq<Byte>, p: nat): (r: Res<Hier>)
    requires p <= |s|
    ensures r.Ok? ==> p <= r.next <= |s|
  {
    if At(s, p) == '/' && At(s, p + 1) == '/' then AfterSlashes(s, p + 2)
    else if At(s, p) == '/' then
      if !IsPchar(At(s, p + 1)) then Fail
      else
        var r := Rootless(s, p + 1);
        Ok(Hier(None, None, Some(['/'] + r.text), 0, 0), r.end)
    else if IsPchar(At(s, p)) then
      var r := Rootless(s, p);
      Ok(Hier(None, None, Some(r.text), 0, 0), r.end)
    else Ok(Hier(None, None, None, 0, 0), p)
  }

  /** An optional part introduced by `lead` at `p`. */
  function OptTail(s: seq<Byte>, p: nat, lead: Byte): (r: Option<Span>)
    requires p <= |s| && lead != '\0'
    ensures r.Some? ==> p < r.value.end <= |s|
  {
    if At(s, p) == lead then Some(TailSpec(s, p + 1)) else None
  }

  function SpanText(o: Option<Span>): Option<seq<Byte>>
  {
    if o.Some? then Some(o.value.text) else None
  }

  function After(o: Option<Span>, p: nat): nat
  {
    if o.Some? then o.value.end else p
  }

  /** The meaning of `gcfg_parse_uri`, each component as the string it was
      meant to be: scheme, hierarchical part, then `?` and a query, then
      `#` and a fragment. The record is a URI value; absent components
      are NULL and the flags say which kind of host there is and whether
      a port was given. */
  function UriSpec(s: seq<Byte>, i: nat): (r: Res<Value>)
  {
    match SchemeSpec(s, i)
    case Fail => Fail
    case Ok(scheme, p) =>
      match HierSpec(s, p)
      case Fail => Fail
      case Ok(h, q) =>
        var query := OptTail(s, q, '?');
        var q2 := After(query, q);
        var fragment := OptTail(s, q2, '#');
        var parts := UriParts(Some(scheme), h.userinfo, h.host, h.path,
                              SpanText(query), SpanText(fragment), h.port);
        Ok(Value(TypeUri, UriData(parts), h.flags, 0), After(fragment, q2))
  }

  /** The hierarchical part is a rootless path: no `/` after the scheme,
      but a path character. */
  predicate RootlessAt(s: seq<Byte>, i: nat)
  {
    SchemeSpec(s, i).Ok? && RootlessHier(s, SchemeSpec(s, i).next)
  }

  /** The hierarchical part at `p` is a rootless path. */
  predicate RootlessHier(s: seq<Byte>, p: nat)
  {
    At(s, p) != '/' && IsPchar(At(s, p))
  }

  /** What the record's pointers read as written: after a rootless path
      the scratch cursor is not moved past it, so a query, or else a
      fragment, is copied over it and the path pointer reads that. */
  function UriAsWritten(s: seq<Byte>, i: nat): (r: Res<Value>)
  {
    var r := UriSpec(s, i);
    if r.Fail? || !RootlessAt(s, i) then r
    else
      var parts := r.value.data.uri;
      var path := if parts.query.Some? then parts.query
                  else if parts.fragment.Some? then parts.fragment
                  else parts.path;
      Ok(r.value.(data := UriData(parts.(path := path))), r.next)
  }

  // ---------------------------------------------------------------------
  // The scratch buffer

  /** `t` written into `b` from `w` on, the rest of `b` unchanged. */
  function Put(b: seq<Byte>, w: nat, t: seq<Byte>): (r: seq<Byte>)
    requires w + |t| <= |b|
    ensures |r| == |b| && r[..w] == b[..w] && r[w..w + |t|] == t && r[w + |t|..] == b[w + |t|..]
  {
    b[..w] + t + b[w + |t|..]
  }

  lemma PutSnoc(b: seq<Byte>, w: nat, t: seq<Byte>, c: Byte)
    requires w + |t| < |b|
    ensures Put(b, w, t + [c]) == Put(b, w, t)[w + |t| := c]
  {
  }

  lemma Regroup(a: seq<Byte>, b: seq<Byte>, c: seq<Byte>)
    ensures a + (b + c) == (a + b) + c
  {
  }

  lemma PutAppend(b: seq<Byte>, w: nat, t: seq<Byte>, x: seq<Byte>)
    requires w + |t| + |x| <= |b|
    ensures Put(Put(b, w, t), w + |t|, x) == Put(b, w, t + x)
  {
  }

  /** The buffer holds the string `t` at `o`: its bytes, then a NUL. */
  ghost predicate Holds(b: seq<Byte>, o: nat, t: seq<Byte>)
  {
    o + |t| < |b| && b[o..o + |t|] == t && b[o + |t|] == '\0' && '\0' !in t
  }

  /** A string held at `o` is what `strlen` and friends read there. */
  lemma HoldsReads(b: seq<Byte>, o: nat, t: seq<Byte>)
    requires Holds(b, o, t)
    ensures CString(b[o..]) == t
  {
    var x := b[o..];
    assert x[..|t|] == t && x[|t|] == '\0';
  }

  /** Writing a string and its NUL makes the buffer hold it. */
  lemma PutHolds(b: seq<Byte>, w: nat, t: seq<Byte>)
    requires w + |t| < |b| && '\0' !in t
    ensures Holds(Put(b, w, t + ['\0']), w, t)
  {
    var r := Put(b, w, t + ['\0']);
    assert r[w..w + |t|] == (t + ['\0'])[..|t|] == t;
  }

  /** Writing at or past `lim` keeps a string that ends before it. */
  lemma PutKeeps(b: seq<Byte>, o: nat, t: seq<Byte>, lim: nat, w: nat, x: seq<Byte>)
    requires Holds(b, o, t) && o + |t| < lim <= w && w + |x| <= |b|
    ensures Holds(Put(b, w, x), o, t)
  {
    var r := Put(b, w, x);
    assert r[..w] == b[..w];
    assert r[o..o + |t|] == r[..w][o..o + |t|];
    assert b[o..o + |t|] == b[..w][o..o + |t|];
    assert r[o + |t|] == r[..w][o + |t|];
  }

  /** A run of class `k` from `p` that ends at `e` is the whole run. */
  lemma RunEndIs(s: seq<Byte>, p: nat, e: nat, k: Class)
    requires p <= e && forall j :: p <= j < e ==> j < |s| && InClass(s[j], k)
    requires !InClass(At(s, e), k)
    ensures RunEnd(s, p, k) == e
  {
  }

  /** `*(out++) = *(in++)` while the byte at `in` is of class `k`. */
  method CopyRun(s: seq<Byte>, p: nat, k: Class, out: array<Byte>, w: nat) returns (e: nat, w': nat)
    requires p <= |s| && w + (RunEnd(s, p, k) - p) <= out.Length
    modifies out
    ensures e == RunEnd(s, p, k) && w' == w + (e - p)
    ensures out[..] == Put(old(out[..]), w, s[p..e])
  {
    e, w' := p, w;
    while InClass(At(s, e), k)
      invariant p <= e <= RunEnd(s, p, k) && w' == w + (e - p)
      invariant forall j :: w <= j < w' ==> out[j] == s[p + (j - w)]
      invariant forall j :: 0 <= j < out.Length && !(w <= j < w') ==> out[j] == old(out[j])
      decreases |s| - e
    {
      out[w'] := s[e];
      e, w' := e + 1, w' + 1;
    }
    CopiedAsPut(old(out[..]), out[..], w, s, p, e);
  }

  /** `while (in < end) *(out++) = *(in++)`. */
  method CopySpan(s: seq<Byte>, p: nat, e: nat, out: array<Byte>, w: nat) returns (w': nat)
    requires p <= e <= |s| && w + (e - p) <= out.Length
    modifies out
    ensures w' == w + (e - p)
    ensures out[..] == Put(old(out[..]), w, s[p..e])
  {
    var q := p;
    w' := w;
    while q < e
      invariant p <= q <= e && w' == w + (q - p)
      invariant forall j :: w <= j < w' ==> out[j] == s[p + (j - w)]
      invariant forall j :: 0 <= j < out.Length && !(w <= j < w') ==> out[j] == old(out[j])
    {
      out[w'] := s[q];
      q, w' := q + 1, w' + 1;
    }
    CopiedAsPut(old(out[..]), out[..], w, s, p, e);
  }

  /** `scheme`: each byte folded to lower case; a letter is copied, a
      digit, `+`, `-` or `.` too unless nothing has been copied yet, and a
      `:` after at least one byte ends the scheme with a NUL. Anything
      else fails. */
  method Scheme(s: seq<Byte>, i: nat, out: array<Byte>) returns (r: Option<nat>)
    requires i <= |s| && |s| - i + 1 <= out.Length
    modifies out
    ensures r.Some? <==> SchemeSpec(s, i).Ok?
    ensures r.Some? ==> (r.value == SchemeSpec(s, i).next &&
                         out[..] == Put(old(out[..]), 0, SchemeSpec(s, i).value + ['\0']))
  {
    var p, w := i, 0;
    var c := Lower(At(s, p));
    while IsLower(c) || ((IsDigit(c) || c == '+' || c == '-' || c == '.') && w != 0)
      invariant i <= p <= |s| && w == p - i && c == Lower(At(s, p))
      invariant forall j :: i <= j < p ==> InClass(s[j], SchemeChar)
      invariant p > i ==> IsAlpha(s[i])
      invariant forall j :: 0 <= j < w ==> out[j] == Lower(s[i + j])
      invariant forall j :: w <= j < out.Length ==> out[j] == old(out[j])
      decreases |s| - p
    {
      SchemeStep(s, i, p, c);
      out[w] := c;
      p, w := p + 1, w + 1;
      c := Lower(At(s, p));
    }
    SchemeEnd(s, i, p, c);
    if c != ':' || w == 0 {
      return None;
    }
    out[w] := '\0';
    SchemeCopied(old(out[..]), out[..], s, i, p);
    return Some(p + 1);
  }

  /** The folded scheme and its NUL at the front of the buffer. */
  lemma SchemeCopied(b0: seq<Byte>, b: seq<Byte>, s: seq<Byte>, i: nat, p: nat)
    requires i <= p <= |s| && |b| == |b0| && p - i < |b|
    requires forall j :: 0 <= j < p - i ==> b[j] == Lower(s[i + j])
    requires b[p - i] == '\0'
    requires forall j :: p - i < j < |b| ==> b[j] == b0[j]
    ensures b == Put(b0, 0, LowerText(s[i..p]) + ['\0'])
  {
    var t := LowerText(s[i..p]) + ['\0'];
    forall j | 0 <= j < |t|
      ensures b[j] == t[j]
    {
      if j < p - i {
        assert s[i..p][j] == s[i + j];
      }
    }
    AsPut(b0, b, 0, t);
  }

  /** Where the loop of `scheme` stops, `SchemeSpec` decides. */
  lemma SchemeEnd(s: seq<Byte>, i: nat, p: nat, c: Byte)
    requires i <= p <= |s| && c == Lower(At(s, p))
    requires forall j :: i <= j < p ==> InClass(s[j], SchemeChar)
    requires p > i ==> IsAlpha(s[i])
    requires !(IsLower(c) || ((IsDigit(c) || c == '+' || c == '-' || c == '.') && p != i))
    ensures SchemeSpec(s, i) == if p > i && c == ':' then Ok(LowerText(s[i..p]), p + 1) else Fail
  {
    if p > i {
      RunEndIs(s, i, p, SchemeChar);
    }
  }

  /** A byte the loop of `scheme` copies belongs to the scheme. */
  lemma SchemeStep(s: seq<Byte>, i: nat, p: nat, c: Byte)
    requires i <= p && c == Lower(At(s, p))
    requires IsLower(c) || ((IsDigit(c) || c == '+' || c == '-' || c == '.') && p > i)
    ensures p < |s| && InClass(s[p], SchemeChar) && (p == i ==> IsAlpha(s[p])) && c == Lower(s[p])
  {
  }

  /** A buffer that agrees with `t` from `w` on and with `b0` elsewhere. */
  lemma AsPut(b0: seq<Byte>, b: seq<Byte>, w: nat, t: seq<Byte>)
    requires |b| == |b0| && w + |t| <= |b|
    requires forall j :: 0 <= j < |b| && !(w <= j < w + |t|) ==> b[j] == b0[j]
    requires forall j :: 0 <= j < |t| ==> b[w + j] == t[j]
    ensures b == Put(b0, w, t)
  {
    var r := Put(b0, w, t);
    forall j | 0 <= j < |b|
      ensures b[j] == r[j]
    {
      if j < w {
        assert r[j] == r[..w][j];
      } else if j < w + |t| {
        assert r[j] == r[w..w + |t|][j - w];
      } else {
        assert r[j] == r[w + |t|..][j - w - |t|];
      }
    }
  }

  /** `s[p..e]` copied to `w`, the rest of the buffer as it was. */
  lemma CopiedAsPut(b0: seq<Byte>, b: seq<Byte>, w: nat, s: seq<Byte>, p: nat, e: nat)
    requires p <= e <= |s| && |b| == |b0| && w + (e - p) <= |b|
    requires forall j :: w <= j < w + (e - p) ==> b[j] == s[p + (j - w)]
    requires forall j :: 0 <= j < |b| && !(w <= j < w + (e - p)) ==> b[j] == b0[j]
    ensures b == Put(b0, w, s[p..e])
  {
    var t := s[p..e];
    forall j | 0 <= j < |t|
      ensures b[w + j] == t[j]
    {
      assert b[w + j] == s[p + j];
    }
    AsPut(b0, b, w, t);
  }

  /** A scheme read is a letter followed by letters, digits, `+`, `-` and
      `.`, all folded to lower case, and it ends one byte before the `:`. */
  lemma SchemeFolded(s: seq<Byte>, i: nat)
    requires SchemeSpec(s, i).Ok?
    ensures var r := SchemeSpec(s, i);
            r.next == i + |r.value| + 1 <= |s| && s[r.next - 1] == ':' && r.value != [] && IsLower(r.value[0])
    ensures var t := SchemeSpec(s, i).value;
            forall j :: 0 <= j < |t| ==> InClass(t[j], SchemeChar) && !IsUpper(t[j])
  {
    var e := RunEnd(s, i, SchemeChar);
    assert At(s, e) == ':';
  }

  /** `have_char_in_uri`: is `c` among the URI characters from `p` on? */
  method HaveCharInUri(s: seq<Byte>, p: nat, c: Byte) returns (b: bool)
    requires p <= |s|
    ensures b <==> c in s[p..RunEnd(s, p, AnyUriChar)]
  {
    var q := p;
    while IsUriChar(At(s, q))
      invariant p <= q <= RunEnd(s, p, AnyUriChar)
      invariant c !in s[p..q]
      decreases |s| - q
    {
      if At(s, q) == c {
        assert s[p..RunEnd(s, p, AnyUriChar)][q - p] == c;
        return true;
      }
      assert s[p..q + 1] == s[p..q] + [s[q]];
      q := q + 1;
    }
    return false;
  }

  /** `userinfo`: the user information and its NUL, up to the `@`. */
  method Userinfo(s: seq<Byte>, p: nat, out: array<Byte>, w: nat) returns (r: Option<nat>)
    requires p <= |s| && w + (|s| - p) <= out.Length
    modifies out
    ensures r.Some? <==> UserinfoSpec(s, p).Ok?
    ensures r.Some? ==> (r.value == UserinfoSpec(s, p).next &&
                         out[..] == Put(old(out[..]), w, UserinfoSpec(s, p).value + ['\0']))
  {
    var e, w1 := CopyRun(s, p, UserChar, out, w);
    if At(s, e) != '@' {
      return None;
    }
    PutSnoc(old(out[..]), w, s[p..e], '\0');
    out[w1] := '\0';
    return Some(e + 1);
  }

  /** The `[` branch of `hostname`: hex digits, `:` and `.` copied up to
      the `]`, and the copy, NUL-terminated, checked by `gcfg_parse_ipv6`. */
  method HostLiteral(s: seq<Byte>, p: nat, out: array<Byte>, w: nat) returns (r: Res<(seq<Byte>, nat)>, w': nat)
    requires p < |s| && s[p] == '[' && w + (|s| - p) <= out.Length
    modifies out
    ensures r == HostSpec(s, p)
    ensures r.Ok? ==> w' == w + |r.value.0| && out[..] == Put(old(out[..]), w, r.value.0)
  {
    var e;
    e, w' := CopyRun(s, p + 1, LiteralChar, out, w);
    if At(s, e) != ']' {
      return Fail, w';
    }
    var host := out[w..w'];
    assert host == s[p + 1..e];
    var v := ParseIpv6(host, 0);
    if v.Fail? {
      return Fail, w';
    }
    return Ok((host, URI_HOST_IPV6), e + 1), w';
  }

  /** The other branch of `hostname`: a dotted IPv4 address, copied, or
      else a registered name, which may not be empty. */
  method HostAddress(s: seq<Byte>, p: nat, out: array<Byte>, w: nat) returns (r: Res<(seq<Byte>, nat)>, w': nat)
    requires p <= |s| && At(s, p) != '[' && w + (|s| - p) <= out.Length
    modifies out
    ensures r == HostSpec(s, p)
    ensures r.Ok? ==> w' == w + |r.value.0| && out[..] == Put(old(out[..]), w, r.value.0)
  {
    var a := Ipv4Address(s, p);
    if a.Fail? {
      var e;
      e, w' := CopyRun(s, p, RegNameChar, out, w);
      if w' == w {
        return Fail, w';
      }
      return Ok((s[p..e], URI_HOST_NAME), e), w';
    }
    Ipv4AddressAhead(s, p);
    w' := CopySpan(s, p, a.next, out, w);
    return Ok((s[p..a.next], URI_HOST_IPV4), a.next), w';
  }

  /** The port part of `hostname`: `gcfg_dec_num` with a limit of 65535
      after a `:`. */
  method Port(s: seq<Byte>, q: nat) returns (r: Res<Option<nat>>)
    requires q <= |s|
    ensures r == PortSpec(s, q)
  {
    if At(s, q) != ':' {
      return Ok(None, q);
    }
    var d := DecNumber(s, q + 1, 0xFFFF);
    if d.Fail? {
      return Fail;
    }
    DecNumAhead(s, q + 1, 0xFFFF);
    return Ok(Some(d.value), d.next);
  }

  /** `hostname`: the host, the port, and the host's NUL. */
  method Hostname(s: seq<Byte>, p: nat, out: array<Byte>, w: nat) returns (r: Res<HostPort>)
    requires p <= |s| && w + (|s| - p) + 1 <= out.Length
    modifies out
    ensures r == HostPortSpec(s, p)
    ensures r.Ok? ==> out[..] == Put(old(out[..]), w, r.value.host + ['\0'])
  {
    var h, w1;
    if At(s, p) == '[' {
      h, w1 := HostLiteral(s, p, out, w);
    } else {
      h, w1 := HostAddress(s, p, out, w);
    }
    if h.Fail? {
      return Fail;
    }
    var port := Port(s, h.next);
    if port.Fail? {
      return Fail;
    }
    PutSnoc(old(out[..]), w, h.value.0, '\0');
    out[w1] := '\0';
    return Ok(HostPort(h.value.0, h.value.1, port.value), port.next);
  }

  /** One pass of the segment loop at a `/`: the slashes stepped over,
      then, if a path character follows, `/` and the segment written. */
  method NextSegment(s: seq<Byte>, p: nat, out: array<Byte>, w: nat)
    returns (found: bool, e: nat, w': nat, ghost x: seq<Byte>)
    requires p < |s| && s[p] == '/' && w + (|s| - p) <= out.Length
    modifies out
    ensures p < e <= |s| && w' == w + |x| && |x| <= e - p
    ensures out[..] == Put(old(out[..]), w, x)
    ensures Segments(s, p) == Span(x + Segments(s, e).text, Segments(s, e).end)
    ensures !found ==> x == [] && Segments(s, e) == Span([], e)
  {
    var q := p;
    while At(s, q) == '/'
      invariant p <= q <= RunEnd(s, p, SlashChar)
      decreases |s| - q
    {
      q := q + 1;
    }
    assert q == RunEnd(s, p, SlashChar);
    if !IsPchar(At(s, q)) {
      assert Segments(s, p) == Span([], q);
      return false, q, w, [];
    }
    ghost var b0 := out[..];
    ghost var slash := [s[p]];
    PutSnoc(b0, w, [], s[p]);
    out[w] := '/';
    assert out[..] == Put(b0, w, slash);
    e, w' := CopyRun(s, q, PathChar, out, w + 1);
    PutAppend(b0, w, slash, s[q..e]);
    x := slash + s[q..e];
    SegmentsStep(s, p, q, e);
    found := true;
  }

  /** One turn of the segment loop. */
  lemma SegmentsStep(s: seq<Byte>, p: nat, q: nat, e: nat)
    requires p < |s| && s[p] == '/' && q == RunEnd(s, p, SlashChar) && IsPchar(At(s, q))
    requires e == RunEnd(s, q, PathChar)
    ensures Segments(s, p) == Span(['/'] + s[q..e] + Segments(s, e).text, Segments(s, e).end)
  {
  }

  /** The segment loop (`while (*in == '/')`). */
  method CopySegments(s: seq<Byte>, p: nat, out: array<Byte>, w: nat) returns (e: nat, w': nat)
    requires p <= |s| && w + (|s| - p) <= out.Length
    modifies out
    ensures e == Segments(s, p).end && w' == w + |Segments(s, p).text|
    ensures out[..] == Put(old(out[..]), w, Segments(s, p).text)
  {
    e, w' := p, w;
    ghost var done: seq<Byte> := [];
    while At(s, e) == '/'
      invariant p <= e <= |s| && w' == w + |done| && |done| <= e - p
      invariant out[..] == Put(old(out[..]), w, done)
      invariant Segments(s, p) == Span(done + Segments(s, e).text, Segments(s, e).end)
      decreases |s| - e
    {
      var found;
      ghost var x;
      ghost var before, e0 := out[..], e;
      found, e, w', x := NextSegment(s, e, out, w');
      assert out[..] == Put(before, w + |done|, x);
      PutAppend(old(out[..]), w, done, x);
      Regroup(done, x, Segments(s, e).text);
      done := done + x;
      if !found {
        assert done + [] == done;
        return;
      }
    }
    assert done + [] == done;
  }

  /** `path_rootless`: a segment, the segment loop, and the NUL. */
  method PathRootless(s: seq<Byte>, p: nat, out: array<Byte>, w: nat) returns (e: nat)
    requires p <= |s| && w + (|s| - p) + 1 <= out.Length
    modifies out
    ensures e == Rootless(s, p).end
    ensures out[..] == Put(old(out[..]), w, Rootless(s, p).text + ['\0'])
  {
    ghost var b0 := out[..];
    var e1, w1 := CopyRun(s, p, PathChar, out, w);
    ghost var head := s[p..e1];
    ghost var rest := Segments(s, e1).text;
    var w2;
    e, w2 := CopySegments(s, e1, out, w1);
    PutAppend(b0, w, head, rest);
    ghost var t := head + rest;
    assert w2 == w + |t| && out[..] == Put(b0, w, t);
    PutSnoc(b0, w, t, '\0');
    out[w2] := '\0';
  }

  /** The path after an authority: the segment loop, a `/` when it wrote
      nothing, and the NUL. */
  method PathAbempty(s: seq<Byte>, q: nat, out: array<Byte>, w: nat) returns (e: nat, w': nat)
    requires q <= |s| && w + (|s| - q) + 2 <= out.Length
    modifies out
    ensures e == Segments(s, q).end
    ensures var t := Segments(s, q).text;
            var path := if t == [] then ['/'] else t;
            w' == w + |path| + 1 && out[..] == Put(old(out[..]), w, path + ['\0'])
  {
    ghost var b0 := out[..];
    var w1;
    e, w1 := CopySegments(s, q, out, w);
    ghost var t := Segments(s, q).text;
    if w1 == w {
      PutSnoc(b0, w, [], '/');
      out[w1] := '/';
      w1 := w1 + 1;
      t := ['/'];
    }
    assert w1 == w + |t| && out[..] == Put(b0, w, t);
    PutSnoc(b0, w, t, '\0');
    out[w1] := '\0';
    w' := w1 + 1;
  }

  /** `(?|#)` and what follows: path characters, `/` and `?`, and a NUL. */
  method CopyTail(s: seq<Byte>, p: nat, out: array<Byte>, w: nat) returns (e: nat, w': nat)
    requires p <= |s| && w + (|s| - p) + 1 <= out.Length
    modifies out
    ensures e == TailSpec(s, p).end && w' == w + |TailSpec(s, p).text| + 1
    ensures out[..] == Put(old(out[..]), w, TailSpec(s, p).text + ['\0'])
  {
    var w1;
    e, w1 := CopyRun(s, p, TailChar, out, w);
    PutSnoc(old(out[..]), w, s[p..e], '\0');
    out[w1] := '\0';
    w' := w1 + 1;
  }

  /** Where `gcfg_parse_uri` left the strings of the hierarchical part in
      the scratch buffer, and the port and flags it set. */
  datatype HierRefs = HierRefs(userinfo: Option<nat>, host: Option<nat>, path: Option<nat>,
                               port: nat, flags: nat)

  /** Where every string of the URI record points into the scratch buffer,
      and the port and flags. */
  datatype Refs = Refs(scheme: nat, userinfo: Option<nat>, host: Option<nat>, path: Option<nat>,
                       query: Option<nat>, fragment: Option<nat>, port: nat, flags: nat)

  /** Offset `o`, if any, holds `t` in `b`, and the string ends below `lim`. */
  ghost predicate Shows(b: seq<Byte>, o: Option<nat>, t: Option<seq<Byte>>, lim: nat)
  {
    (o.Some? <==> t.Some?) && (o.Some? ==> Holds(b, o.value, t.value) && o.value + |t.value| < lim)
  }

  ghost predicate HierShows(b: seq<Byte>, refs: HierRefs, h: Hier, lim: nat)
  {
    Shows(b, refs.userinfo, h.userinfo, lim) && Shows(b, refs.host, h.host, lim) &&
    Shows(b, refs.path, h.path, lim) && refs.port == h.port && refs.flags == h.flags
  }

  lemma SamePrefix(a: seq<Byte>, b: seq<Byte>, m: nat, n: nat)
    requires m <= n <= |a| && n <= |b| && a[..n] == b[..n]
    ensures a[..m] == b[..m]
  {
    assert a[..m] == a[..n][..m];
    assert b[..m] == b[..n][..m];
  }

  /** A string that ends below `lim` survives any change at or above `lim`. */
  lemma HoldsBelow(b0: seq<Byte>, b: seq<Byte>, o: nat, t: seq<Byte>, lim: nat)
    requires Holds(b0, o, t) && o + |t| < lim <= |b0| == |b| && b[..lim] == b0[..lim]
    ensures Holds(b, o, t)
  {
    forall j | o <= j <= o + |t|
      ensures b[j] == b0[j]
    {
      assert b[j] == b[..lim][j] && b0[j] == b0[..lim][j];
    }
    assert b[o..o + |t|] == b0[o..o + |t|];
  }

  lemma ShowsBelow(b0: seq<Byte>, b: seq<Byte>, o: Option<nat>, t: Option<seq<Byte>>, lim: nat)
    requires Shows(b0, o, t, lim) && lim <= |b0| == |b| && b[..lim] == b0[..lim]
    ensures Shows(b, o, t, lim)
  {
    if o.Some? {
      HoldsBelow(b0, b, o.value, t.value, lim);
    }
  }

  lemma ShowsWider(b: seq<Byte>, o: Option<nat>, t: Option<seq<Byte>>, lim: nat, lim': nat)
    requires Shows(b, o, t, lim) && lim <= lim'
    ensures Shows(b, o, t, lim')
  {
  }

  /** The part of `gcfg_parse_uri` after `//`: user information when an
      `@` comes up among the URI characters, then the host and path. */
  method Authority(s: seq<Byte>, p: nat, out: array<Byte>, w: nat)
    returns (ok: bool, next: nat, refs: HierRefs, w': nat)
    requires p + 2 <= |s| && w + (|s| - p) + 1 <= out.Length
    modifies out
    ensures ok <==> AfterSlashes(s, p + 2).Ok?
    ensures ok ==> next == AfterSlashes(s, p + 2).next && w <= w' <= w + (next - p) + 1 && w' <= out.Length
    ensures ok ==> HierShows(out[..], refs, AfterSlashes(s, p + 2).value, w') && out[..w] == old(out[..w])
  {
    var q, wc := p + 2, w;
    var user: Option<nat> := None;
    ghost var ut: Option<seq<Byte>> := None;
    var has := HaveCharInUri(s, q, '@');
    if has {
      var u := Userinfo(s, q, out, w);
      if u.None? {
        return false, 0, HierRefs(None, None, None, 0, 0), w;
      }
      ut := Some(UserinfoSpec(s, q).value);
      RunNulFree(s, q, UserChar);
      PutHolds(old(out[..]), w, ut.value);
      HoldsReads(out[..], w, ut.value);
      var n := StrLen(out, w);
      user, q, wc := Some(w), u.value, w + n + 1;
    }
    assert AuthoritySpec(s, q, ut) == AfterSlashes(s, p + 2);
    ghost var b1 := out[..];
    var hp;
    hp, next, refs, w' := HostAndPath(s, q, ut, user, out, wc);
    ok := hp.Ok?;
    if ok {
      SamePrefix(out[..], b1, w, wc);
    }
  }

  /** `hostname` and the path after it, with the user information, if
      any, already held below `wc`. */
  method HostAndPath(s: seq<Byte>, q: nat, ghost ut: Option<seq<Byte>>, user: Option<nat>, out: array<Byte>, wc: nat)
    returns (hp: Res<HostPort>, next: nat, refs: HierRefs, w': nat)
    requires q <= |s| && wc + (|s| - q) + 3 <= out.Length
    requires Shows(out[..], user, ut, wc)
    modifies out
    ensures hp == HostPortSpec(s, q)
    ensures hp.Ok? ==> next == Segments(s, hp.next).end && wc <= w' <= wc + (next - q) + 3 && w' <= out.Length
    ensures hp.Ok? ==> HierShows(out[..], refs, HierOf(ut, hp.value, Segments(s, hp.next).text), w')
    ensures hp.Ok? ==> out[..wc] == old(out[..wc])
  {
    hp := Hostname(s, q, out, wc);
    if hp.Fail? {
      return hp, 0, HierRefs(None, None, None, 0, 0), wc;
    }
    ghost var b1 := out[..];
    ghost var host := hp.value.host;
    HostNulFree(s, q);
    PutHolds(old(out[..]), wc, host);
    HoldsReads(b1, wc, host);
    var n := StrLen(out, wc);
    var wh := wc + n + 1;
    var e;
    e, w' := PathAbempty(s, hp.next, out, wh);
    ghost var t := Segments(s, hp.next).text;
    ghost var path := if t == [] then ['/'] else t;
    SegmentsNulFree(s, hp.next);
    HostPathLayout(old(out[..]), b1, out[..], user, ut, wc, host, wh, path, w');
    var port := if hp.value.port.Some? then hp.value.port.value else 0;
    var flags := if hp.value.port.Some? then hp.value.kind + URI_HAS_PORT else hp.value.kind;
    refs := HierRefs(user, Some(wc), Some(wh), port, flags);
    next := e;
  }

  /** The user information below `wc`, then the host at `wc` and the
      path right after it, each with its NUL. */
  lemma HostPathLayout(b0: seq<Byte>, b1: seq<Byte>, b: seq<Byte>, user: Option<nat>, ut: Option<seq<Byte>>,
                       wc: nat, host: seq<Byte>, wh: nat, path: seq<Byte>, w': nat)
    requires Shows(b0, user, ut, wc) && wc + |host| < |b0| && '\0' !in host && '\0' !in path
    requires b1 == Put(b0, wc, host + ['\0']) && wh == wc + |host| + 1
    requires wh + |path| < |b1| && b == Put(b1, wh, path + ['\0']) && w' == wh + |path| + 1
    ensures Shows(b, user, ut, w') && Shows(b, Some(wc), Some(host), w') && Shows(b, Some(wh), Some(path), w')
    ensures b[..wc] == b0[..wc]
  {
    PutHolds(b0, wc, host);
    ShowsBelow(b0, b1, user, ut, wc);
    PutHolds(b1, wh, path);
    ShowsBelow(b1, b, user, ut, wh);
    HoldsBelow(b1, b, wc, host, wh);
    SamePrefix(b, b1, wc, wh);
  }

  /** The hierarchical part as `gcfg_parse_uri` writes it: after `//` an
      authority; after a single `/` a path that must start with a path
      character, written with its `/`; a rootless path, after which the
      cursor is not moved; or nothing. */
  method ParseHier(s: seq<Byte>, p: nat, out: array<Byte>, w: nat)
    returns (ok: bool, next: nat, refs: HierRefs, w': nat)
    requires p <= |s| && w + (|s| - p) + 1 <= out.Length
    modifies out
    ensures ok <==> HierSpec(s, p).Ok?
    ensures ok ==> next == HierSpec(s, p).next && w <= w' <= w + (next - p) + 1 && w' <= out.Length
    ensures ok ==> out[..w] == old(out[..w])
    ensures ok && !RootlessHier(s, p) ==> HierShows(out[..], refs, HierSpec(s, p).value, w')
    ensures ok && RootlessHier(s, p) ==>
              w' == w && refs == HierRefs(None, None, Some(w), 0, 0) && Holds(out[..], w, HierSpec(s, p).value.path.value)
  {
    if At(s, p) == '/' && At(s, p + 1) == '/' {
      ok, next, refs, w' := Authority(s, p, out, w);
    } else if At(s, p) == '/' {
      if !IsPchar(At(s, p + 1)) {
        return false, 0, HierRefs(None, None, None, 0, 0), w;
      }
      next, w' := PathAbsolute(s, p, out, w);
      ok, refs := true, HierRefs(None, None, Some(w), 0, 0);
    } else if IsPchar(At(s, p)) {
      next := PathRootless(s, p, out, w);
      RootlessNulFree(s, p);
      PutHolds(old(out[..]), w, Rootless(s, p).text);
      ok, w', refs := true, w, HierRefs(None, None, Some(w), 0, 0);
    } else {
      ok, next, w', refs := true, p, w, HierRefs(None, None, None, 0, 0);
    }
  }

  /** The `/` branch of `gcfg_parse_uri`: the `/` written, then
      `path_rootless` after it, and the cursor moved past both. */
  method PathAbsolute(s: seq<Byte>, p: nat, out: array<Byte>, w: nat) returns (next: nat, w': nat)
    requires p < |s| && s[p] == '/' && w + (|s| - p) + 1 <= out.Length
    modifies out
    ensures var r := Rootless(s, p + 1);
            next == r.end && w' == w + |r.text| + 2 && w' <= w + (next - p) + 1 &&
            out[..] == Put(old(out[..]), w, ['/'] + r.text + ['\0']) && Holds(out[..], w, ['/'] + r.text)
  {
    out[w] := '/';
    ghost var b1 := out[..];
    assert b1 == Put(old(out[..]), w, ['/']);
    next := PathRootless(s, p + 1, out, w + 1);
    ghost var t := Rootless(s, p + 1).text;
    PutAppend(old(out[..]), w, ['/'], t + ['\0']);
    Regroup(['/'], t, ['\0']);
    RootlessNulFree(s, p + 1);
    PutHolds(old(out[..]), w, ['/'] + t);
    PutHolds(b1, w + 1, t);
    HoldsReads(out[..], w + 1, t);
    var n := StrLen(out, w + 1);
    w' := w + 1 + n + 1;
  }

  /** `?` and a query, or `#` and a fragment, copied with its NUL at the
      cursor. */
  method OptionalTail(s: seq<Byte>, p: nat, lead: Byte, out: array<Byte>, w: nat)
    returns (o: Option<nat>, e: nat, w': nat)
    requires p <= |s| && lead != '\0' && w + (|s| - p) <= out.Length
    modifies out
    ensures Shows(out[..], o, SpanText(OptTail(s, p, lead)), w') && e == After(OptTail(s, p, lead), p)
    ensures w <= w' <= w + (e - p) && out[..w] == old(out[..w])
    ensures o.Some? ==> o.value == w
    ensures o.None? ==> out[..] == old(out[..]) && w' == w
  {
    if At(s, p) != lead {
      return None, p, w;
    }
    e, w' := CopyTail(s, p + 1, out, w);
    ghost var t := TailSpec(s, p + 1).text;
    RunNulFree(s, p + 1, TailChar);
    PutHolds(old(out[..]), w, t);
    o := Some(w);
  }

  /** The query and then the fragment. */
  method Tails(s: seq<Byte>, q: nat, out: array<Byte>, w: nat)
    returns (query: Option<nat>, fragment: Option<nat>, e: nat, w': nat)
    requires q <= |s| && w + (|s| - q) <= out.Length
    modifies out
    ensures var qt := OptTail(s, q, '?');
            var ft := OptTail(s, After(qt, q), '#');
            e == After(ft, After(qt, q)) &&
            Shows(out[..], query, SpanText(qt), w') && Shows(out[..], fragment, SpanText(ft), w')
    ensures w <= w' <= w + (e - q) && out[..w] == old(out[..w])
    ensures query.Some? ==> query.value == w
    ensures query.None? && fragment.Some? ==> fragment.value == w
    ensures query.None? && fragment.None? ==> out[..] == old(out[..])
  {
    var q2, w1;
    query, q2, w1 := OptionalTail(s, q, '?', out, w);
    ghost var b1 := out[..];
    ghost var qt := SpanText(OptTail(s, q, '?'));
    fragment, e, w' := OptionalTail(s, q2, '#', out, w1);
    ShowsBelow(b1, out[..], query, qt, w1);
    ShowsWider(out[..], query, qt, w1, w');
    SamePrefix(out[..], b1, w, w1);
  }

  /** `gcfg_parse_uri`: the scheme, the hierarchical part, the query and
      the fragment, each written with its NUL into the scratch buffer
      `out`, which has room for the rest of the input and a byte more.
      What the record's pointers then read is the URI as written: the
      meaning of the input except where a query or fragment follows a
      rootless path (see `UriAsWritten`). */
  method ParseUri(s: seq<Byte>, i: nat, out: array<Byte>) returns (r: Res<Refs>)
    requires i <= |s| && |s| - i + 1 <= out.Length
    modifies out
    ensures r.Fail? <==> UriSpec(s, i).Fail?
    ensures r.Ok? ==> r.next == UriSpec(s, i).next && Points(out[..], r.value) &&
                      ReadRefs(out[..], r.value) == UriAsWritten(s, i).value
  {
    r := ParseUriPieces(s, i, out);
    if r.Ok? {
      UriPieces(s, i);
    }
  }

  /** The body of `gcfg_parse_uri`, stated piece by piece. */
  method ParseUriPieces(s: seq<Byte>, i: nat, out: array<Byte>) returns (r: Res<Refs>)
    requires i <= |s| && |s| - i + 1 <= out.Length
    modifies out
    ensures r.Fail? <==> SchemeSpec(s, i).Fail? || HierSpec(s, SchemeSpec(s, i).next).Fail?
    ensures r.Ok? ==>
              var p := SchemeSpec(s, i).next;
              var q := HierSpec(s, p).next;
              var qt := OptTail(s, q, '?');
              var ft := OptTail(s, After(qt, q), '#');
              r.next == After(ft, After(qt, q)) && Points(out[..], r.value) &&
              ReadRefs(out[..], r.value) ==
                Record(SchemeSpec(s, i).value, HierSpec(s, p).value, SpanText(qt), SpanText(ft), RootlessHier(s, p))
  {
    var sc := Scheme(s, i, out);
    if sc.None? {
      return Fail;
    }
    var p := sc.value;
    ghost var scheme := SchemeSpec(s, i).value;
    PutHolds(old(out[..]), 0, scheme);
    HoldsReads(out[..], 0, scheme);
    var n := StrLen(out, 0);
    var w := n + 1;
    ghost var b1 := out[..];
    var ok, q, h, w1 := ParseHier(s, p, out, w);
    if !ok {
      return Fail;
    }
    HoldsBelow(b1, out[..], 0, scheme, w);
    ghost var b2 := out[..];
    var query, fragment, e, w2 := Tails(s, q, out, w1);
    SamePrefix(out[..], b2, w, w1);
    HoldsBelow(b2, out[..], 0, scheme, w);
    ghost var hs := HierSpec(s, p).value;
    ghost var overlaid := RootlessHier(s, p);
    if !overlaid {
      HierShowsBelow(b2, out[..], h, hs, w1);
    }
    ghost var qt := OptTail(s, q, '?');
    ghost var ft := OptTail(s, After(qt, q), '#');
    r := Ok(Refs(0, h.userinfo, h.host, h.path, query, fragment, h.port, h.flags), e);
    ReadsRecord(out[..], r.value, scheme, hs, SpanText(qt), SpanText(ft), overlaid, w1, w2);
  }

  /** The record a URI's pieces make; when `overlaid`, the path pointer
      reads the query, or else the fragment, copied over the path. */
  function Record(scheme: seq<Byte>, h: Hier, query: Option<seq<Byte>>, fragment: Option<seq<Byte>>,
                  overlaid: bool): Value
  {
    var path := if overlaid && query.Some? then query
                else if overlaid && fragment.Some? then fragment
                else h.path;
    Value(TypeUri, UriData(UriParts(Some(scheme), h.userinfo, h.host, path, query, fragment, h.port)), h.flags, 0)
  }

  /** `UriAsWritten` piece by piece. */
  lemma UriPieces(s: seq<Byte>, i: nat)
    requires UriSpec(s, i).Ok?
    ensures var p := SchemeSpec(s, i).next;
            var q := HierSpec(s, p).next;
            var qt := OptTail(s, q, '?');
            var ft := OptTail(s, After(qt, q), '#');
            UriAsWritten(s, i) == Ok(Record(SchemeSpec(s, i).value, HierSpec(s, p).value, SpanText(qt), SpanText(ft),
                                            RootlessHier(s, p)), After(ft, After(qt, q)))
  {
    var p := SchemeSpec(s, i).next;
    if RootlessHier(s, p) {
      assert HierSpec(s, p).value == Hier(None, None, HierSpec(s, p).value.path, 0, 0);
    }
  }

  /** Where `gcfg_parse_uri` leaves each string: the scheme at the start,
      query and fragment below `w2`, and the strings of the hierarchical
      part below `w1`, except that a rootless path (`overlaid`) is held
      at `w1` itself, where a query or fragment, if any, now stands. */
  ghost predicate Laid(b: seq<Byte>, refs: Refs, scheme: seq<Byte>, h: Hier, query: Option<seq<Byte>>,
                       fragment: Option<seq<Byte>>, overlaid: bool, w1: nat, w2: nat)
  {
    Holds(b, 0, scheme) && refs.scheme == 0 &&
    Shows(b, refs.query, query, w2) && Shows(b, refs.fragment, fragment, w2) &&
    (!overlaid ==> HierShows(b, HierRefs(refs.userinfo, refs.host, refs.path, refs.port, refs.flags), h, w1)) &&
    (overlaid ==> refs.userinfo.None? && refs.host.None? && refs.path == Some(w1) && refs.port == 0 && refs.flags == 0 &&
                  h == Hier(None, None, h.path, 0, 0) && h.path.Some? &&
                  (refs.query.Some? ==> refs.query.value == w1) &&
                  (refs.query.None? && refs.fragment.Some? ==> refs.fragment.value == w1) &&
                  (refs.query.None? && refs.fragment.None? ==> Holds(b, w1, h.path.value)))
  }

  /** What the pointers read, given where each string is held. */
  lemma ReadsRecord(b: seq<Byte>, refs: Refs, scheme: seq<Byte>, h: Hier,
                    query: Option<seq<Byte>>, fragment: Option<seq<Byte>>, overlaid: bool, w1: nat, w2: nat)
    requires Laid(b, refs, scheme, h, query, fragment, overlaid, w1, w2)
    ensures Points(b, refs) && ReadRefs(b, refs) == Record(scheme, h, query, fragment, overlaid)
  {
    HoldsReads(b, 0, scheme);
    ShowsReads(b, refs.query, query, w2);
    ShowsReads(b, refs.fragment, fragment, w2);
    if !overlaid {
      ShowsReads(b, refs.userinfo, h.userinfo, w1);
      ShowsReads(b, refs.host, h.host, w1);
      ShowsReads(b, refs.path, h.path, w1);
    } else if refs.query.None? && refs.fragment.None? {
      HoldsReads(b, w1, h.path.value);
    }
  }

  lemma HierShowsBelow(b0: seq<Byte>, b: seq<Byte>, hr: HierRefs, h: Hier, lim: nat)
    requires HierShows(b0, hr, h, lim) && lim <= |b0| == |b| && b[..lim] == b0[..lim]
    ensures HierShows(b, hr, h, lim)
  {
    ShowsBelow(b0, b, hr.userinfo, h.userinfo, lim);
    ShowsBelow(b0, b, hr.host, h.host, lim);
    ShowsBelow(b0, b, hr.path, h.path, lim);
  }

  /** Every offset of the record lies inside the buffer `b`. */
  predicate Points(b: seq<Byte>, refs: Refs)
  {
    refs.scheme <= |b| && Inside(b, refs.userinfo) && Inside(b, refs.host) && Inside(b, refs.path) &&
    Inside(b, refs.query) && Inside(b, refs.fragment)
  }

  predicate Inside(b: seq<Byte>, o: Option<nat>)
  {
    o.Some? ==> o.value <= |b|
  }

  /** The string a pointer into the buffer reads, or NULL. */
  function Read(b: seq<Byte>, o: Option<nat>): Option<seq<Byte>>
    requires Inside(b, o)
  {
    if o.Some? then Some(CString(b[o.value..])) else None
  }

  /** The URI value the record's pointers read in the buffer `b`. */
  function ReadRefs(b: seq<Byte>, refs: Refs): Value
    requires Points(b, refs)
  {
    var parts := UriParts(Some(CString(b[refs.scheme..])), Read(b, refs.userinfo), Read(b, refs.host),
                          Read(b, refs.path), Read(b, refs.query), Read(b, refs.fragment), refs.port);
    Value(TypeUri, UriData(parts), refs.flags, 0)
  }

  lemma ShowsReads(b: seq<Byte>, o: Option<nat>, t: Option<seq<Byte>>, lim: nat)
    requires Shows(b, o, t, lim)
    ensures Inside(b, o) && Read(b, o) == t
  {
    if o.Some? {
      HoldsReads(b, o.value, t.value);
    }
  }

  // ---------------------------------------------------------------------
  // What a URI string can hold

  lemma DottedNulFree(a: nat, b: nat, c: nat, d: nat)
    ensures '\0' !in Dotted(a, b, c, d)
  {
    DecimalDigits(a);
    DecimalDigits(b);
    DecimalDigits(c);
    DecimalDigits(d);
  }

  lemma HostNulFree(s: seq<Byte>, p: nat)
    requires p <= |s| && HostSpec(s, p).Ok?
    ensures '\0' !in HostSpec(s, p).value.0
  {
    if At(s, p) == '[' {
      RunNulFree(s, p + 1, LiteralChar);
    } else if Ipv4AddressSpec(s, p).Ok? {
      Ipv4AddressAccepts(s, p);
      var a, b, c, d :| a < 0x100 && b < 0x100 && c < 0x100 && d < 0x100 &&
        s[p..Ipv4AddressSpec(s, p).next] == Dotted(a, b, c, d);
      DottedNulFree(a, b, c, d);
    } else {
      RunNulFree(s, p, RegNameChar);
    }
  }

  lemma {:induction false} SegmentsNulFree(s: seq<Byte>, p: nat)
    requires p <= |s|
    ensures '\0' !in Segments(s, p).text
    decreases |s| - p
  {
    if At(s, p) == '/' {
      var q := RunEnd(s, p, SlashChar);
      if IsPchar(At(s, q)) {
        var e := RunEnd(s, q, PathChar);
        RunNulFree(s, q, PathChar);
        SegmentsNulFree(s, e);
      }
    }
  }

  lemma RootlessNulFree(s: seq<Byte>, p: nat)
    requires p <= |s|
    ensures '\0' !in Rootless(s, p).text
  {
    var e := RunEnd(s, p, PathChar);
    RunNulFree(s, p, PathChar);
    SegmentsNulFree(s, e);
  }

  // ---------------------------------------------------------------------
  // Look-ahead facts the definitions need

  lemma Ipv4AddressAhead(s: seq<Byte>, p: nat)
    requires p <= |s| && Ipv4AddressSpec(s, p).Ok?
    ensures p < Ipv4AddressSpec(s, p).next <= |s|
  {
    Ipv4AddressAccepts(s, p);
  }

  lemma DecNumAhead(s: seq<Byte>, p: nat, max: nat)
    requires DecNumSpec(s, p, max).Ok?
    ensures p < DecNumSpec(s, p, max).next <= |s| && DecNumSpec(s, p, max).value <= max
  {
    DecNumAccepts(s, p, max);
  }
}
