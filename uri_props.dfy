// Properties of the URI model: the folded scheme reads back as itself,
// the record as written departs from the intended one only after a
// rootless path, and an example of that departure.

module UriProps {
  import opened Base
  import opened Values
  import opened Uri

  /** The scheme as stored (folded to lower case), followed by `:`, is
      read back as the same scheme: folding is idempotent. */
  lemma SchemeRoundTrip(s: seq<Byte>, i: nat, t: seq<Byte>)
    requires SchemeSpec(s, i).Ok?
    ensures var v := SchemeSpec(s, i).value;
            SchemeSpec(v + [':'] + t, 0) == Ok(v, |v| + 1)
  {
    SchemeFolded(s, i);
    var v := SchemeSpec(s, i).value;
    var u := v + [':'] + t;
    assert u[|v|] == ':';
    forall j | 0 <= j < |v|
      ensures j < |u| && InClass(u[j], SchemeChar)
    {
      assert u[j] == v[j];
    }
    RunEndIs(u, 0, |v|, SchemeChar);
    assert u[..|v|] == v;
    assert LowerText(v) == v;
  }

  /** The record as written fails exactly when the intended one fails,
      ends at the same place, and differs from it in the path alone. */
  lemma AsWrittenOnlyPath(s: seq<Byte>, i: nat)
    ensures UriAsWritten(s, i).Fail? <==> UriSpec(s, i).Fail?
    ensures UriSpec(s, i).Ok? ==>
              var r, a := UriSpec(s, i), UriAsWritten(s, i);
              var u, v := r.value.data.uri, a.value.data.uri;
              a.next == r.next && a.value.vtype == r.value.vtype && a.value.flags == r.value.flags &&
              v.scheme == u.scheme && v.userinfo == u.userinfo && v.host == u.host &&
              v.query == u.query && v.fragment == u.fragment && v.port == u.port
  {
  }

  /** The two agree unless the path is rootless and a query or a
      fragment follows it; then the path reads the query, or else the
      fragment. */
  lemma AsWrittenAgrees(s: seq<Byte>, i: nat)
    requires UriSpec(s, i).Ok?
    ensures var u := UriSpec(s, i).value.data.uri;
            !RootlessAt(s, i) || (u.query.None? && u.fragment.None?) ==> UriAsWritten(s, i) == UriSpec(s, i)
    ensures var u := UriSpec(s, i).value.data.uri;
            RootlessAt(s, i) && (u.query.Some? || u.fragment.Some?) ==>
              UriAsWritten(s, i).value.data.uri.path == if u.query.Some? then u.query else u.fragment
  {
  }

  /** After a rootless path the intended path is the rootless run. */
  lemma RootlessPath(s: seq<Byte>, i: nat)
    requires UriSpec(s, i).Ok? && RootlessAt(s, i)
    ensures var p := SchemeSpec(s, i).next;
            p <= |s| && UriSpec(s, i).value.data.uri.path == Some(Rootless(s, p).text)
    ensures UriSpec(s, i).value.data.uri.path.value != []
  {
    var p := SchemeSpec(s, i).next;
    SchemeFolded(s, i);
    var e := RunEnd(s, p, PathChar);
    assert e > p;
    assert Rootless(s, p).text[0] == s[p];
  }

  /** `m:a?b`: the intended path is `a`; the path pointer as written
      reads the query `b`. */
  lemma RootlessQueryOverwritesPath()
    ensures var s: seq<Byte> := "m:a?b";
            UriSpec(s, 0).Ok? && UriSpec(s, 0).value.data.uri.path == Some("a") &&
            UriSpec(s, 0).value.data.uri.query == Some("b") &&
            UriAsWritten(s, 0).value.data.uri.path == Some("b")
  {
    var s: seq<Byte> := "m:a?b";
    assert RunEnd(s, 0, SchemeChar) == 1 by {
      RunEndIs(s, 0, 1, SchemeChar);
    }
    assert s[0..1] == "m" && LowerText("m") == "m";
    assert SchemeSpec(s, 0) == Ok("m", 2);
    assert RunEnd(s, 2, PathChar) == 3 by {
      RunEndIs(s, 2, 3, PathChar);
    }
    assert Segments(s, 3) == Span([], 3);
    assert Rootless(s, 2) == Span("a", 3);
    assert HierSpec(s, 2) == Ok(Hier(None, None, Some("a"), 0, 0), 3);
    assert RunEnd(s, 4, TailChar) == 5 by {
      RunEndIs(s, 4, 5, TailChar);
    }
    assert s[4..5] == "b";
    assert OptTail(s, 3, '?') == Some(Span("b", 5));
    assert OptTail(s, 5, '#') == None;
  }

  /** A path as the segment loop writes it: every `/` is followed by a
      path character, so there is no `//` and no trailing `/`, and every
      other byte is a path character. */
  predicate CleanPath(t: seq<Byte>)
  {
    (forall j :: 0 <= j < |t| && t[j] != '/' ==> IsPchar(t[j])) &&
    (forall j :: 0 <= j < |t| && t[j] == '/' ==> j + 1 < |t| && IsPchar(t[j + 1]))
  }

  /** A `/`, a non-empty segment and a clean rest that is empty or starts
      with `/` make a clean path. */
  lemma CleanJoin(seg: seq<Byte>, rest: seq<Byte>)
    requires seg != [] && forall j :: 0 <= j < |seg| ==> IsPchar(seg[j])
    requires CleanPath(rest) && (rest == [] || rest[0] == '/')
    ensures CleanPath(['/'] + seg + rest)
  {
    var t := ['/'] + seg + rest;
    var n := |seg|;
    forall j | 0 <= j < |t|
      ensures t[j] != '/' ==> IsPchar(t[j])
      ensures t[j] == '/' ==> j + 1 < |t| && IsPchar(t[j + 1])
    {
      if j == 0 {
        assert t[1] == seg[0];
      } else if j <= n {
        assert t[j] == seg[j - 1];
        if j < n {
          assert t[j + 1] == seg[j];
        } else if j + 1 < |t| {
          assert t[j + 1] == rest[0];
        }
      } else {
        var k := j - 1 - n;
        assert t[j] == rest[k];
        if j + 1 < |t| {
          assert t[j + 1] == rest[j - n];
        }
      }
    }
  }

  /** The segment loop writes nothing, or a `/` followed by a clean
      path. */
  lemma {:induction false} SegmentsClean(s: seq<Byte>, p: nat)
    requires p <= |s|
    ensures var t := Segments(s, p).text; CleanPath(t) && (t == [] || t[0] == '/')
    decreases |s| - p
  {
    if At(s, p) == '/' {
      var q := RunEnd(s, p, SlashChar);
      if IsPchar(At(s, q)) {
        var e := RunEnd(s, q, PathChar);
        SegmentsClean(s, e);
        var seg := s[q..e];
        assert forall j :: 0 <= j < |seg| ==> IsPchar(seg[j]) by {
          forall j | 0 <= j < |seg| ensures IsPchar(seg[j]) {
            assert seg[j] == s[q + j];
          }
        }
        CleanJoin(seg, Segments(s, e).text);
      }
    }
  }

  /** Runs of slashes collapse: a `/` in front of another changes
      nothing the segment loop reads. */
  lemma {:induction false} SlashesCollapse(s: seq<Byte>, p: nat)
    requires p < |s| && s[p] == '/' && At(s, p + 1) == '/'
    ensures Segments(s, p) == Segments(s, p + 1)
  {
    assert RunEnd(s, p, SlashChar) == RunEnd(s, p + 1, SlashChar);
  }

  /** Slashes followed by no path character are stepped over and add
      nothing: a trailing `/` is dropped. */
  lemma {:induction false} TrailingSlashDropped(s: seq<Byte>, p: nat)
    requires p < |s| && s[p] == '/'
    ensures Segments(s, p).text == [] <==> !IsPchar(At(s, RunEnd(s, p, SlashChar)))
    ensures Segments(s, p).text == [] ==> Segments(s, p).end == RunEnd(s, p, SlashChar)
  {
  }

  /** After `//` and an authority the path is never empty: it is `/`
      when the segment loop wrote nothing, and a clean path starting with
      `/` otherwise. */
  lemma {:induction false} AuthorityPath(s: seq<Byte>, p: nat, user: Option<seq<Byte>>)
    requires p <= |s| && AuthoritySpec(s, p, user).Ok?
    ensures var path := AuthoritySpec(s, p, user).value.path;
            path.Some? && |path.value| >= 1 && path.value[0] == '/' && (path.value == ['/'] || CleanPath(path.value))
    ensures AuthoritySpec(s, p, user).value.host.Some? && AuthoritySpec(s, p, user).value.userinfo == user
    ensures AuthoritySpec(s, p, user).value.path == Some(['/']) <==> Segments(s, HostPortSpec(s, p).next).text == []
  {
    var q := HostPortSpec(s, p).next;
    SegmentsClean(s, q);
  }

  /** `scheme:/` must be followed by a path character: otherwise the
      URI is refused. */
  lemma {:induction false} AbsolutePathNeedsPchar(s: seq<Byte>, i: nat)
    requires SchemeSpec(s, i).Ok?
    requires var p := SchemeSpec(s, i).next; At(s, p) == '/' && At(s, p + 1) != '/'
    ensures UriSpec(s, i).Fail? <==> !IsPchar(At(s, SchemeSpec(s, i).next + 1))
  {
    SchemeFolded(s, i);
  }

  /** A host always carries one of the three host-kind flags. */
  lemma HostKind(s: seq<Byte>, p: nat)
    requires p <= |s| && HostPortSpec(s, p).Ok?
    ensures HostPortSpec(s, p).value.kind in {URI_HOST_IPV4, URI_HOST_IPV6, URI_HOST_NAME}
  {
  }

  /** The hierarchical part leaves what was not given NULL: without `//`
      there is no user information, no host, no port and no flag; with it
      there is a host, a path, and a flag naming the kind of host. */
  lemma {:induction false} HierShape(s: seq<Byte>, p: nat)
    requires p <= |s| && HierSpec(s, p).Ok?
    ensures var h := HierSpec(s, p).value;
            (h.host.Some? <==> At(s, p) == '/' && At(s, p + 1) == '/') &&
            (h.host.None? ==> h.userinfo.None? && h.port == 0 && h.flags == 0) &&
            (h.host.Some? ==> h.path.Some? && h.flags != 0)
  {
    if At(s, p) == '/' && At(s, p + 1) == '/' {
      var q := if HasUserinfo(s, p + 2) then UserinfoSpec(s, p + 2).next else p + 2;
      HostKind(s, q);
    }
  }

  /** The record of a URI: the scheme is always there; user information,
      host, port and flags as the hierarchical part left them; a query
      exactly when a `?` follows the hierarchical part. */
  lemma {:induction false} AbsentComponents(s: seq<Byte>, i: nat)
    requires UriSpec(s, i).Ok?
    ensures var p := SchemeSpec(s, i).next;
            var r := UriSpec(s, i).value; var u := r.data.uri;
            p <= |s| && u.scheme.Some? && r.vtype == TypeUri && r.cidrMask == 0 &&
            (u.host.Some? <==> At(s, p) == '/' && At(s, p + 1) == '/') &&
            (u.host.None? ==> u.userinfo.None? && u.port == 0 && r.flags == 0) &&
            (u.host.Some? ==> u.path.Some? && r.flags != 0)
    ensures var p := SchemeSpec(s, i).next; var q := HierSpec(s, p).next;
            var u := UriSpec(s, i).value.data.uri;
            q <= |s| && (u.query.Some? <==> At(s, q) == '?')
  {
    SchemeFolded(s, i);
    HierShape(s, SchemeSpec(s, i).next);
  }
}
