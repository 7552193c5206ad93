/** The URIs of the library's own test table, read through the model of
    `gcfg_parse_uri`: each decodes into the record the table expects, as
    intended and as written alike. */
module UriSamples {
  import opened Base
  import opened Values
  import opened DecNum
  import opened Ipv4
  import opened Ipv6
  import opened Uri
  import UriProps

  /** The record of a URI value with the given components. */
  function UriValue(scheme: seq<Byte>, userinfo: Option<seq<Byte>>, host: Option<seq<Byte>>,
                    path: Option<seq<Byte>>, query: Option<seq<Byte>>, fragment: Option<seq<Byte>>,
                    port: nat, flags: nat): Value
  {
    Value(TypeUri, UriData(UriParts(Some(scheme), userinfo, host, path, query, fragment, port)), flags, 0)
  }

  /** `tel:+1-816-555-1212`: a rootless path and nothing else; no host,
      no port, no flags. */
  lemma TelVector(s: seq<Byte>)
    requires s == "tel:+1-816-555-1212"
    ensures UriSpec(s, 0) == Ok(UriValue("tel", None, None, Some("+1-816-555-1212"), None, None, 0, 0), |s|)
    ensures UriAsWritten(s, 0) == UriSpec(s, 0)
  {
    assert s == "tel" + ":" + "+1-816-555-1212";
    SchemeWord(s, "tel", "+1-816-555-1212");
    PathText("+1-816-555-1212");
    RootlessVector(s, "tel", "+1-816-555-1212");
  }

  /** `mailto:John.Doe@example.com`: the `@` of a rootless path is a
      path character, not the end of user information. */
  lemma MailtoVector(s: seq<Byte>)
    requires s == "mailto:" + "John.Doe@" + "example.com"
    ensures UriSpec(s, 0) == Ok(UriValue("mailto", None, None, Some("John.Doe@" + "example.com"), None, None, 0, 0), |s|)
    ensures UriAsWritten(s, 0) == UriSpec(s, 0)
  {
    var a, b := "John.Doe@", "example.com";
    assert s == "mailto:" + (a + b);
    SchemeWord(s, "mailto", a + b);
    PathText(a);
    PathText(b);
    ClassJoin(a, b, PathChar);
    RootlessVector(s, "mailto", a + b);
  }

  /** `news:comp.infosystems.www.servers.unix`: a rootless path of dotted
      words. */
  lemma NewsVector(s: seq<Byte>)
    requires s == "news:" + "comp.infosystems." + "www.servers.unix"
    ensures UriSpec(s, 0) == Ok(UriValue("news", None, None, Some("comp.infosystems." + "www.servers.unix"), None, None, 0, 0), |s|)
    ensures UriAsWritten(s, 0) == UriSpec(s, 0)
  {
    var a, b := "comp.infosystems.", "www.servers.unix";
    assert s == "news:" + (a + b);
    SchemeWord(s, "news", a + b);
    PathText(a);
    PathText(b);
    ClassJoin(a, b, PathChar);
    RootlessVector(s, "news", a + b);
  }

  /** A lower-case scheme word and `:` in front of the rest. */
  lemma SchemeWord(s: seq<Byte>, w: seq<Byte>, rest: seq<Byte>)
    requires w == "mailto" || w == "news" || w == "tel"
    requires s == w + ":" + rest
    ensures SchemeSpec(s, 0) == Ok(w, |w| + 1)
  {
    assert s[0..|w|] == w && s[|w|] == ':' && LowerText(w) == w;
    RunEndIs(s, 0, |w|, SchemeChar);
  }

  /** A scheme followed by path characters alone, the first not a `/`: the
      record holds the scheme and that rootless path, and nothing else. */
  lemma RootlessVector(s: seq<Byte>, w: seq<Byte>, u: seq<Byte>)
    requires SchemeSpec(s, 0) == Ok(w, |w| + 1) && s == w + ":" + u
    requires u != [] && u[0] != '/' && forall j :: 0 <= j < |u| ==> InClass(u[j], PathChar)
    ensures UriSpec(s, 0) == Ok(UriValue(w, None, None, Some(u), None, None, 0, 0), |s|)
    ensures UriAsWritten(s, 0) == UriSpec(s, 0)
  {
    var p := |w| + 1;
    assert s[p..] == u;
    RunIn(s, p, u, PathChar);
    assert Rootless(s, p) == Span(u, |s|);
    UriProps.AsWrittenAgrees(s, 0);
  }

  /** Letters, dots and `@` are path characters. */
  lemma PathText(u: seq<Byte>)
    requires u in {"John.Doe@", "example.com", "comp.infosystems.", "www.servers.unix", "+1-816-555-1212"}
    ensures forall j :: 0 <= j < |u| ==> InClass(u[j], PathChar)
  {
  }

  /** Two texts of one class make a text of that class. */
  lemma ClassJoin(a: seq<Byte>, b: seq<Byte>, k: Class)
    requires forall j :: 0 <= j < |a| ==> InClass(a[j], k)
    requires forall j :: 0 <= j < |b| ==> InClass(b[j], k)
    ensures forall j :: 0 <= j < |a + b| ==> InClass((a + b)[j], k)
  {
    forall j | 0 <= j < |a + b|
      ensures InClass((a + b)[j], k)
    {
      if j >= |a| {
        assert (a + b)[j] == b[j - |a|];
      }
    }
  }

  /** `telnet://192.0.2.16:80/`: a dotted IPv4 host, port 80 and the
      root path, flagged as having a port and an IPv4 host. */
  lemma TelnetVector(s: seq<Byte>)
    requires s == "telnet" + "://" + "192.0.2.16" + ":80/"
    ensures UriSpec(s, 0) == Ok(UriValue("telnet", None, Some("192.0.2.16"), Some("/"), None, None, 80,
                                         URI_HAS_PORT + URI_HOST_IPV4), |s|)
    ensures UriAsWritten(s, 0) == UriSpec(s, 0)
  {
    TelnetLayout(s);
    TelnetScheme(s);
    TelnetNoUser(s);
    TelnetHier(s);
    UriProps.AsWrittenAgrees(s, 0);
  }

  lemma TelnetLayout(s: seq<Byte>)
    requires s == "telnet" + "://" + "192.0.2.16" + ":80/"
    ensures TelnetPieces(s)
  {
    assert s[0..6] == "telnet";
    assert s[9..19] == "192.0.2.16";
  }

  predicate TelnetPieces(s: seq<Byte>)
  {
    |s| == 23 && s[0..6] == "telnet" && s[6] == ':' && s[7] == '/' && s[8] == '/' &&
    s[9..19] == "192.0.2.16" && s[19] == ':' && s[20] == '8' && s[21] == '0' && s[22] == '/'
  }

  lemma TelnetScheme(s: seq<Byte>)
    requires TelnetPieces(s)
    ensures SchemeSpec(s, 0) == Ok("telnet", 7)
  {
    RunIn(s, 0, "telnet", SchemeChar);
    assert LowerText("telnet") == "telnet";
  }

  /** No byte after `//` is an `@`: no user information. */
  lemma TelnetNoUser(s: seq<Byte>)
    requires TelnetPieces(s)
    ensures !HasUserinfo(s, 9)
  {
    var e := RunEnd(s, 9, AnyUriChar);
    forall j | 9 <= j < e
      ensures s[j] != '@'
    {
      if j < 19 {
        assert s[j] == s[9..19][j - 9];
      }
    }
  }

  /** The telnet vector after its scheme: an authority, and the lone `/`
      becomes the path `/`. */
  lemma TelnetHier(s: seq<Byte>)
    requires TelnetPieces(s) && !HasUserinfo(s, 9)
    ensures HierSpec(s, 7) == Ok(Hier(None, Some("192.0.2.16"), Some("/"), 80, URI_HAS_PORT + URI_HOST_IPV4), 23)
  {
    TelnetHost(s);
    TelnetPort(s);
    assert HostPortSpec(s, 9) == Ok(HostPort("192.0.2.16", URI_HOST_IPV4, Some(80)), 22);
    RunEndIs(s, 22, 23, SlashChar);
    assert Segments(s, 22) == Span([], 23);
  }

  /** `:80`, ended by the `/`. */
  lemma TelnetPort(s: seq<Byte>)
    requires TelnetPieces(s)
    ensures PortSpec(s, 19) == Ok(Some(80), 22)
  {
    assert Decimal(80) == "80";
    assert s[20..] == Decimal(80) + "/";
    DecNumAtDecimal(s, 20, 80, "/", 0xFFFF);
  }

  /** The host of the telnet vector is read as a dotted quad. */
  lemma TelnetHost(s: seq<Byte>)
    requires |s| >= 23 && s[9..19] == "192.0.2.16" && s[19] == ':' && s[20..23] == "80/"
    ensures HostSpec(s, 9) == Ok(("192.0.2.16", URI_HOST_IPV4), 19)
  {
    QuadSpelling();
    TelnetQuad(s[9..]);
    Ipv4AddressShift(s, 9, 9);
  }

  lemma QuadSpelling()
    ensures Dotted(192, 0, 2, 16) == "192.0.2.16"
  {
    assert Decimal(192) == "192" && Decimal(0) == "0" && Decimal(2) == "2" && Decimal(16) == "16";
  }

  /** `192.0.2.16` followed by a byte that is not a digit: ten bytes read. */
  lemma TelnetQuad(t: seq<Byte>)
    requires |t| >= 11 && t[..10] == Dotted(192, 0, 2, 16) && |Dotted(192, 0, 2, 16)| == 10 && t[10] == ':'
    ensures Ipv4AddressSpec(t, 0).Ok? && Ipv4AddressSpec(t, 0).next == 10
  {
    assert t == Dotted(192, 0, 2, 16) + t[10..];
    Ipv4AddressOfDotted(192, 0, 2, 16, t[10..]);
  }

  /** The first vector of the table,
      `https://john.doe@www.example.com:123/forum/questions/?tag=networking&order=newest#top`
      (written below in pieces): user information, a registered name,
      port 123, a path whose trailing `/` is dropped, a query and a
      fragment. */
  lemma HttpsVector(s: seq<Byte>)
    requires s == "https" + "://" + "john.doe" + "@" + "www.example.com" + ":" + "123" + "/" + "forum" + "/" +
                  "questions" + "/" + "?" + "tag=networking&order=newest" + "#" + "top"
    ensures UriSpec(s, 0) == Ok(UriValue("https", Some("john.doe"), Some("www.example.com"), Some("/forum/questions"),
                                         Some("tag=networking&order=newest"), Some("top"), 123,
                                         URI_HAS_PORT + URI_HOST_NAME), |s|)
    ensures UriAsWritten(s, 0) == UriSpec(s, 0)
  {
    HttpsLayout(s);
    HttpsScheme(s);
    HttpsUser(s);
    HttpsHostPort(s);
    HttpsPath(s);
    HttpsTails(s);
    assert HierSpec(s, 6) == Ok(Hier(Some("john.doe"), Some("www.example.com"), Some("/forum/questions"), 123,
                                     URI_HAS_PORT + URI_HOST_NAME), 53);
    UriProps.AsWrittenAgrees(s, 0);
  }

  /** Where the pieces of the https vector lie. */
  lemma HttpsLayout(s: seq<Byte>)
    requires s == "https" + "://" + "john.doe" + "@" + "www.example.com" + ":" + "123" + "/" + "forum" + "/" +
                  "questions" + "/" + "?" + "tag=networking&order=newest" + "#" + "top"
    ensures HttpsPieces(s)
  {
    assert s[8..16] == "john.doe";
    assert s[17..32] == "www.example.com";
    assert s[43..52] == "questions";
    assert s[54..81] == "tag=networking&order=newest";
  }

  predicate HttpsPieces(s: seq<Byte>)
  {
    |s| == 85 &&
    s[0..5] == "https" && s[5] == ':' && s[6] == '/' && s[7] == '/' &&
    s[8..16] == "john.doe" && s[16] == '@' &&
    s[17..32] == "www.example.com" && s[32] == ':' && s[33..36] == "123" && s[36] == '/' &&
    s[37..42] == "forum" && s[42] == '/' && s[43..52] == "questions" && s[52] == '/' && s[53] == '?' &&
    s[54..81] == "tag=networking&order=newest" && s[81] == '#' && s[82..85] == "top"
  }

  lemma HttpsScheme(s: seq<Byte>)
    requires HttpsPieces(s)
    ensures SchemeSpec(s, 0) == Ok("https", 6)
  {
    RunIn(s, 0, "https", SchemeChar);
    assert LowerText("https") == "https";
  }

  /** An `@` lies ahead, so `john.doe` is read as user information. */
  lemma HttpsUser(s: seq<Byte>)
    requires |s| > 16 && s[8..16] == "john.doe" && s[16] == '@'
    ensures HasUserinfo(s, 8) && UserinfoSpec(s, 8) == Ok("john.doe", 17)
  {
    RunIn(s, 8, "john.doe", UserChar);
    RunPast(s, 8, "john.doe", AnyUriChar);
    var e := RunEnd(s, 8, AnyUriChar);
    assert e > 16;
    assert s[8..e][8] == '@';
  }

  lemma HttpsHostPort(s: seq<Byte>)
    requires HttpsPieces(s)
    ensures HostPortSpec(s, 17) == Ok(HostPort("www.example.com", URI_HOST_NAME, Some(123)), 36)
  {
    HttpsHost(s);
    HttpsPort(s);
  }

  /** `www.example.com` is not a dotted quad: it is a registered name. */
  lemma HttpsHost(s: seq<Byte>)
    requires |s| > 32 && s[17..32] == "www.example.com" && s[32] == ':'
    ensures HostSpec(s, 17) == Ok(("www.example.com", URI_HOST_NAME), 32)
  {
    OctetStep(s, 17, 0, 0);
    assert s[17] == s[17..32][0];
    assert DecNumSpec(s, 17, 255) == Fail;
    RunIn(s, 17, "www.example.com", RegNameChar);
  }

  /** `:123`, ended by the `/` of the path. */
  lemma HttpsPort(s: seq<Byte>)
    requires |s| > 36 && s[32] == ':' && s[33..36] == "123" && s[36] == '/'
    ensures PortSpec(s, 32) == Ok(Some(123), 36)
  {
    assert Decimal(123) == "123";
    assert s[33..] == s[33..36] + s[36..];
    DecNumAtDecimal(s, 33, 123, s[36..], 0xFFFF);
  }

  /** `/forum/questions/`: two segments, and the trailing `/` is stepped
      over without starting a third. */
  lemma HttpsPath(s: seq<Byte>)
    requires HttpsPieces(s)
    ensures Segments(s, 36) == Span("/forum/questions", 53)
  {
    HttpsLastSegment(s);
    ForumSegment(s);
    ForumSpelling();
  }

  lemma ForumSpelling()
    ensures ['/'] + "forum" + "/questions" == "/forum/questions"
  {
  }

  lemma ForumSegment(s: seq<Byte>)
    requires |s| == 85 && s[36] == '/' && s[37..42] == "forum" && Segments(s, 42) == Span("/questions", 53)
    ensures Segments(s, 36) == Span(['/'] + "forum" + "/questions", 53)
  {
    assert s[37] == s[37..42][0];
    RunEndIs(s, 36, 37, SlashChar);
    RunIn(s, 37, "forum", PathChar);
  }

  lemma HttpsLastSegment(s: seq<Byte>)
    requires |s| == 85 && s[42] == '/' && s[43..52] == "questions" && s[52] == '/' && s[53] == '?'
    ensures Segments(s, 42) == Span("/questions", 53)
  {
    RunEndIs(s, 52, 53, SlashChar);
    assert Segments(s, 52) == Span([], 53);
    assert s[43] == s[43..52][0];
    RunEndIs(s, 42, 43, SlashChar);
    RunIn(s, 43, "questions", PathChar);
  }

  lemma HttpsTails(s: seq<Byte>)
    requires HttpsPieces(s)
    ensures OptTail(s, 53, '?') == Some(Span("tag=networking&order=newest", 81))
    ensures OptTail(s, 81, '#') == Some(Span("top", 85))
  {
    RunIn(s, 54, "tag=networking&order=newest", TailChar);
    RunIn(s, 82, "top", TailChar);
  }

  /** `HTTP://[2001:db8::7]:1337`: the scheme is folded to lower case,
      the bracketed host is an IPv6 literal, and with no path the path is
      `/`. */
  lemma BracketedVector(s: seq<Byte>)
    requires s == "HTTP://[2001:db8::7]:1337"
    ensures UriSpec(s, 0) == Ok(UriValue("http", None, Some("2001:db8::7"), Some("/"), None, None, 1337,
                                         URI_HAS_PORT + URI_HOST_IPV6), |s|)
    ensures UriAsWritten(s, 0) == UriSpec(s, 0)
  {
    BracketedLayout(s);
    BracketedNoUser(s);
    BracketedScheme(s);
    BracketedHier(s);
    UriProps.AsWrittenAgrees(s, 0);
  }

  lemma BracketedLayout(s: seq<Byte>)
    requires s == "HTTP://[2001:db8::7]:1337"
    ensures BracketedPieces(s)
  {
    assert s[8..19] == "2001:db8::7";
  }

  /** No `@` among the URI characters after `//`: no user information. */
  lemma BracketedNoUser(s: seq<Byte>)
    requires BracketedPieces(s)
    ensures !HasUserinfo(s, 7)
  {
    var e := RunEnd(s, 7, AnyUriChar);
    forall j | 7 <= j < e
      ensures s[j] != '@'
    {
      if 8 <= j < 19 {
        assert s[j] == s[8..19][j - 8];
      } else if 21 <= j {
        assert s[j] == s[21..][j - 21];
      }
    }
  }

  predicate BracketedPieces(s: seq<Byte>)
  {
    |s| == 25 && s[0..4] == "HTTP" && s[4] == ':' && s[5] == '/' && s[6] == '/' && s[7] == '[' &&
    s[8..19] == "2001:db8::7" && s[19] == ']' && s[20] == ':' && s[21..] == "1337"
  }

  lemma BracketedScheme(s: seq<Byte>)
    requires BracketedPieces(s)
    ensures SchemeSpec(s, 0) == Ok("http", 5)
  {
    RunIn(s, 0, "HTTP", SchemeChar);
    assert LowerText("HTTP") == "http";
  }

  lemma BracketedHier(s: seq<Byte>)
    requires BracketedPieces(s) && !HasUserinfo(s, 7)
    ensures HierSpec(s, 5) == Ok(Hier(None, Some("2001:db8::7"), Some("/"), 1337, URI_HAS_PORT + URI_HOST_IPV6), 25)
  {
    BracketedHost(s);
    BracketedPort(s);
    assert HostPortSpec(s, 7) == Ok(HostPort("2001:db8::7", URI_HOST_IPV6, Some(1337)), 25);
    assert Segments(s, 25) == Span([], 25);
  }

  lemma BracketedPort(s: seq<Byte>)
    requires BracketedPieces(s)
    ensures PortSpec(s, 20) == Ok(Some(1337), 25)
  {
    assert Decimal(1337) == "1337";
    assert s[21..] == Decimal(1337) + [];
    DecNumAtDecimal(s, 21, 1337, [], 0xFFFF);
  }

  lemma BracketedHost(s: seq<Byte>)
    requires |s| >= 20 && s[7] == '[' && s[8..19] == "2001:db8::7" && s[19] == ']'
    ensures HostSpec(s, 7) == Ok(("2001:db8::7", URI_HOST_IPV6), 20)
  {
    RunIn(s, 8, "2001:db8::7", LiteralChar);
    LiteralSpelling();
    Ipv6LiteralSample();
  }

  /** `ldap://[2001:db8::7]/c=GB?objectClass?one`: an IPv6 host with no
      port, a one-segment path, and a query that holds a `?` of its own. */
  lemma LdapVector(s: seq<Byte>)
    requires s == "ldap" + "://" + "[" + "2001:db8::7" + "]" + "/" + "c=GB" + "?" + "objectClass?one"
    ensures UriSpec(s, 0) == Ok(UriValue("ldap", None, Some("2001:db8::7"), Some("/c=GB"), Some("objectClass?one"),
                                         None, 0, URI_HOST_IPV6), |s|)
    ensures UriAsWritten(s, 0) == UriSpec(s, 0)
  {
    LdapLayout(s);
    LdapScheme(s);
    LdapNoUser(s);
    LdapHier(s);
    LdapTails(s);
    UriProps.AsWrittenAgrees(s, 0);
  }

  lemma LdapLayout(s: seq<Byte>)
    requires s == "ldap" + "://" + "[" + "2001:db8::7" + "]" + "/" + "c=GB" + "?" + "objectClass?one"
    ensures LdapPieces(s)
  {
    assert s[8..19] == "2001:db8::7";
    assert s[26..] == "objectClass?one";
  }

  predicate LdapPieces(s: seq<Byte>)
  {
    |s| == 41 && s[0..4] == "ldap" && s[4] == ':' && s[5] == '/' && s[6] == '/' && s[7] == '[' &&
    s[8..19] == "2001:db8::7" && s[19] == ']' && s[20] == '/' && s[21..25] == "c=GB" && s[25] == '?' &&
    s[26..] == "objectClass?one"
  }

  lemma LdapScheme(s: seq<Byte>)
    requires LdapPieces(s)
    ensures SchemeSpec(s, 0) == Ok("ldap", 5)
  {
    RunIn(s, 0, "ldap", SchemeChar);
    assert LowerText("ldap") == "ldap";
  }

  /** No byte after `//` is an `@`: no user information. */
  lemma LdapNoUser(s: seq<Byte>)
    requires LdapPieces(s)
    ensures !HasUserinfo(s, 7)
  {
    var e := RunEnd(s, 7, AnyUriChar);
    forall j | 7 <= j < e
      ensures s[j] != '@'
    {
      if 8 <= j < 19 {
        assert s[j] == s[8..19][j - 8];
      } else if 21 <= j < 25 {
        assert s[j] == s[21..25][j - 21];
      } else if 26 <= j {
        assert s[j] == s[26..][j - 26];
      }
    }
  }

  lemma LdapHier(s: seq<Byte>)
    requires LdapPieces(s) && !HasUserinfo(s, 7)
    ensures HierSpec(s, 5) == Ok(Hier(None, Some("2001:db8::7"), Some("/c=GB"), 0, URI_HOST_IPV6), 25)
  {
    BracketedHost(s);
    assert PortSpec(s, 20) == Ok(None, 20);
    assert HostPortSpec(s, 7) == Ok(HostPort("2001:db8::7", URI_HOST_IPV6, None), 20);
    LdapPath(s);
  }

  /** `/c=GB`, ended by the `?` of the query. */
  lemma LdapPath(s: seq<Byte>)
    requires LdapPieces(s)
    ensures Segments(s, 20) == Span("/c=GB", 25)
  {
    RunEndIs(s, 20, 21, SlashChar);
    assert s[21] == s[21..25][0];
    RunIn(s, 21, "c=GB", PathChar);
    assert Segments(s, 25) == Span([], 25);
    assert ['/'] + "c=GB" + [] == "/c=GB";
  }

  lemma LdapTails(s: seq<Byte>)
    requires LdapPieces(s)
    ensures OptTail(s, 25, '?') == Some(Span("objectClass?one", 41))
    ensures OptTail(s, 41, '#') == None
  {
    RunIn(s, 26, "objectClass?one", TailChar);
  }

  /** `2001:db8::7`: two groups, `::`, one group. */
  lemma Ipv6LiteralSample()
    ensures var t := Compressed(HexTexts([0x2001, 0xDB8]), HexTexts([7]));
      ParseIpv6Spec(t, 0) == Ok(Value(TypeIpv6, Ipv6Addr([0x2001, 0xDB8, 0, 0, 0, 0, 0, 7]), 0, 128), |t|)
  {
    var t := Compressed(HexTexts([0x2001, 0xDB8]), HexTexts([7]));
    LiteralGroups();
    ParseIpv6OfGroups(t, 0, [0x2001, 0xDB8, 0, 0, 0, 0, 0, 7], |t|);
  }

  /** The group loop reads the eight groups and stops at the end. */
  lemma LiteralGroups()
    ensures var t := Compressed(HexTexts([0x2001, 0xDB8]), HexTexts([7]));
      Ipv6GroupsSpec(t, 0) == Ok([0x2001, 0xDB8, 0, 0, 0, 0, 0, 7], |t|)
  {
    var vs, ws := HexTexts([0x2001, 0xDB8]), HexTexts([7]);
    var t := Compressed(vs, ws);
    HexTextsRead([0x2001, 0xDB8]);
    HexTextsRead([7]);
    assert t + [] == t;
    Ipv6GroupsOfCompressed(vs, ws, []);
    LiteralValues();
  }

  lemma LiteralValues()
    ensures GroupValues(HexTexts([0x2001, 0xDB8])) + Zeros(5) + GroupValues(HexTexts([7]))
         == [0x2001, 0xDB8, 0, 0, 0, 0, 0, 7]
  {
    HexTextsRead([0x2001, 0xDB8]);
    HexTextsRead([7]);
    assert Zeros(5) == [0, 0, 0, 0, 0];
  }

  /** The groups 2001, DB8 and 7 in their shortest spelling. */
  lemma LiteralSpelling()
    ensures Compressed(HexTexts([0x2001, 0xDB8]), HexTexts([7])) == "2001:db8::7"
  {
    GroupSpellings();
    assert Joined(["db8"], true) == ":db8";
    assert Joined(["2001", "db8"], false) == "2001:db8";
    assert Joined(["7"], false) == "7";
  }

  lemma GroupSpellings()
    ensures HexTexts([0x2001, 0xDB8]) == ["2001", "db8"] && HexTexts([7]) == ["7"]
  {
    HexSpelling2001();
    HexSpellingDb8();
    assert HexText(7) == "7";
    assert [0x2001, 0xDB8][1..] == [0xDB8];
  }

  lemma HexSpelling2001()
    ensures HexText(0x2001) == "2001"
  {
    assert HexText(2) == "2";
    assert HexText(0x20) == "20";
    assert HexText(0x200) == "200";
  }

  lemma HexSpellingDb8()
    ensures HexText(0xDB8) == "db8"
  {
    assert HexText(0xD) == "d";
    assert HexText(0xDB) == "db";
  }

  /** A run of class `k` that spells `u` from `a` on and stops there. */
  lemma RunIn(s: seq<Byte>, a: nat, u: seq<Byte>, k: Class)
    requires a + |u| <= |s| && s[a..a + |u|] == u
    requires forall j :: 0 <= j < |u| ==> InClass(u[j], k)
    requires !InClass(At(s, a + |u|), k)
    ensures RunEnd(s, a, k) == a + |u|
  {
    forall j | a <= j < a + |u|
      ensures InClass(s[j], k)
    {
      assert s[j] == u[j - a];
    }
    RunEndIs(s, a, a + |u|, k);
  }

  /** A run of class `k` from `a` goes at least past `u`. */
  lemma RunPast(s: seq<Byte>, a: nat, u: seq<Byte>, k: Class)
    requires a + |u| <= |s| && s[a..a + |u|] == u
    requires forall j :: 0 <= j < |u| ==> InClass(u[j], k)
    ensures a + |u| <= RunEnd(s, a, k) <= |s|
  {
    forall j | a <= j < a + |u|
      ensures InClass(At(s, j), k)
    {
      assert s[j] == u[j - a];
    }
  }
}
