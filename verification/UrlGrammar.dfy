/** The grammar that the scanner decides: which texts it takes apart, into which parts, and what they are read as. */
module UrlGrammar {
  import opened Wrappers
  import opened UrlChars
  import opened UrlNumbers
  import opened UrlPercent
  import opened UrlPath
  import opened UrlQuery
  import opened UrlText

  // Path, query and fragment.

  function Marked(mark: char, piece: Option<string>): string {
    if piece.None? then "" else [mark] + piece.value
  }

  function TailText(t: TailParts): string {
    t.path + (Marked('?', t.query) + Marked('#', t.fragment))
  }

  lemma TailSlices(t: TailParts)
    ensures var s := TailText(t); var p := |t.path|; var q := p + |Marked('?', t.query)|;
      && s[..p] == t.path && s[p..] == Marked('?', t.query) + Marked('#', t.fragment)
      && (p < q <==> t.query.Some?) && (q < |s| <==> t.fragment.Some?)
      && (t.query.Some? ==> s[p] == '?' && s[p + 1..q] == t.query.value)
      && (t.query.Some? ==> s[p + 1..] == t.query.value + Marked('#', t.fragment))
      && (t.fragment.Some? ==> s[q] == '#' && s[q + 1..] == t.fragment.value)
  {
  }

  lemma PathEnd(t: TailParts)
    requires '?' !in t.path && '#' !in t.path
    ensures IndexOfAny(TailText(t), {'?', '#'}) == |t.path|
  {
    hide IndexOfAny;
    IndexAfter(t.path, Marked('?', t.query) + Marked('#', t.fragment), {'?', '#'});
  }

  lemma QueryEndOf(t: TailParts)
    requires t.query.Some? ==> '#' !in t.query.value
    ensures QueryEnd(TailText(t), |t.path|) == |t.path| + |Marked('?', t.query)|
  {
    hide IndexOfAny;
    var s, p := TailText(t), |t.path|;
    if t.query.Some? {
      IndexAfter(t.query.value, Marked('#', t.fragment), {'#'});
      assert s[p + 1..] == t.query.value + Marked('#', t.fragment);
    } else {
      assert p < |s| ==> s[p] == '#';
    }
  }

  /** A path, a query and a fragment, each free of what ends it, are told apart. */
  lemma ScanTailPieces(t: TailParts)
    requires IsChars(t.path, RAW_PATH) && '?' !in t.path && '#' !in t.path
    requires t.query.Some? ==> '#' !in t.query.value
    requires t.fragment.Some? ==> IsChars(t.fragment.value, RAW_QUERY)
    ensures ScanTail(TailText(t)) == Success(t)
  {
    hide IsChars, IndexOfAny;
    var s := TailText(t);
    var p := |t.path|;
    TailSlices(t);
    hide QueryEnd;
    PathEnd(t);
    QueryEndOf(t);
    hide TailText, Marked;
  }

  ghost predicate ValidTail(t: TailParts) {
    && IsChars(t.path, RAW_PATH)
    && (t.query.Some? ==> '#' !in t.query.value)
    && (t.fragment.Some? ==> IsChars(t.fragment.value, RAW_QUERY))
  }

  lemma PathIsFree(path: string)
    requires IsChars(path, RAW_PATH)
    ensures '?' !in path && '#' !in path
  {
  }

  lemma TailExact(s: string, t: TailParts)
    ensures ScanTail(s) == Success(t) <==> ValidTail(t) && s == TailText(t)
  {
    hide IsChars, IndexOfAny, ScanTail, TailText;
    if ValidTail(t) && s == TailText(t) {
      PathIsFree(t.path);
      ScanTailPieces(t);
    }
    if ScanTail(s) == Success(t) {
      TailTaken(s);
    }
  }

  lemma TailTaken(s: string)
    requires ScanTail(s).Success?
    ensures ValidTail(ScanTail(s).value) && s == TailText(ScanTail(s).value)
  {
    hide IsChars, IndexOfAny, QueryEnd;
    var p := IndexOfAny(s, {'?', '#'});
    var q := QueryEnd(s, p);
    QueryFree(s, p);
    Pieces(s, p, q);
  }

  lemma QueryFree(s: string, p: nat)
    requires p <= |s| && (p < |s| ==> s[p] in {'?', '#'})
    ensures var q := QueryEnd(s, p); p < q ==> '#' !in s[p + 1..q]
    ensures var q := QueryEnd(s, p); p == q < |s| ==> s[q] == '#'
  {
    var q := QueryEnd(s, p);
    assert p < q ==> s[p + 1..q] == s[p + 1..][..q - p - 1];
  }

  lemma Pieces(s: string, p: nat, q: nat)
    requires p <= q <= |s| && (p < q ==> s[p] == '?') && (q < |s| ==> s[q] == '#')
    ensures s == s[..p] + ((if p < q then ['?'] + s[p + 1..q] else "") + (if q < |s| then ['#'] + s[q + 1..] else ""))
  {
    assert s == s[..p] + (s[p..q] + s[q..]);
    var a := if p < q then ['?'] + s[p + 1..q] else "";
    var b := if q < |s| then ['#'] + s[q + 1..] else "";
    assert s[p..q] == a;
    assert s[q..] == b;
  }

  // The authority.

  function UserText(user: Option<string>): string {
    if user.None? then "" else user.value + "@"
  }

  function HostText(a: Authority): string {
    a.host + if a.port.None? then "" else ":" + a.port.value
  }

  ghost predicate ValidAuthority(a: Authority) {
    && (a.user.Some? ==> IsChars(a.user.value, USER_INFO))
    && IsChars(a.host, REG_NAME)
    && a.ipVersion == (if IsIpv4(a.host) then V4 else Name)
    && (a.port.Some? ==> IsPort(a.port.value))
  }

  lemma Ipv4IsRegName(host: string)
    ensures IsIpv4(host) ==> IsChars(host, REG_NAME)
  {
  }

  lemma FreeOfMarks(s: string)
    ensures IsChars(s, REG_NAME) ==> '@' !in s && ':' !in s && '/' !in s && '?' !in s && '#' !in s && '[' !in s
    ensures IsChars(s, USER_INFO) ==> '@' !in s && '/' !in s && '?' !in s && '#' !in s
    ensures IsPort(s) ==> '@' !in s && ':' !in s && '/' !in s && '?' !in s && '#' !in s
  {
    if IsPort(s) {
      PortWrapped(s);
    }
  }

  lemma UserExact(a: string, user: Option<string>, rest: string)
    ensures ScanUser(a) == Success((user, rest))
      <==> a == UserText(user) + rest && (if user.Some? then IsChars(user.value, USER_INFO) else '@' !in rest)
  {
    hide IndexOfAny, IsChars;
    if user.Some? && a == UserText(user) + rest && IsChars(user.value, USER_INFO) {
      FreeOfMarks(user.value);
      assert a == user.value + ("@" + rest);
      IndexAfter(user.value, "@" + rest, {'@'});
      assert a[|user.value| + 1..] == rest;
    } else if user.None? && a == UserText(user) + rest && '@' !in rest {
      assert "" + rest == rest && a == rest;
      IndexOfAnyIs(a, {'@'}, |a|);
    }
    if ScanUser(a) == Success((user, rest)) {
      var at := IndexOfAny(a, {'@'});
      assert at < |a| ==> a == a[..at] + "@" + a[at + 1..];
      assert at == |a| ==> "" + a == a && forall k | 0 <= k < |a| :: a[k] !in {'@'};
    }
  }

  lemma HostExact(user: Option<string>, rest: string, a: Authority)
    ensures ScanHost(user, rest) == Success(a)
      <==> a.user == user && rest == HostText(a) && ValidAuthority(a.(user := None))
  {
    hide ScanHost, HostText, ValidAuthority;
    if a.user == user && rest == HostText(a) && ValidAuthority(a.(user := None)) {
      HostIsScanned(user, a);
    }
    if ScanHost(user, rest) == Success(a) {
      HostTaken(user, rest);
    }
  }

  lemma HostIsScanned(user: Option<string>, a: Authority)
    requires a.user == user && ValidAuthority(a.(user := None))
    ensures ScanHost(user, HostText(a)) == Success(a)
  {
    hide IndexOfAny, IsChars, IsIpv4, IsPort;
    var rest := HostText(a);
    FreeOfMarks(a.host);
    var more := if a.port.None? then "" else ":" + a.port.value;
    IndexAfter(a.host, more, {':'});
    assert a.port.Some? ==> rest[|a.host| + 1..] == a.port.value;
    assert rest != "" ==> rest[0] != '[' by {
      assert a.host != "" ==> a.host[0] in a.host;
    }
  }

  lemma HostTaken(user: Option<string>, rest: string)
    requires ScanHost(user, rest).Success?
    ensures var a := ScanHost(user, rest).value;
      a.user == user && rest == HostText(a) && ValidAuthority(a.(user := None))
  {
    hide IndexOfAny, IsChars, IsIpv4, IsPort;
    var colon := IndexOfAny(rest, {':'});
    Ipv4IsRegName(rest[..colon]);
    assert colon < |rest| ==> rest == rest[..colon] + (":" + rest[colon + 1..]);
    assert colon == |rest| ==> rest == rest[..colon] + "";
  }

  function WholeAuthority(a: Authority): string {
    UserText(a.user) + HostText(a)
  }

  lemma AuthorityExact(s: string, a: Authority)
    ensures ScanAuthority(s) == Success(a) <==> ValidAuthority(a) && s == WholeAuthority(a)
  {
    hide ScanUser, ScanHost, IsChars, IsIpv4, IsPort, UserText;
    if ValidAuthority(a) && s == WholeAuthority(a) {
      HostIsFree(a);
      UserExact(s, a.user, HostText(a));
      HostExact(a.user, HostText(a), a);
    }
    if ScanAuthority(s) == Success(a) {
      var (user, rest) := ScanUser(s).value;
      UserExact(s, user, rest);
      HostExact(user, rest, a);
    }
  }

  lemma HostIsFree(a: Authority)
    requires ValidAuthority(a)
    ensures '@' !in HostText(a)
    ensures forall i | 0 <= i < |WholeAuthority(a)| :: WholeAuthority(a)[i] !in {'/', '?', '#'}
  {
    FreeOfMarks(a.host);
    if a.user.Some? {
      FreeOfMarks(a.user.value);
    }
    if a.port.Some? {
      FreeOfMarks(a.port.value);
    }
    hide IsChars, IsIpv4, IsPort;
  }

  // The whole text.

  function RestText(p: Parts): string {
    (if p.authority.None? then "" else "//" + WholeAuthority(p.authority.value)) + TailText(p.tail)
  }

  /** The parts written one behind the other, as section 5.3 of RFC 3986 recomposes them. */
  function Recompose(p: Parts): string {
    (if p.scheme.None? then "" else p.scheme.value + ":") + RestText(p)
  }

  ghost predicate ValidRest(p: Parts) {
    && ValidTail(p.tail)
    && (if p.authority.Some? then ValidAuthority(p.authority.value) && Rooted(p.tail.path) else !DoubleSlash(p.tail.path))
  }

  ghost predicate ValidParts(p: Parts) {
    && ValidRest(p)
    && (if p.scheme.Some? then IsScheme(p.scheme.value) else p.authority.None? ==> !ColonFirst(p.tail.path))
  }

  lemma TailStart(t: TailParts)
    ensures Rooted(t.path) && TailText(t) != "" ==> TailText(t)[0] in {'/', '?', '#'}
    ensures DoubleSlash(TailText(t)) <==> DoubleSlash(t.path)
  {
    var more := Marked('?', t.query) + Marked('#', t.fragment);
    assert more != "" ==> more[0] in {'?', '#'};
  }

  lemma RestExact(r: string, p: Parts)
    ensures ScanRest(p.scheme, r) == Success(p) <==> ValidRest(p) && r == RestText(p)
  {
    hide ScanTail, ScanAuthority, ValidTail, ValidAuthority, TailText, WholeAuthority, IndexOfAny, IsPort;
    if ValidRest(p) && r == RestText(p) {
      RestIsScanned(p);
    }
    if ScanRest(p.scheme, r) == Success(p) {
      if DoubleSlash(r) {
        var end := IndexOfAny(r[2..], {'/', '?', '#'});
        var a, t := r[2..][..end], r[2..][end..];
        AuthorityExact(a, p.authority.value);
        TailExact(t, p.tail);
        assert r == "//" + a + t;
        TailRoots(t, p.tail);
      } else {
        TailExact(r, p.tail);
        TailStart(p.tail);
      }
    }
  }

  lemma RestIsScanned(p: Parts)
    requires ValidRest(p)
    ensures ScanRest(p.scheme, RestText(p)) == Success(p)
  {
    hide ScanTail, ScanAuthority, ValidTail, ValidAuthority, TailText, WholeAuthority, IndexOfAny, IsPort;
    var r, t := RestText(p), TailText(p.tail);
    TailStart(p.tail);
    TailExact(t, p.tail);
    if p.authority.Some? {
      var a := WholeAuthority(p.authority.value);
      AuthorityExact(a, p.authority.value);
      HostIsFree(p.authority.value);
      assert r[2..] == a + t;
      IndexAfter(a, t, {'/', '?', '#'});
    } else {
      assert r == t;
    }
  }

  lemma TailRoots(s: string, t: TailParts)
    requires ValidTail(t) && s == TailText(t) && (s == "" || s[0] in {'/', '?', '#'})
    ensures Rooted(t.path)
  {
    if t.path != "" {
      assert s[0] == t.path[0];
      PathIsFree(t.path);
      assert t.path[0] in t.path;
    }
  }

  /** A scheme is found exactly when the first delimiter is a ':'. */
  lemma NoScheme(p: Parts)
    requires ValidRest(p)
    ensures var s := RestText(p); var i := IndexOfAny(s, {':', '/', '?', '#'});
      (i < |s| && s[i] == ':') <==> p.authority.None? && ColonFirst(p.tail.path)
  {
    var s := RestText(p);
    if p.authority.Some? {
      assert s[0] == '/';
    } else {
      var t := p.tail;
      var more := Marked('?', t.query) + Marked('#', t.fragment);
      assert s == t.path + more;
      PathIsFree(t.path);
      var i := IndexOfAny(t.path, {':', '/'});
      assert forall k | 0 <= k < |t.path| :: t.path[k] in t.path;
      if i < |t.path| {
        IndexOfAnyIs(s, {':', '/', '?', '#'}, i);
      } else {
        IndexOfAnyIs(s, {':', '/', '?', '#'}, |t.path|);
      }
    }
  }

  /** A scheme is a letter and more letters, digits, '+', '-' and '.' (section 3.1 of RFC 3986). */
  lemma SchemeExact(s: string)
    ensures IsScheme(s) <==> s != "" && IsAlpha(s[0]) && forall c | c in s :: IsAlpha(c) || IsNum(c) || c in {'+', '-', '.'}
  {
    assert forall i | 0 <= i < |s| :: s[i] in s;
  }

  lemma SchemeIsFree(s: string)
    requires IsScheme(s)
    ensures forall i | 0 <= i < |s| :: s[i] !in {':', '/', '?', '#'}
  {
  }

  /** The scanner takes exactly the texts composed of valid parts, and takes them apart into these. */
  lemma ScanExact(s: string, p: Parts)
    ensures Scan(s) == Success(p) <==> ValidParts(p) && s == Recompose(p)
  {
    hide ScanRest, RestText, ValidRest, IsScheme, IndexOfAny, ColonFirst;
    var i := IndexOfAny(s, {':', '/', '?', '#'});
    if ValidParts(p) && s == Recompose(p) {
      RestExact(RestText(p), p);
      if p.scheme.Some? {
        SchemeIsFree(p.scheme.value);
        assert s == p.scheme.value + (":" + RestText(p));
        IndexAfter(p.scheme.value, ":" + RestText(p), {':', '/', '?', '#'});
        assert s[|p.scheme.value| + 1..] == RestText(p);
        assert s[..|p.scheme.value|] == p.scheme.value;
        assert ScanRest(Some(p.scheme.value), RestText(p)) == Success(p);
      } else {
        NoScheme(p);
        assert "" + RestText(p) == RestText(p) && s == RestText(p);
        assert ScanRest(None, s) == Success(p);
      }
    }
    if Scan(s) == Success(p) {
      ScanTaken(s, p);
    }
  }

  lemma ScanTaken(s: string, p: Parts)
    requires Scan(s) == Success(p)
    ensures ValidParts(p) && s == Recompose(p)
  {
    hide ScanRest, RestText, ValidRest, IsScheme, IndexOfAny, ColonFirst;
    var i := IndexOfAny(s, {':', '/', '?', '#'});
    var r := if i < |s| && s[i] == ':' then s[i + 1..] else s;
    SchemeOfRest(r);
    if i < |s| && s[i] == ':' {
      assert ScanRest(Some(s[..i]), r) == Success(p);
      RestExact(r, p);
      assert s == s[..i] + ":" + r;
    } else {
      assert ScanRest(None, r) == Success(p);
      RestExact(r, p);
      NoScheme(p);
      assert "" + r == r;
    }
  }

  lemma SchemeOfRest(r: string)
    ensures forall scheme :: ScanRest(scheme, r).Success? ==> ScanRest(scheme, r).value.scheme == scheme
  {
    hide ScanAuthority, ScanTail;
  }

  // What the parts are read as.

  function TextOf(piece: Option<string>): string {
    if piece.None? then "" else piece.value
  }

  /** The parts that can be read: percent triples are complete, and the query is of query characters. */
  ghost predicate ReadableParts(p: Parts) {
    && Triples(p.tail.path)
    && (p.tail.query.Some? ==> IsChars(p.tail.query.value, RAW_QUERY) && Triples(p.tail.query.value))
    && (p.tail.fragment.Some? ==> Triples(p.tail.fragment.value))
  }

  /** The fields of a text with these parts: names in lower case, codes resolved, the path normalised. */
  ghost function FieldsOf(p: Parts): UrlFields
    requires ReadableParts(p)
  {
    DecodeAccepts(p.tail.path, false);
    DecodeAccepts(TextOf(p.tail.fragment), false);
    QueryAccepts(TextOf(p.tail.query));
    var a := p.authority;
    UrlFields(
      ToLower(TextOf(p.scheme)),
      if a.Some? then TextOf(a.value.user) else "",
      if a.None? then "" else if a.value.ipVersion == Name then ToLower(a.value.host) else a.value.host,
      if a.Some? then a.value.ipVersion else Undefined,
      if a.Some? then TextOf(a.value.port) else "",
      Normalize(Decode(p.tail.path, false).value),
      ScanQuery(TextOf(p.tail.query)).value,
      Decode(TextOf(p.tail.fragment), false).value)
  }

  lemma PlainDecoded(s: string, mask: Mask)
    requires IsChars(s, mask) && !mask.percent
    ensures Decode(s, false) == Success(s)
  {
    assert '%' !in s;
    DecodeIdentity(s);
  }

  lemma InterpretExact(p: Parts)
    requires ValidParts(p)
    ensures Interpret(p).Success? <==> ReadableParts(p)
    ensures Interpret(p).Success? ==> Interpret(p).value == FieldsOf(p)
  {
    hide Decode, Normalize, ScanQuery, IsScheme, IsIpv4, IsPort, IsChars, Triples, ColonFirst, IndexOfAny;
    DecodeAccepts(p.tail.path, false);
    DecodeAccepts(TextOf(p.tail.fragment), false);
    QueryAccepts(TextOf(p.tail.query));
    EmptyIsRead();
    if p.authority.Some? {
      PlainDecoded(p.authority.value.host, REG_NAME);
      if p.authority.value.user.Some? {
        PlainDecoded(p.authority.value.user.value, USER_INFO);
      }
    }
  }

  lemma EmptyIsRead()
    ensures ToLower("") == "" && Decode("", false) == Success("") && ScanQuery("") == Success([]) && Normalize("") == ""
    ensures Triples("") && IsChars("", RAW_QUERY)
  {
  }

  /**
   * What the parser does with any text: it accepts exactly the texts of at most 8000 characters
   * that are composed of valid and readable parts, and reads them as the fields of these parts.
   */
  lemma ParseExact(s: string)
    ensures Parse(s).Success? <==> |s| <= 8000 && exists p :: ValidParts(p) && s == Recompose(p) && ReadableParts(p)
    ensures forall p | ValidParts(p) && s == Recompose(p) && ReadableParts(p) && |s| <= 8000 :: Parse(s) == Success(FieldsOf(p))
  {
    hide Scan, Interpret, ValidParts, Recompose, ReadableParts, FieldsOf;
    if s == "" {
      EmptyParts();
    }
    forall p | ValidParts(p) && s == Recompose(p) && ReadableParts(p) && |s| <= 8000 ensures Parse(s) == Success(FieldsOf(p)) {
      ScanExact(s, p);
      InterpretExact(p);
    }
    if s != "" && Parse(s).Success? {
      var p := Scan(s).value;
      ScanExact(s, p);
      InterpretExact(p);
    }
  }

  /** A host in four-octet notation is read as an IPv4 address. */
  lemma DottedHostIsRead(s: string, p: Parts)
    requires ValidParts(p) && s == Recompose(p) && ReadableParts(p) && |s| <= 8000
    requires p.authority.Some? && DottedDecimal(p.authority.value.host)
    ensures Parse(s).Success? && Parse(s).value.ipVersion == V4 && Parse(s).value.host == p.authority.value.host
  {
    hide Parse, ValidTail, Recompose, ReadableParts, DottedDecimal, IsIpv4, IsChars, IsPort;
    ParseExact(s);
    Ipv4HasShape(p.authority.value.host);
  }

  /** The empty text has no parts but an empty path. */
  lemma NoParts(p: Parts)
    ensures Recompose(p) == "" <==> p == Parts(None, None, TailParts("", None, None))
  {
    var t := p.tail;
    assert |TailText(t)| == |t.path| + |Marked('?', t.query)| + |Marked('#', t.fragment)|;
    assert |RestText(p)| >= |TailText(t)| && (p.authority.Some? ==> |RestText(p)| >= 2);
    assert |Recompose(p)| >= |RestText(p)|;
  }

  lemma EmptyParts()
    ensures var p := Parts(None, None, TailParts("", None, None));
      ValidParts(p) && Recompose(p) == "" && ReadableParts(p)
    ensures forall p | ValidParts(p) && Recompose(p) == "" && ReadableParts(p) :: FieldsOf(p) == EMPTY
  {
    var q := Parts(None, None, TailParts("", None, None));
    EmptyIsRead();
    NoParts(q);
    assert ValidParts(q);
    hide Decode, Normalize, ScanQuery, ToLower, Recompose, ValidParts, IsChars, Triples;
    forall p | ValidParts(p) && Recompose(p) == "" && ReadableParts(p) ensures FieldsOf(p) == EMPTY {
      NoParts(p);
    }
  }
}
