/** What is printed is read back: the round trip and the canonical form of URLs. */
module UrlRoundTrip {
  import opened Wrappers
  import opened UrlChars
  import opened UrlNumbers
  import opened UrlPercent
  import opened UrlPath
  import opened UrlQuery
  import opened UrlText
  import opened UrlGrammar

  ghost predicate GoodHost(u: UrlFields) {
    if u.host == "" then u.ipVersion == Undefined && u.user == "" && u.port == ""
    else
      && IsChars(u.user, USER_INFO)
      && IsChars(u.host, REG_NAME)
      && u.ipVersion == (if IsIpv4(u.host) then V4 else Name)
      && (u.ipVersion == Name ==> ToLower(u.host) == u.host)
      && (u.port == "" || (IsPort(u.port) && !DefaultPort(u.scheme, u.port)))
  }

  ghost predicate GoodScheme(scheme: string) {
    scheme == "" || (IsScheme(scheme) && ToLower(scheme) == scheme)
  }

  /** The values that printing and reading keep. */
  ghost predicate WellFormed(u: UrlFields) {
    && GoodScheme(u.scheme)
    && GoodHost(u)
    && Normalize(u.path) == u.path
    && (if u.host == "" then !ColonFirst(u.path) else Rooted(u.path))
    && NamedPairs(u.query)
  }

  function SomeUnlessEmpty(s: string): Option<string> {
    if s == "" then None else Some(s)
  }

  function AuthorityOf(u: UrlFields): Authority {
    Authority(SomeUnlessEmpty(u.user), u.host, u.ipVersion, SomeUnlessEmpty(u.port))
  }

  function TailOf(u: UrlFields): TailParts
    requires AsciiUrl(u)
  {
    TailParts(Encode(u.path, PATH_ENCODING),
      if u.query == [] then None else Some(PrintQuery(u.query)),
      if u.fragment == "" then None else Some(Encode(u.fragment, FRAGMENT_ENCODING)))
  }

  function PartsOf(u: UrlFields): Parts
    requires AsciiUrl(u)
  {
    Parts(SomeUnlessEmpty(u.scheme), if u.host == "" then None else Some(AuthorityOf(u)), TailOf(u))
  }

  // What can be printed, and as what.

  /** Every ':' of the path has a '/' in front of it. */
  predicate ColonsBehindSlash(path: string) {
    forall i | 0 <= i < |path| && path[i] == ':' :: exists j | 0 <= j < i :: path[j] == '/'
  }

  lemma ColonsExact(path: string)
    ensures ColonFirst(path) <==> !ColonsBehindSlash(path)
  {
    var p := IndexOfAny(path, {':', '/'});
    hide IndexOfAny;
    if p < |path| && path[p] == '/' {
      assert forall i | 0 <= i < |path| && path[i] == ':' :: p < i;
    }
  }

  /** Exactly these values can be printed; printing throws on all others. */
  lemma BuildSucceeds(u: UrlFields)
    requires AsciiUrl(u)
    ensures Build(u).Success? <==>
      && (u.host == "" ==> u.user == "" && u.port == "" && ColonsBehindSlash(u.path))
      && (u.host != "" ==> u.path == "" || u.path[0] == '/')
      && forall i | 0 <= i < |u.query| :: u.query[i].key != ""
  {
    hide Encode, ColonFirst, ColonsBehindSlash;
    ColonsExact(u.path);
  }

  /** Which complaint is made when a value cannot be printed; the first that applies, in this order. */
  lemma BuildFails(u: UrlFields)
    requires AsciiUrl(u) && Build(u).Failure?
    ensures Build(u).error == UserWithoutHost <==> u.host == "" && u.user != ""
    ensures Build(u).error == PortWithoutHost <==> u.host == "" && u.user == "" && u.port != ""
    ensures Build(u).error == ColonInFirstSegment
      <==> u.host == "" && u.user == "" && u.port == "" && !ColonsBehindSlash(u.path)
    ensures Build(u).error == RelativePathWithHost <==> u.host != "" && u.path != "" && u.path[0] != '/'
  {
    hide Encode, ColonFirst, ColonsBehindSlash;
    ColonsExact(u.path);
  }

  /** The pairs of a query as text: keys and values with '=' between them, the pairs with '&' between them. */
  lemma QueryText(kv: KeyVal, rest: seq<KeyVal>)
    requires AsciiPairs([kv] + rest)
    ensures IsAscii(kv.key) && IsAscii(kv.val) && AsciiPairs(rest)
    ensures PrintQuery([kv] + rest)
      == Encode(kv.key, KEY_ENCODING) + (if kv.val == "" then "" else "=" + Encode(kv.val, VALUE_ENCODING))
        + (if rest == [] then "" else "&" + PrintQuery(rest))
  {
    hide Encode;
    var q := [kv] + rest;
    assert q[0] == kv && q[1..] == rest;
    assert forall i | 0 <= i < |rest| :: rest[i] == q[i + 1];
  }

  /** The text of an authority: user info, host, and the port unless it is the default of the scheme. */
  lemma AuthorityPrinted(u: UrlFields)
    requires AsciiUrl(u) && u.host != ""
    ensures var user := if u.user == "" then "" else Encode(u.user, USER_ENCODING) + "@";
      var host := if u.ipVersion == V6 then "[" + u.host + "]" else u.host;
      var isDefault := (u.scheme == "http" && u.port == "80") || (u.scheme == "https" && u.port == "443");
      var port := if u.port == "" || isDefault then "" else ":" + u.port;
      u.ipVersion != Undefined ==> AuthorityPart(u) == "//" + user + host + port
  {
    hide Encode;
    var user := if u.user == "" then "" else Encode(u.user, USER_ENCODING) + "@";
    var port := PortPart(u.scheme, u.port);
    var host := HostPart(u.host, u.ipVersion);
    assert "//" + (user + (host + port)) == "//" + user + host + port;
  }

  /** The text of a printed value, mark by mark. */
  lemma BuildText(u: UrlFields)
    requires AsciiUrl(u) && Build(u).Success?
    ensures var scheme := if u.scheme == "" then "" else u.scheme + ":";
      var authority := if u.host == "" then "" else AuthorityPart(u);
      var query := if u.query == [] then "" else "?" + PrintQuery(u.query);
      var fragment := if u.fragment == "" then "" else "#" + Encode(u.fragment, FRAGMENT_ENCODING);
      Build(u).value == scheme + authority + Encode(u.path, PATH_ENCODING) + query + fragment
  {
    hide Encode, PrintQuery, ColonFirst, AuthorityText;
    FiveInOne(SchemePart(u), AuthorityPart(u), Encode(u.path, PATH_ENCODING), QueryPart(u.query), FragmentPart(u.fragment));
  }

  lemma FiveInOne(a: string, b: string, c: string, d: string, e: string)
    ensures a + (b + (c + (d + e))) == a + b + c + d + e
  {
  }

  /** Every well-formed value can be printed. */
  lemma WellFormedBuilds(u: UrlFields)
    requires AsciiUrl(u) && WellFormed(u)
    ensures Build(u).Success?
  {
    hide Encode, Normalize, IsScheme, IsPort, IsIpv4, ToLower;
  }

  // The printed pieces are free of the delimiters that end them.

  predicate InPath(c: char) {
    IsChar(c, RAW_PATH) && c != '?' && c != '#'
  }

  lemma PathPiece(path: string)
    requires IsAscii(path)
    ensures var t := Encode(path, PATH_ENCODING); IsChars(t, RAW_PATH) && '?' !in t && '#' !in t
    ensures Decode(Encode(path, PATH_ENCODING), false) == Success(path)
  {
    hide Encode, Decode;
    EncodePrints(path, PATH_ENCODING);
    DecodeEncode(path, PATH_ENCODING);
    var t := Encode(path, PATH_ENCODING);
    forall i | 0 <= i < |t| ensures InPath(t[i]) {
      assert Printed(t[i], PATH_ENCODING);
    }
  }

  lemma FragmentPiece(f: string)
    requires IsAscii(f)
    ensures IsChars(Encode(f, FRAGMENT_ENCODING), RAW_QUERY)
    ensures Decode(Encode(f, FRAGMENT_ENCODING), false) == Success(f)
  {
    hide Encode, Decode;
    EncodePrints(f, FRAGMENT_ENCODING);
    DecodeEncode(f, FRAGMENT_ENCODING);
    var t := Encode(f, FRAGMENT_ENCODING);
    forall i | 0 <= i < |t| ensures IsChar(t[i], RAW_QUERY) {
      assert Printed(t[i], FRAGMENT_ENCODING);
    }
  }

  /** A slash is printed for itself, and nothing else starts with one. */
  lemma FirstPrinted(path: string)
    requires IsAscii(path) && path != ""
    ensures Encode(path, PATH_ENCODING) == EncodeChar(path[0], PATH_ENCODING) + Encode(path[1..], PATH_ENCODING)
    ensures Encode(path, PATH_ENCODING) != ""
    ensures Encode(path, PATH_ENCODING)[0] == '/' <==> path[0] == '/'
    ensures path[0] == '/' ==> Encode(path, PATH_ENCODING)[1..] == Encode(path[1..], PATH_ENCODING)
  {
  }

  lemma PathStart(path: string, more: string)
    requires IsAscii(path)
    requires more == "" || more[0] == '?' || more[0] == '#'
    ensures DoubleSlash(Encode(path, PATH_ENCODING) + more) ==> DoubleSlash(path)
  {
    hide EncodeChar;
    if path != "" {
      FirstPrinted(path);
      if |path| > 1 {
        FirstPrinted(path[1..]);
      }
    }
  }

  lemma PrintedChar(c: char)
    requires c as int < 128 && c != ':' && c != '/'
    ensures forall i | 0 <= i < |EncodeChar(c, PATH_ENCODING)| ::
      EncodeChar(c, PATH_ENCODING)[i] !in {':', '/', '?', '#'}
  {
    assert forall n: nat | n < 16 :: IsHexDigit(HexChar(n));
  }

  /** A printed path whose first segment has no ':' meets '/', '?' or '#' first, or nothing. */
  lemma {:induction false} NoSchemeInPath(path: string, more: string)
    requires IsAscii(path) && !ColonFirst(path)
    requires more == "" || more[0] == '?' || more[0] == '#'
    ensures var s := Encode(path, PATH_ENCODING) + more; var p := IndexOfAny(s, {':', '/', '?', '#'});
      p < |s| ==> s[p] != ':'
  {
    hide EncodeChar;
    var s := Encode(path, PATH_ENCODING) + more;
    if path == "" {
      assert s == more;
    } else if path[0] != '/' {
      var head := EncodeChar(path[0], PATH_ENCODING);
      var rest := Encode(path[1..], PATH_ENCODING) + more;
      assert s == head + rest;
      NoSchemeInPath(path[1..], more);
      PrintedChar(path[0]);
      var q := IndexOfAny(rest, {':', '/', '?', '#'});
      IndexOfAnyIs(s, {':', '/', '?', '#'}, |head| + q);
    } else {
      FirstPrinted(path);
    }
  }

  // Scanning the printed text.

  lemma ScanPrintedUser(user: string, rest: string)
    requires IsChars(user, USER_INFO) && IsAscii(user)
    requires '@' !in rest
    ensures ScanUser(UserPart(user) + rest) == Success((SomeUnlessEmpty(user), rest))
  {
    if user == "" {
      assert UserPart(user) + rest == rest;
      IndexOfAnyIs(rest, {'@'}, |rest|);
    } else {
      EncodeIdentity(user, USER_ENCODING);
      assert UserPart(user) + rest == user + ("@" + rest);
      IndexAfter(user, "@" + rest, {'@'});
    }
  }

  lemma ScanPrintedAuthority(u: UrlFields)
    requires AsciiUrl(u) && GoodHost(u) && u.host != ""
    ensures ScanAuthority(AuthorityText(u)) == Success(AuthorityOf(u))
    ensures forall i | 0 <= i < |AuthorityText(u)| :: AuthorityText(u)[i] !in {'/', '?', '#'}
  {
    hide Encode, IsPort, IsIpv4, ScanUser;
    var port := PortPart(u.scheme, u.port);
    var rest := u.host + port;
    AuthorityChars(u);
    assert HostPart(u.host, u.ipVersion) == u.host;
    ScanPrintedUser(u.user, rest);
    IndexAfter(u.host, port, {':'});
    assert port != "" ==> rest[|u.host| + 1..] == u.port;
    assert rest[0] == u.host[0];
  }

  lemma AuthorityChars(u: UrlFields)
    requires AsciiUrl(u) && GoodHost(u) && u.host != ""
    ensures '@' !in u.host + PortPart(u.scheme, u.port)
    ensures forall i | 0 <= i < |AuthorityText(u)| :: AuthorityText(u)[i] !in {'/', '?', '#'}
  {
    hide Encode, IsPort, IsIpv4;
    var port := PortPart(u.scheme, u.port);
    if port != "" {
      PortWrapped(u.port);
      assert forall i | 0 < i < |port| :: port[i] == u.port[i - 1] && IsNum(port[i]);
    }
    assert forall i | 0 <= i < |port| :: port[i] == ':' || IsNum(port[i]);
    EncodeIdentity(u.user, USER_ENCODING);
    var user := UserPart(u.user);
    assert forall i | 0 <= i < |user| :: user[i] == '@' || IsChar(user[i], USER_INFO);
  }

  lemma ScanPrintedTail(u: UrlFields)
    requires AsciiUrl(u)
    ensures ScanTail(Tail(u)) == Success(TailOf(u))
  {
    hide Encode, Decode, PrintQuery, ScanTail;
    PathPiece(u.path);
    FragmentPiece(u.fragment);
    PrintedQueryChars(u.query);
    ScanTailPieces(TailOf(u));
    assert FragmentPart(u.fragment) == Marked('#', TailOf(u).fragment);
    assert QueryPart(u.query) == Marked('?', TailOf(u).query);
  }

  lemma ScanPrintedRest(u: UrlFields, scheme: Option<string>)
    requires AsciiUrl(u) && WellFormed(u)
    ensures ScanRest(scheme, AuthorityPart(u) + Tail(u)) == Success(PartsOf(u).(scheme := scheme))
  {
    hide Encode, ScanTail, ScanAuthority, AuthorityText, AuthorityOf, TailOf, Normalize, Tail;
    var r := AuthorityPart(u) + Tail(u);
    ScanPrintedTail(u);
    if u.host != "" {
      ScanPrintedAuthority(u);
      RootedTail(u);
      assert r[2..] == AuthorityText(u) + Tail(u);
      IndexAfter(AuthorityText(u), Tail(u), {'/', '?', '#'});
    } else {
      assert r == Tail(u);
      PlainTail(u);
    }
  }

  lemma RootedTail(u: UrlFields)
    requires AsciiUrl(u) && Rooted(u.path)
    ensures Tail(u) != "" ==> Tail(u)[0] in {'/', '?', '#'}
  {
    if u.path != "" {
      FirstPrinted(u.path);
    }
  }

  lemma PlainTail(u: UrlFields)
    requires AsciiUrl(u) && Normalize(u.path) == u.path
    ensures !DoubleSlash(Tail(u))
  {
    NormalizeFixes(u.path);
    if DoubleSlash(u.path) {
      NormalizedNoDoubleSlash(u.path);
    }
    PathStart(u.path, QueryPart(u.query) + FragmentPart(u.fragment));
  }

  lemma ScanPrinted(u: UrlFields)
    requires AsciiUrl(u) && WellFormed(u) && Build(u).Success?
    ensures Scan(Build(u).value) == Success(PartsOf(u))
  {
    hide ScanRest, Encode, IndexOfAny, Normalize, IsIpv4, IsPort, ToLower;
    var s := Build(u).value;
    var rest := AuthorityPart(u) + Tail(u);
    if u.scheme != "" {
      assert s == u.scheme + (":" + rest);
      IndexAfter(u.scheme, ":" + rest, {':', '/', '?', '#'});
      assert s[|u.scheme| + 1..] == rest;
      ScanPrintedRest(u, Some(u.scheme));
    } else {
      assert s == rest;
      if u.host == "" {
        assert s == Tail(u);
        NoSchemeInPath(u.path, QueryPart(u.query) + FragmentPart(u.fragment));
      } else {
        assert s[0] == '/';
      }
      ScanPrintedRest(u, None);
    }
  }

  lemma InterpretPrinted(u: UrlFields)
    requires AsciiUrl(u) && WellFormed(u)
    ensures Interpret(PartsOf(u)) == Success(u)
  {
    hide Encode, Decode, Normalize, ScanQuery, PrintQuery, ToLower, IsIpv4, IsPort, IsScheme, IsChars;
    PathPiece(u.path);
    FragmentPiece(u.fragment);
    QueryRoundTrip(u.query);
    if u.host != "" {
      PlainDecoded(u.user, USER_INFO);
      PlainDecoded(u.host, REG_NAME);
    }
  }

  lemma PrintedEmpty(u: UrlFields)
    requires AsciiUrl(u) && WellFormed(u) && Build(u) == Success("")
    ensures u == EMPTY
  {
    hide Encode, Normalize, IsIpv4, IsPort, ToLower, PrintQuery;
    if u.path != "" {
      FirstPrinted(u.path);
    }
  }

  /** The central law: a well-formed value can be printed, and is what its text is parsed to. */
  lemma ParseBuild(u: UrlFields)
    requires AsciiUrl(u) && WellFormed(u)
    ensures Build(u).Success?
    ensures |Build(u).value| <= 8000 ==> Parse(Build(u).value) == Success(u)
  {
    WellFormedBuilds(u);
    hide WellFormed, Build;
    if Build(u).value == "" {
      PrintedEmpty(u);
    } else {
      ScanPrinted(u);
      InterpretPrinted(u);
    }
  }

  // What parsing yields, and what it keeps of the length.

  /** The fields every parsed text has, whatever the text. */
  ghost predicate ParsedShape(u: UrlFields) {
    && GoodScheme(u.scheme)
    && Normalize(u.path) == u.path
    && IsChars(u.user, USER_INFO)
    && IsChars(u.host, REG_NAME)
    && u.ipVersion != V6
    && (u.ipVersion == Undefined ==> u.host == "")
    && (u.host != "" ==> u.ipVersion == (if IsIpv4(u.host) then V4 else Name) && Rooted(u.path))
    && (u.ipVersion == Name ==> ToLower(u.host) == u.host)
    && (u.port == "" || IsPort(u.port))
  }

  lemma LowerScheme(s: string)
    requires IsScheme(s)
    ensures GoodScheme(ToLower(s))
  {
    LowerTwice(s);
  }

  lemma ParsedHost(a: string)
    requires ScanAuthority(a).Success?
    ensures var r := ScanAuthority(a).value;
      && IsChars(r.host, REG_NAME) && Decode(r.host, false) == Success(r.host)
      && r.ipVersion == (if IsIpv4(r.host) then V4 else Name)
      && IsChars(ToLower(r.host), REG_NAME) && IsIpv4(ToLower(r.host)) == IsIpv4(r.host)
  {
    hide Decode, ToLower, IndexOfAny, IsPort;
    var host := ScanAuthority(a).value.host;
    Ipv4IsRegName(host);
    PlainDecoded(host, REG_NAME);
    LowerHost(host);
    hide IsIpv4, IsChars;
  }

  /** Lower-casing a host changes neither its characters' class nor whether it looks like IPv4. */
  lemma LowerHost(h: string)
    ensures IsChars(h, REG_NAME) ==> IsChars(ToLower(h), REG_NAME)
    ensures IsIpv4(ToLower(h)) == IsIpv4(h)
    ensures ToLower(ToLower(h)) == ToLower(h)
  {
    var o := ToLower(h);
    LowerTwice(h);
    if IsChars(h, REG_NAME) {
      forall i | 0 <= i < |o| ensures IsChar(o[i], REG_NAME) {
        assert IsChar(h[i], REG_NAME);
      }
    }
    assert forall i | 0 <= i < |h| :: (o[i] == '.' || IsNum(o[i])) == (h[i] == '.' || IsNum(h[i]));
  }

  lemma ParsedUser(a: string)
    requires ScanAuthority(a).Success?
    ensures var user := ScanAuthority(a).value.user;
      user.Some? ==> IsChars(user.value, USER_INFO) && Decode(user.value, false) == Success(user.value)
  {
    var user := ScanAuthority(a).value.user;
    if user.Some? {
      assert '%' !in user.value;
      DecodeIdentity(user.value);
    }
  }

  lemma RootedText(raw: string)
    requires Rooted(raw) && Decode(raw, false).Success?
    ensures Rooted(Normalize(Decode(raw, false).value))
  {
    var text := Decode(raw, false).value;
    NormalizeShape(text);
    assert raw != "" ==> Root(text) == "/";
  }

  /** The path of a text with an authority is empty or starts with a slash. */
  lemma AuthorityTail(r: string)
    requires DoubleSlash(r) && ScanRest(None, r).Success?
    ensures Rooted(ScanRest(None, r).value.tail.path)
  {
    hide ScanAuthority;
    var end := IndexOfAny(r[2..], {'/', '?', '#'});
    assert r[2..][end..] != "" ==> r[2..][end..][0] == r[2..][end];
  }

  lemma ParsedParts(s: string)
    requires s != "" && Scan(s).Success?
    ensures var p := Scan(s).value;
      && (p.scheme.Some? ==> IsScheme(p.scheme.value))
      && (p.authority.Some? ==> Rooted(p.tail.path) && exists a :: ScanAuthority(a) == Success(p.authority.value))
  {
    hide ScanAuthority, ScanTail, IsScheme;
    var i := IndexOfAny(s, {':', '/', '?', '#'});
    var r := if i < |s| && s[i] == ':' then s[i + 1..] else s;
    if DoubleSlash(r) {
      AuthorityTail(r);
      assert ScanAuthority(r[2..][..IndexOfAny(r[2..], {'/', '?', '#'})]) == Success(Scan(s).value.authority.value);
    }
  }

  lemma EmptyShape()
    ensures ParsedShape(EMPTY)
  {
  }

  lemma ParseShape(s: string)
    requires Parse(s).Success?
    ensures ParsedShape(Parse(s).value)
  {
    hide Scan, ScanAuthority, IsScheme, IsPort, Decode, Normalize, ScanQuery, ToLower, IsIpv4, IsChars;
    EmptyShape();
    if s != "" {
      var p := Scan(s).value;
      ParsedParts(s);
      if p.scheme.Some? {
        LowerScheme(p.scheme.value);
      }
      NormalizeTwice(DecodeOption(Some(p.tail.path)).value);
      if p.authority.Some? {
        var a :| ScanAuthority(a) == Success(p.authority.value);
        ParsedHost(a);
        ParsedUser(a);
        ParsedPort(a);
        LowerTwice(p.authority.value.host);
        RootedText(p.tail.path);
      }
    }
  }

  lemma ParsedPort(a: string)
    requires ScanAuthority(a).Success?
    ensures var port := ScanAuthority(a).value.port; port.Some? ==> IsPort(port.value)
  {
  }

  /** The length of the text an authority was cut from. */
  function RawAuthority(a: Authority): nat {
    (if a.user.Some? then |a.user.value| + 1 else 0) + |a.host| + if a.port.Some? then |a.port.value| + 1 else 0
  }

  function RawTail(t: TailParts): nat {
    |t.path| + (if t.query.Some? then |t.query.value| + 1 else 0)
    + if t.fragment.Some? then |t.fragment.value| + 1 else 0
  }

  /** Every character of the text is in one part, or is the delimiter in front of one. */
  lemma AuthorityKeepsLength(a: string)
    ensures ScanAuthority(a).Success? ==> RawAuthority(ScanAuthority(a).value) == |a|
  {
    hide IsPort, IsIpv4, IsChars;
  }

  lemma TailKeepsLength(t: string)
    ensures ScanTail(t).Success? ==> RawTail(ScanTail(t).value) == |t|
  {
    hide IsChars;
  }

  /** Printing the parts that were read never makes them longer. */
  lemma TailNoLonger(t: string, u: UrlFields)
    requires AsciiUrl(u) && NamedPairs(u.query)
    requires ScanTail(t).Success?
    requires var p := ScanTail(t).value;
      && DecodeOption(Some(p.path)).Success? && u.path == Normalize(DecodeOption(Some(p.path)).value)
      && ReadQueryOption(p.query) == Success(u.query) && DecodeOption(p.fragment) == Success(u.fragment)
    ensures |Tail(u)| <= |t|
  {
    hide Decode, Encode, ScanQuery, PrintQuery, ScanTail;
    var p := ScanTail(t).value;
    TailKeepsLength(t);
    TailPartChars(t);
    PathNoLonger(p.path, u.path);
    if p.fragment.Some? {
      FragmentNoLonger(p.fragment.value, u.fragment);
    }
    if p.query.Some? {
      QueryTextNoLonger(p.query.value);
    }
  }

  lemma TailPartChars(t: string)
    requires ScanTail(t).Success?
    ensures var p := ScanTail(t).value;
      IsChars(p.path, RAW_PATH) && (p.fragment.Some? ==> IsChars(p.fragment.value, RAW_QUERY))
  {
    hide IsChars;
  }

  lemma PathNoLonger(raw: string, path: string)
    requires IsChars(raw, RAW_PATH) && IsAscii(path)
    requires Decode(raw, false).Success? && path == Normalize(Decode(raw, false).value)
    ensures |Encode(path, PATH_ENCODING)| <= |raw|
  {
    forall i | 0 <= i < |raw| ensures Raw(raw[i], PATH_ENCODING) {
      assert IsChar(raw[i], RAW_PATH);
    }
    hide Decode, Encode, Cost, Normalize;
    RecodeNoLonger(raw, PATH_ENCODING);
    NormalizeNoLonger(Decode(raw, false).value);
    EncodeCost(path, PATH_ENCODING);
  }

  lemma FragmentNoLonger(raw: string, text: string)
    requires IsChars(raw, RAW_QUERY) && IsAscii(text)
    requires Decode(raw, false) == Success(text)
    ensures |Encode(text, FRAGMENT_ENCODING)| <= |raw|
  {
    forall i | 0 <= i < |raw| ensures Raw(raw[i], FRAGMENT_ENCODING) {
      assert IsChar(raw[i], RAW_QUERY);
    }
    hide Decode, Encode, Cost;
    RecodeNoLonger(raw, FRAGMENT_ENCODING);
    EncodeCost(text, FRAGMENT_ENCODING);
  }

  lemma QueryTextNoLonger(q: string)
    requires ScanQuery(q).Success? && AsciiPairs(ScanQuery(q).value) && NamedPairs(ScanQuery(q).value)
    ensures |PrintQuery(ScanQuery(q).value)| <= |q|
  {
    hide ScanPairs;
    if q != "" {
      QueryNoLonger(q);
    }
  }

  lemma AuthorityNoLonger(a: string, u: UrlFields)
    requires IsAscii(u.user) && u.host != ""
    requires ScanAuthority(a).Success?
    requires var p := ScanAuthority(a).value;
      && DecodeOption(p.user) == Success(u.user) && ReadHost(p.host, p.ipVersion) == Success(u.host)
      && u.ipVersion == p.ipVersion && u.port == (if p.port.Some? then p.port.value else "")
    ensures |UserPart(u.user) + (HostPart(u.host, u.ipVersion) + PortPart(u.scheme, u.port))| <= |a|
  {
    hide ScanAuthority, Decode, Encode;
    AuthorityKeepsLength(a);
    ParsedHost(a);
    ParsedUser(a);
    if u.user != "" {
      EncodeIdentity(u.user, USER_ENCODING);
    }
  }

  lemma RestNoLonger(scheme: Option<string>, r: string, u: UrlFields)
    requires AsciiUrl(u) && NamedPairs(u.query)
    requires ScanRest(scheme, r).Success? && Interpret(ScanRest(scheme, r).value) == Success(u)
    ensures |AuthorityPart(u) + Tail(u)| <= |r|
  {
    hide ScanAuthority, ScanTail, Tail, DecodeOption, ReadQueryOption, Normalize, ReadHost;
    if DoubleSlash(r) {
      var end := IndexOfAny(r[2..], {'/', '?', '#'});
      if u.host != "" {
        AuthorityNoLonger(r[2..][..end], u) by {
          assert u.host == ReadHost(ScanAuthority(r[2..][..end]).value.host, u.ipVersion).value;
        }
      }
      TailNoLonger(r[2..][end..], u);
    } else {
      TailNoLonger(r, u);
    }
  }

  /** Printing what a text was parsed to never makes it longer. */
  lemma BuildNoLonger(s: string)
    requires Parse(s).Success? && AsciiUrl(Parse(s).value) && Build(Parse(s).value).Success?
    ensures |Build(Parse(s).value).value| <= |s|
  {
    hide ScanRest, Tail, AuthorityPart, Interpret;
    var u := Parse(s).value;
    assert forall i | 0 <= i < |u.query| :: u.query[i].key != "";
    if s != "" {
      var i := IndexOfAny(s, {':', '/', '?', '#'});
      var r := if i < |s| && s[i] == ':' then s[i + 1..] else s;
      var parts := Scan(s).value;
      SchemeOfRest(r);
      RestNoLonger(parts.scheme, r, u);
      SchemeNoLonger(parts, u);
      assert Build(u).value == SchemePart(u) + (AuthorityPart(u) + Tail(u));
    } else {
      EmptyPrinted();
    }
  }

  lemma SchemeNoLonger(p: Parts, u: UrlFields)
    requires Interpret(p) == Success(u)
    ensures |SchemePart(u)| <= if p.scheme.Some? then |p.scheme.value| + 1 else 0
  {
    hide DecodeOption, ReadQueryOption, Normalize, ReadHost;
  }

  lemma EmptyPrinted()
    ensures AsciiUrl(EMPTY) && Build(EMPTY) == Success("")
  {
    assert Tail(EMPTY) == "" && SchemePart(EMPTY) + (AuthorityPart(EMPTY) + "") == "";
  }

  // The canonical form.

  /** Drops what printing drops: the default port, and the version of an empty host. */
  function Canonical(u: UrlFields): UrlFields {
    u.(port := if DefaultPort(u.scheme, u.port) then "" else u.port,
       ipVersion := if u.host == "" then Undefined else u.ipVersion)
  }

  lemma BuildCanonical(u: UrlFields)
    requires AsciiUrl(u) && Build(u).Success?
    ensures AsciiUrl(Canonical(u)) && Build(Canonical(u)) == Build(u)
  {
    var c := Canonical(u);
    assert Tail(c) == Tail(u);
    hide Tail, UserPart, ColonFirst;
  }

  /** What a text is parsed to can be printed and read again, up to the canonical form. */
  lemma CanonicalWellFormed(u: UrlFields)
    requires AsciiUrl(u) && ParsedShape(u) && Build(u).Success?
    ensures WellFormed(Canonical(u))
  {
    assert forall i | 0 <= i < |u.query| :: u.query[i].key != "";
  }

  /**
   * Canonicalisation is a fixpoint: printing a parsed text and parsing again changes at most
   * a default port and the version of an empty host, and printing once more changes nothing.
   */
  lemma BuildParseBuild(s: string)
    requires Parse(s).Success? && AsciiUrl(Parse(s).value) && Build(Parse(s).value).Success?
    ensures var u := Parse(s).value; var b := Build(u).value;
      && Parse(b) == Success(Canonical(u))
      && AsciiUrl(Canonical(u)) && Build(Canonical(u)) == Success(b)
  {
    hide Parse, WellFormed;
    var u := Parse(s).value;
    ParseShape(s);
    BuildNoLonger(s);
    ShortText(s);
    CanonicalWellFormed(u);
    BuildCanonical(u);
    ParseBuild(Canonical(u));
  }

  lemma ShortText(s: string)
    requires Parse(s).Success?
    ensures |s| <= MAX_LENGTH
  {
  }

  /**
   * Exactly which printable values survive the round trip: the well-formed ones. For instance
   * a user info with a character outside its class is printed in a form that is not read back.
   * Nothing is said of IPv6 hosts, whose brackets the model does not read.
   */
  lemma RoundTripExact(u: UrlFields)
    requires u.ipVersion != V6
    requires AsciiUrl(u) && Build(u).Success? && |Build(u).value| <= MAX_LENGTH
    ensures Parse(Build(u).value) == Success(u) <==> WellFormed(u)
  {
    hide Parse, Build;
    if WellFormed(u) {
      ParseBuild(u);
    }
    if Parse(Build(u).value) == Success(u) {
      ParseShape(Build(u).value);
      BuildParseBuild(Build(u).value);
      CanonicalWellFormed(u);
    }
  }
}
