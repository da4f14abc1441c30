/** The scanning and printing code, moving positions through the text as the source does. */
module UrlReader {
  import opened Wrappers
  import opened UrlChars
  import opened UrlNumbers
  import opened UrlPercent
  import opened UrlPath
  import opened UrlQuery
  import opened UrlText

  method CheckScheme(s: string, b: nat, e: nat) returns (ok: bool)
    requires b <= e <= |s|
    ensures ok == IsScheme(s[b..e])
  {
    if b == e || !IsAlpha(s[b]) {
      return false;
    }
    var p := b + 1;
    while p != e
      invariant b < p <= e
      invariant forall i | b < i < p :: IsAlnum(s[i]) || s[i] == '+' || s[i] == '-' || s[i] == '.'
    {
      var c := s[p];
      if !IsAlnum(c) && c != '+' && c != '-' && c != '.' {
        assert s[b..e][p - b] == c;
        return false;
      }
      p := p + 1;
    }
    return true;
  }

  /** Host and port between b and the end of the authority. */
  method ReadHostPort(s: string, b: nat, end: nat, user: Option<string>) returns (r: Result<Authority, ParseError>)
    requires b <= end <= |s|
    ensures r == ScanHost(user, s[b..end])
  {
    hide IsPort, IsIpv4, IsChars, IndexOfAny;
    ghost var rest := s[b..end];
    if b != end && s[b] == '[' {
      return Failure(IpLiteral);
    }
    var p := FindChar(s, b, end, ':');
    assert rest[..p - b] == s[b..p];
    var host, version := s[b..p], V4;
    var isIpv4 := LooksIpv4(s, b, p);
    if !isIpv4 {
      var ok := CheckChars(s, b, p, REG_NAME);
      if !ok {
        return Failure(BadHost);
      }
      version := Name;
    }
    var port := None;
    if p != end {
      assert rest[p - b + 1..] == s[p + 1..end];
      var ok := CheckPort(s, p + 1, end);
      if !ok {
        return Failure(BadPort);
      }
      port := Some(s[p + 1..end]);
    }
    return Success(Authority(user, host, version, port));
  }

  /** User info, host and port between b and the end of the authority. */
  method ReadAuthority(s: string, b: nat, end: nat) returns (r: Result<Authority, ParseError>)
    requires b <= end <= |s|
    ensures r == ScanAuthority(s[b..end])
  {
    hide ScanHost, IsChars, IndexOfAny;
    ghost var a := s[b..end];
    var p := FindChar(s, b, end, '@');
    assert a[..p - b] == s[b..p];
    if p != end {
      assert a[p - b + 1..] == s[p + 1..end];
      var ok := CheckChars(s, b, p, USER_INFO);
      if !ok {
        return Failure(BadUserInfo);
      }
      r := ReadHostPort(s, p + 1, end, Some(s[b..p]));
    } else {
      r := ReadHostPort(s, b, end, None);
    }
  }

  /** Path, query and fragment from b to the end of the text. */
  method ReadTail(s: string, b: nat) returns (r: Result<TailParts, ParseError>)
    requires b <= |s|
    ensures r == ScanTail(s[b..])
  {
    hide IsChars, IndexOfAny;
    var e := |s|;
    ghost var t := s[b..];
    assert s[b..e] == t;
    var p := FindFirstOf(s, b, e, {'?', '#'});
    assert t[..p - b] == s[b..p];
    var path := s[b..p];
    ghost var q := QueryEnd(t, p - b);
    var ok := CheckChars(s, b, p, RAW_PATH);
    if !ok {
      return Failure(BadPath);
    }
    var query, fragment := None, None;
    if p != e && s[p] == '?' {
      var from := p + 1;
      assert t[from - b..] == s[from..e];
      p := FindChar(s, from, e, '#');
      query := Some(s[from..p]);
      assert t[from - b..p - b] == s[from..p];
    }
    assert p - b == q;
    hide QueryEnd;
    if p != e && s[p] == '#' {
      assert t[p - b + 1..] == s[p + 1..e];
      ok := CheckChars(s, p + 1, e, RAW_QUERY);
      if !ok {
        return Failure(BadFragment);
      }
      fragment := Some(s[p + 1..e]);
    }
    return Success(TailParts(path, query, fragment));
  }

  /** The authority, if two slashes at b announce one, and the rest. */
  method ReadRest(s: string, from: nat, scheme: Option<string>, slashes: bool) returns (r: Result<Parts, ParseError>)
    requires from <= |s| && slashes == DoubleSlash(s[from..])
    ensures r == ScanRest(scheme, s[from..])
  {
    hide ScanAuthority, ScanTail, IndexOfAny;
    var b, e := from, |s|;
    var authority := None;
    if slashes {
      ghost var rest := s[from..];
      b := b + 2;
      assert rest[2..] == s[b..e];
      var end := FindFirstOf(s, b, e, {'/', '?', '#'});
      assert rest[2..][..end - b] == s[b..end] && rest[2..][end - b..] == s[end..];
      var a :- ReadAuthority(s, b, end);
      authority := Some(a);
      b := end;
    }
    var tail :- ReadTail(s, b);
    return Success(Parts(scheme, authority, tail));
  }

  /** Without any delimiter the whole text is the path. */
  lemma PathOnly(s: string)
    requires IndexOfAny(s, {':', '/', '?', '#'}) == |s|
    ensures Scan(s) == if IsChars(s, RAW_PATH) then Success(Parts(None, None, TailParts(s, None, None))) else Failure(BadPath)
  {
    IndexOfAnyIs(s, {'?', '#'}, |s|);
    assert s[..|s|] == s;
  }

  method ScanText(s: string) returns (r: Result<Parts, ParseError>)
    ensures r == Scan(s)
  {
    hide ScanRest, IsScheme, IsChars, IndexOfAny;
    var e := |s|;
    var b := 0;
    assert s[0..e] == s;
    var p := FindFirstOf(s, b, e, {':', '/', '?', '#'});
    if p == e {
      PathOnly(s);
      var ok := CheckChars(s, b, p, RAW_PATH);
      return if ok then Success(Parts(None, None, TailParts(s, None, None))) else Failure(BadPath);
    }
    var scheme := None;
    if s[p] == ':' {
      assert s[0..p] == s[..p];
      var ok := CheckScheme(s, b, p);
      if !ok {
        return Failure(BadScheme);
      }
      scheme := Some(s[b..p]);
      b := p + 1;
      assert s[b..e] == s[b..];
      p := FindFirstOf(s, b, e, {'/', '?', '#'});
    }
    assert s[b..] != "" && s[b..][0] == '/' ==> p == b;
    r := ReadRest(s, b, scheme, p != e && s[p] == '/' && e - b > 1 && s[b] == '/' && s[b + 1] == '/');
  }

  method DecodePart(part: Option<string>) returns (r: Result<string, ParseError>)
    ensures r == DecodeOption(part)
  {
    if part.None? {
      return Success("");
    }
    var text := DecodeText(part.value, 0, |part.value|, false);
    assert part.value[0..|part.value|] == part.value;
    r := if text.Success? then Success(text.value) else Failure(BadCoding);
  }

  /** Parses a text: first all parts are found and checked, then they are decoded in order. */
  method ParseText(s: string) returns (r: Result<UrlFields, ParseError>)
    requires s != ""
    ensures r == Parse(s)
  {
    hide Scan, DecodeOption, Decode, Normalize;
    if |s| > 8000 {
      return Failure(TooLong);
    }
    var parts :- ScanText(s);
    var scheme := "";
    if parts.scheme.Some? {
      scheme := LowerCase(parts.scheme.value);
    }
    var user, host, version, port := "", "", Undefined, "";
    if parts.authority.Some? {
      var a := parts.authority.value;
      user :- DecodePart(a.user);
      host :- DecodePart(Some(a.host));
      version := a.ipVersion;
      if version == Name {
        host := LowerCase(host);
      }
      port := if a.port.Some? then a.port.value else "";
    } else {
      user :- DecodePart(None);
    }
    var text :- DecodePart(Some(parts.tail.path));
    var path := NormalizePath(text);
    var query := [];
    if parts.tail.query.Some? {
      var q := parts.tail.query.value;
      var pairs := ReadQuery(q, 0, |q|);
      assert q[0..|q|] == q;
      if pairs.Failure? {
        return Failure(BadQuery(pairs.error));
      }
      query := pairs.value;
    }
    var fragment :- DecodePart(parts.tail.fragment);
    return Success(UrlFields(scheme, user, host, version, port, path, query, fragment));
  }

  method PrintKeyVal(kv: KeyVal) returns (o: string)
    requires IsAscii(kv.key) && IsAscii(kv.val)
    ensures o == PrintPair(kv)
  {
    hide Encode;
    o := EncodeText(kv.key, KEY_ENCODING);
    if kv.val != "" {
      var val := EncodeText(kv.val, VALUE_ENCODING);
      o := o + "=" + val;
    }
  }

  method PrintPairs(q: seq<KeyVal>) returns (r: Result<string, BuildError>)
    requires AsciiPairs(q) && q != []
    ensures r == if NamedPairs(q) then Success(PrintQuery(q)) else Failure(EmptyKey)
  {
    assert PrintQuery([]) == "" && q[..0] == [];
    hide PrintPair, PrintQuery;
    var o := "";
    var i := 0;
    while i != |q|
      invariant 0 <= i <= |q|
      invariant NamedPairs(q[..i])
      invariant o == PrintQuery(q[..i])
    {
      if q[i].key == "" {
        return Failure(EmptyKey);
      }
      assert q[..i + 1] == q[..i] + [q[i]];
      PrintQueryAppend(q[..i], q[i]);
      if i > 0 {
        o := o + "&";
      }
      var pair := PrintKeyVal(q[i]);
      o := o + pair;
      i := i + 1;
    }
    assert q[..|q|] == q;
    return Success(o);
  }

  lemma {:induction false} PrintQueryAppend(q: seq<KeyVal>, kv: KeyVal)
    requires AsciiPairs(q) && IsAscii(kv.key) && IsAscii(kv.val)
    ensures PrintQuery(q + [kv]) == PrintQuery(q) + (if q == [] then "" else "&") + PrintPair(kv)
  {
    hide PrintPair;
    if |q| == 0 {
      assert q + [kv] == [kv];
    } else if |q| == 1 {
      assert (q + [kv])[1..] == [kv];
    } else {
      PrintQueryAppend(q[1..], kv);
      assert (q + [kv])[1..] == q[1..] + [kv];
    }
  }

  method PrintAuthority(u: UrlFields) returns (o: string)
    requires AsciiUrl(u)
    ensures o == AuthorityText(u)
  {
    hide Encode;
    o := "";
    if u.user != "" {
      var user := EncodeText(u.user, USER_ENCODING);
      o := user + "@";
    }
    ghost var start := o;
    match u.ipVersion {
      case Name => o := o + u.host;
      case V4 => o := o + u.host;
      case V6 => o := o + ("[" + u.host + "]");
      case Undefined => o := o + ("[vffffffff." + u.host + "]");
    }
    if u.port != "" && !((u.scheme == "http" && u.port == "80") || (u.scheme == "https" && u.port == "443")) {
      o := o + (":" + u.port);
    }
    assert o == start + (HostPart(u.host, u.ipVersion) + PortPart(u.scheme, u.port));
  }

  /** Query and fragment with their marks. */
  method PrintRest(u: UrlFields) returns (r: Result<string, BuildError>)
    requires AsciiUrl(u)
    ensures r == if NamedPairs(u.query) then Success(QueryPart(u.query) + FragmentPart(u.fragment)) else Failure(EmptyKey)
  {
    hide PrintQuery, Encode;
    var query, fragment := "", "";
    if u.query != [] {
      var pairs := PrintPairs(u.query);
      if pairs.Failure? {
        return Failure(EmptyKey);
      }
      query := "?" + pairs.value;
    }
    if u.fragment != "" {
      fragment := EncodeText(u.fragment, FRAGMENT_ENCODING);
      fragment := "#" + fragment;
    }
    return Success(query + fragment);
  }

  /** Prints a value part by part, and gives up at the first part that cannot be printed. */
  method PrintUrl(u: UrlFields) returns (r: Result<string, BuildError>)
    requires AsciiUrl(u)
    ensures r == Build(u)
  {
    hide AuthorityText, QueryPart, FragmentPart, Encode;
    var o := "";
    if u.scheme != "" {
      o := u.scheme + ":";
    }
    assert o == SchemePart(u);
    if u.host != "" {
      var a := PrintAuthority(u);
      o := o + ("//" + a);
    } else {
      if u.user != "" {
        return Failure(UserWithoutHost);
      }
      if u.port != "" {
        return Failure(PortWithoutHost);
      }
      if u.path != "" {
        var p := FindFirstOf(u.path, 0, |u.path|, {':', '/'});
        assert u.path[0..|u.path|] == u.path;
        if p != |u.path| && u.path[p] == ':' {
          return Failure(ColonInFirstSegment);
        }
      }
    }
    assert o == SchemePart(u) + AuthorityPart(u);
    var path := EncodeText(u.path, PATH_ENCODING);
    if u.path != "" {
      if u.path[0] != '/' && u.host != "" {
        return Failure(RelativePathWithHost);
      }
    }
    var rest := PrintRest(u);
    if rest.Failure? {
      return Failure(rest.error);
    }
    assert path + rest.value == Tail(u);
    assert o + (path + rest.value) == SchemePart(u) + (AuthorityPart(u) + Tail(u));
    return Success(o + (path + rest.value));
  }
}
