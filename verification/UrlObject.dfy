/** The URL object: a text that is parsed when a field is asked for, and printed when fields changed. */
module UrlObject {
  import opened Wrappers
  import opened UrlChars
  import opened UrlNumbers
  import opened UrlIpv6
  import opened UrlPath
  import opened UrlQuery
  import opened UrlText
  import opened UrlRoundTrip
  import opened UrlReader
  import opened UrlSetters

  datatype UrlError = ParseFailed(parseError: ParseError) | BuildFailed(buildError: BuildError)
    | SetFailed(setterError: SetterError)

  type Outcome = Result<(), UrlError>

  class Url {
    var scheme: string
    var user: string
    var host: string
    var ipVersion: IpVersion
    var port: string
    var path: string
    var query: seq<KeyVal>
    var fragment: string
    var url: string
    var parsed: bool
    var built: bool

    function Fields(): UrlFields
      reads this
    {
      UrlFields(scheme, user, host, ipVersion, port, path, query, fragment)
    }

    /** The value of the object: its fields, or what its text will be parsed to. */
    ghost function Value(): Result<UrlFields, ParseError>
      reads this
    {
      if parsed then Success(Fields()) else Parse(url)
    }

    /** A built object has been parsed and its text is the print of its fields. */
    ghost predicate Valid()
      reads this
    {
      built ==> parsed && AsciiUrl(Fields()) && Build(Fields()) == Success(url)
    }

    constructor ()
      ensures Valid() && Value() == Success(EMPTY)
    {
      scheme, user, host, ipVersion, port, path, query, fragment := "", "", "", Undefined, "", "", [], "";
      url, parsed, built := "", true, true;
      new;
      hide Build, AsciiUrl, Parse;
      assert Fields() == EMPTY;
      EmptyPrinted();
    }

    constructor FromText(text: string)
      ensures Valid() && Value() == Parse(text)
    {
      scheme, user, host, ipVersion, port, path, query, fragment := "", "", "", Undefined, "", "", [], "";
      url, parsed, built := text, false, false;
    }

    /** A copy has the value of the original. */
    constructor Copy(other: Url)
      requires other.Valid()
      ensures Valid() && Value() == other.Value()
    {
      scheme, user, host, ipVersion, port, path, query, fragment := "", "", "", Undefined, "", "", [], "";
      url, parsed, built := "", false, false;
      new;
      Assign(other);
    }

    /** Copies flags and fields, and the text only where it matters. */
    method Assign(other: Url)
      requires other.Valid()
      modifies this
      ensures Valid() && Value() == old(other.Value())
    {
      hide Build, AsciiUrl, Parse;
      parsed := other.parsed;
      built := other.built;
      if parsed {
        scheme := other.scheme;
        user := other.user;
        host := other.host;
        ipVersion := other.ipVersion;
        port := other.port;
        path := other.path;
        query := other.query;
        fragment := other.fragment;
      }
      if !parsed || built {
        url := other.url;
      }
    }

    method SetText(text: string)
      modifies this
      ensures Valid() && Value() == Parse(text)
    {
      url := text;
      built, parsed := false, false;
    }

    method Clear()
      modifies this
      ensures Valid() && Value() == Success(EMPTY) && parsed && built
    {
      url := "";
      scheme, user, host, port, path, query, fragment := "", "", "", "", "", [], "";
      ipVersion := Undefined;
      built := true;
      parsed := true;
      hide Build, AsciiUrl, Parse;
      assert Fields() == EMPTY;
      EmptyPrinted();
    }

    method SetFields(u: UrlFields)
      modifies `scheme, `user, `host, `ipVersion, `port, `path, `query, `fragment
      ensures Fields() == u
    {
      scheme, user, host, ipVersion, port := u.scheme, u.user, u.host, u.ipVersion, u.port;
      path, query, fragment := u.path, u.query, u.fragment;
    }

    /** Parses the text; when that throws, no field and no flag has changed. */
    method ParseUrl() returns (r: Outcome)
      requires Valid()
      modifies this
      ensures Valid()
      ensures r == if Parse(old(url)).Success? then Success(()) else Failure(ParseFailed(Parse(old(url)).error))
      ensures r.Success? ==> parsed && Fields() == Parse(old(url)).value
      ensures r.Failure? ==> Fields() == old(Fields()) && url == old(url) && parsed == old(parsed) && built == old(built)
    {
      assert Parse("") == Success(EMPTY);
      hide Build, AsciiUrl, Parse;
      if url == "" {
        Clear();
        parsed, built := true, true;
        return Success(());
      }
      var fields := ParseText(url);
      if fields.Failure? {
        return Failure(ParseFailed(fields.error));
      }
      SetFields(fields.value);
      parsed := true;
      built := false;
      return Success(());
    }

    /** Every reader calls this first: the value stays, and afterwards the fields hold it. */
    method LazyParse() returns (r: Outcome)
      requires Valid()
      modifies this
      ensures Valid() && Value() == old(Value())
      ensures r == Done(old(Value()))
      ensures r.Success? ==> parsed
      ensures r.Failure? ==> !parsed
    {
      if !parsed {
        r := ParseUrl();
      } else {
        r := Success(());
      }
    }

    /** Prints the fields into the text. The source leaves the object marked as not built. */
    method BuildUrl() returns (r: Outcome)
      requires Valid()
      requires Value().Success? ==> AsciiUrl(Value().value)
      modifies this
      ensures Valid() && Value() == old(Value())
      ensures r == if Text(old(Value())).Success? then Success(()) else Failure(Text(old(Value())).error)
      ensures r.Success? ==> parsed && url == Text(old(Value())).value
    {
      var _ :- LazyParse();
      var text := PrintUrl(Fields());
      if text.Failure? {
        return Failure(BuildFailed(text.error));
      }
      built := false;
      url := text.value;
      return Success(());
    }

    /** The text of the object is always the print of its current value. */
    method Str() returns (r: Result<string, UrlError>)
      requires Valid()
      requires Value().Success? ==> AsciiUrl(Value().value)
      modifies this
      ensures Valid() && Value() == old(Value())
      ensures r == Text(old(Value()))
    {
      if !built {
        var _ :- BuildUrl();
      }
      return Success(url);
    }

    /** The field readers: they differ in the field they return. */
    method Get() returns (r: Result<UrlFields, UrlError>)
      requires Valid()
      modifies this
      ensures Valid() && Value() == old(Value())
      ensures r == if old(Value()).Success? then Success(old(Value()).value) else Failure(ParseFailed(old(Value()).error))
    {
      var _ :- LazyParse();
      return Success(Fields());
    }

    method SetScheme(s: string) returns (r: Outcome)
      requires Valid()
      modifies this
      ensures Valid() && Changed(old(Value()), Value(), Call.Scheme(s), r)
    {
      hide Build, AsciiUrl, Parse;
      var ok := CheckScheme(s, 0, |s|);
      assert s[0..|s|] == s;
      if !ok {
        return Failure(SetFailed(InvalidScheme));
      }
      var _ :- LazyParse();
      var o := LowerCase(s);
      if o != scheme {
        scheme := o;
        built := false;
        if (scheme == "http" && port == "80") || (scheme == "https" && port == "443") {
          port := "";
        }
      }
      return Success(());
    }

    method SetUserInfo(s: string) returns (r: Outcome)
      requires Valid()
      modifies this
      ensures Valid() && Changed(old(Value()), Value(), Call.UserInfo(s), r)
    {
      hide Build, AsciiUrl, Parse;
      if |s| > 256 {
        return Failure(SetFailed(LongUserInfo));
      }
      var _ :- LazyParse();
      if user != s {
        user := s;
        built := false;
      }
      return Success(());
    }

    method SetHost(h: string) returns (r: Outcome)
      requires Valid()
      modifies this
      ensures Valid() && Changed(old(Value()), Value(), Call.Host(h), r)
    {
      hide IsValidIpv4, IsValidIpv6, IsIpv4, IsIpv6;
      if |h| > 253 {
        return Failure(SetFailed(LongHost));
      }
      // The source parses before it checks the address; a failing check then leaves the value as it is.
      var parse := LazyParse();
      if parse.Failure? {
        return parse;
      }
      var o, version := "", Undefined;
      assert h[0..|h|] == h;
      var isIpv4 := LooksIpv4(h, 0, |h|);
      var isIpv6 := LooksIpv6(h, 0, |h|);
      if h == "" {
      } else if isIpv4 {
        var ok := CheckIpv4(h, 0, |h|);
        if !ok {
          return Failure(SetFailed(InvalidIpv4));
        }
        version := V4;
        o := h;
      } else if isIpv6 {
        var ok := CheckIpv6(h);
        return Failure(SetFailed(if ok then Ipv6Literal else InvalidIpv6));
      } else {
        var ok := CheckChars(h, 0, |h|, REG_NAME);
        if !ok {
          return Failure(SetFailed(InvalidHost));
        }
        version := Name;
        o := LowerCase(h);
      }
      // For an empty host the source compares -1 with 255, so it always marks the object as changed.
      if host != o || ipVersion != version || h == "" {
        host := o;
        ipVersion := version;
        built := false;
      }
      return Success(());
    }

    method SetPort(p: string) returns (r: Outcome)
      requires Valid()
      modifies this
      ensures Valid() && Changed(old(Value()), Value(), Call.Port(p), r)
    {
      hide IsPort;
      var ok := CheckPort(p, 0, |p|);
      assert p[0..|p|] == p;
      if !ok {
        return Failure(SetFailed(InvalidPort));
      }
      var _ :- LazyParse();
      var o := p;
      if (scheme == "http" && o == "80") || (scheme == "https" && o == "443") {
        o := "";
      }
      if port != o {
        port := o;
        built := false;
      }
      return Success(());
    }

    method SetPath(p: string) returns (r: Outcome)
      requires Valid()
      modifies this
      ensures Valid() && Changed(old(Value()), Value(), Call.Path(p), r)
    {
      hide Build, AsciiUrl, Parse;
      if |p| > 8000 {
        return Failure(SetFailed(LongPath));
      }
      var _ :- LazyParse();
      var o := NormalizePath(p);
      if path != o {
        path := o;
        built := false;
      }
      return Success(());
    }

    method SetQuery(q: seq<KeyVal>) returns (r: Outcome)
      requires Valid()
      modifies this
      ensures Valid() && Changed(old(Value()), Value(), Call.Query(q), r)
    {
      hide Build, AsciiUrl, Parse;
      var _ :- LazyParse();
      if q != query {
        query := q;
        built := false;
      }
      return Success(());
    }

    method AddQuery(kv: KeyVal) returns (r: Outcome)
      requires Valid()
      modifies this
      ensures Valid() && Changed(old(Value()), Value(), Call.AddQuery(kv), r)
    {
      hide Build, AsciiUrl, Parse;
      var _ :- LazyParse();
      built := false;
      query := query + [kv];
      return Success(());
    }

    method SetFragment(f: string) returns (r: Outcome)
      requires Valid()
      modifies this
      ensures Valid() && Changed(old(Value()), Value(), Call.Fragment(f), r)
    {
      hide Build, AsciiUrl, Parse;
      if |f| > 256 {
        return Failure(SetFailed(LongFragment));
      }
      var _ :- LazyParse();
      if fragment != f {
        fragment := f;
        built := false;
      }
      return Success(());
    }
  }

  ghost function Done<T>(v: Result<T, ParseError>): Outcome {
    if v.Success? then Success(()) else Failure(ParseFailed(v.error))
  }

  /** What the text of a value is, or why it cannot be printed. */
  ghost function Text(v: Result<UrlFields, ParseError>): Result<string, UrlError>
    requires v.Success? ==> AsciiUrl(v.value)
  {
    if v.Failure? then Failure(ParseFailed(v.error))
    else if Build(v.value).Failure? then Failure(BuildFailed(Build(v.value).error))
    else Success(Build(v.value).value)
  }

  /** A setter changes the value as Apply says; when it throws, the value stays. */
  ghost predicate Changed(before: Result<UrlFields, ParseError>, after: Result<UrlFields, ParseError>, c: Call, r: Outcome) {
    if before.Failure? then after == before && r.Failure?
    else if Apply(before.value, c).Failure? then after == before && r == Failure(SetFailed(Apply(before.value, c).error))
    else after == Success(Apply(before.value, c).value) && r == Success(())
  }
}
