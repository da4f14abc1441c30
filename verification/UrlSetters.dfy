/** What the setters do to the value of a URL, and what every sequence of them keeps. */
module UrlSetters {
  import opened Wrappers
  import opened UrlChars
  import opened UrlNumbers
  import opened UrlIpv6
  import opened UrlPercent
  import opened UrlPath
  import opened UrlQuery
  import opened UrlText
  import opened UrlRoundTrip

  datatype SetterError = InvalidScheme | LongUserInfo | LongHost | InvalidIpv4 | InvalidIpv6
    | Ipv6Literal | InvalidHost | InvalidPort | LongPath | LongFragment

  /** The calls that change a value; Host is called with its default version. */
  datatype Call = Scheme(s: string) | UserInfo(s: string) | Host(s: string) | Port(s: string)
    | Path(s: string) | Query(q: seq<KeyVal>) | AddQuery(kv: KeyVal) | Fragment(s: string)

  /** The normalised host and its version; addresses that need IPv6 normalisation are not modelled. */
  function CheckedHost(h: string): Result<(string, IpVersion), SetterError> {
    if |h| > 253 then Failure(LongHost)
    else if h == "" then Success(("", Undefined))
    else if IsIpv4(h) then (if IsValidIpv4(h) then Success((h, V4)) else Failure(InvalidIpv4))
    else if IsIpv6(h) then Failure(if IsValidIpv6(h) then Ipv6Literal else InvalidIpv6)
    else if IsChars(h, REG_NAME) then Success((ToLower(h), Name))
    else Failure(InvalidHost)
  }

  function Apply(u: UrlFields, c: Call): Result<UrlFields, SetterError> {
    match c
    case Scheme(s) =>
      if !IsScheme(s) then Failure(InvalidScheme)
      else
        var o := ToLower(s);
        Success(if o == u.scheme then u
          else u.(scheme := o, port := if DefaultPort(o, u.port) then "" else u.port))
    case UserInfo(s) => if |s| > 256 then Failure(LongUserInfo) else Success(u.(user := s))
    case Host(h) =>
      var host :- CheckedHost(h);
      Success(u.(host := host.0, ipVersion := host.1))
    case Port(p) =>
      if !IsPort(p) then Failure(InvalidPort)
      else Success(u.(port := if DefaultPort(u.scheme, p) then "" else p))
    case Path(p) => if |p| > 8000 then Failure(LongPath) else Success(u.(path := Normalize(p)))
    case Query(q) => Success(u.(query := q))
    case AddQuery(kv) => Success(u.(query := u.query + [kv]))
    case Fragment(f) => if |f| > 256 then Failure(LongFragment) else Success(u.(fragment := f))
  }

  /** A call that throws leaves the value as it was. */
  function Step(u: UrlFields, c: Call): UrlFields {
    if Apply(u, c).Success? then Apply(u, c).value else u
  }

  function Run(u: UrlFields, calls: seq<Call>): UrlFields
    decreases |calls|
  {
    if calls == [] then u else Run(Step(u, calls[0]), calls[1..])
  }

  // What the calls write.

  /** The calls that succeed; this depends on their arguments alone. */
  predicate Accepted(c: Call) {
    match c
    case Scheme(s) => IsScheme(s)
    case UserInfo(s) => |s| <= 256
    case Host(h) => |h| <= 253 && (h == "" || (if IsIpv4(h) then IsValidIpv4(h) else !IsIpv6(h) && IsChars(h, REG_NAME)))
    case Port(p) => IsPort(p)
    case Path(p) => |p| <= 8000
    case Query(_) => true
    case AddQuery(_) => true
    case Fragment(f) => |f| <= 256
  }

  /** What is wrong with a call that throws. */
  function Complaint(c: Call): SetterError
    requires !Accepted(c)
  {
    match c
    case Scheme(_) => InvalidScheme
    case UserInfo(_) => LongUserInfo
    case Host(h) =>
      if |h| > 253 then LongHost
      else if IsIpv4(h) then InvalidIpv4
      else if !IsIpv6(h) then InvalidHost
      else if IsValidIpv6(h) then Ipv6Literal
      else InvalidIpv6
    case Port(_) => InvalidPort
    case Path(_) => LongPath
    case Fragment(_) => LongFragment
  }

  predicate HttpDefault(scheme: string, port: string) {
    (scheme == "http" && port == "80") || (scheme == "https" && port == "443")
  }

  /** The one or two fields that a successful call sets, and that it leaves all others alone. */
  lemma CallWrites(u: UrlFields, c: Call)
    ensures Apply(u, c).Success? <==> Accepted(c)
    ensures !Accepted(c) ==> Step(u, c) == u && Apply(u, c).error == Complaint(c)
    ensures Accepted(c) ==> var r := Step(u, c);
      match c
      case Scheme(s) => r == u.(scheme := ToLower(s), port := r.port)
        && r.port == if ToLower(s) != u.scheme && HttpDefault(ToLower(s), u.port) then "" else u.port
      case UserInfo(s) => r == u.(user := s)
      case Host(h) => r == u.(host := r.host, ipVersion := r.ipVersion)
        && (if h == "" then r.host == "" && r.ipVersion == Undefined
            else if IsIpv4(h) then r.host == h && r.ipVersion == V4
            else r.host == ToLower(h) && r.ipVersion == Name)
      case Port(p) => r == u.(port := if HttpDefault(u.scheme, p) then "" else p)
      case Path(p) => r == u.(path := Normalize(p))
      case Query(q) => r == u.(query := q)
      case AddQuery(kv) => r == u.(query := u.query + [kv])
      case Fragment(f) => r == u.(fragment := f)
  {
    hide IsScheme, IsIpv4, IsIpv6, IsValidIpv4, IsValidIpv6, IsChars, IsPort, ToLower, Normalize;
  }

  /** A host in four-octet notation is accepted as an IPv4 address. */
  lemma DottedHostIsSet(u: UrlFields, h: string)
    requires DottedDecimal(h)
    ensures Apply(u, Host(h)) == Success(u.(host := h, ipVersion := V4))
  {
    Ipv4Exact(h);
    Ipv4HasShape(h);
    hide DottedDecimal, IsValidIpv4;
  }

  // What a sequence of calls leaves behind, read off the sequence.

  function SchemeOf(calls: seq<Call>): string {
    if calls == [] then ""
    else
      var last := calls[|calls| - 1];
      if last.Scheme? && Accepted(last) then ToLower(last.s) else SchemeOf(calls[..|calls| - 1])
  }

  function UserOf(calls: seq<Call>): string {
    if calls == [] then ""
    else
      var last := calls[|calls| - 1];
      if last.UserInfo? && Accepted(last) then last.s else UserOf(calls[..|calls| - 1])
  }

  function HostOf(calls: seq<Call>): (string, IpVersion) {
    if calls == [] then ("", Undefined)
    else
      var last := calls[|calls| - 1];
      if last.Host? && Accepted(last) then
        if last.s == "" then ("", Undefined)
        else if IsIpv4(last.s) then (last.s, V4)
        else (ToLower(last.s), Name)
      else HostOf(calls[..|calls| - 1])
  }

  /** The last port that was accepted, and how many calls there were up to it. */
  function LastPort(calls: seq<Call>): (r: Option<(string, nat)>)
    ensures r.Some? ==> r.value.1 <= |calls|
  {
    if calls == [] then None
    else
      var last := calls[|calls| - 1];
      if last.Port? && Accepted(last) then Some((last.s, |calls|)) else LastPort(calls[..|calls| - 1])
  }

  /** That port, unless it was the default of the scheme then or at any time since. */
  ghost function PortOf(calls: seq<Call>): string {
    match LastPort(calls)
    case None => ""
    case Some((port, from)) =>
      if exists k | from <= k <= |calls| :: HttpDefault(SchemeOf(calls[..k]), port) then "" else port
  }

  function PathOf(calls: seq<Call>): string {
    if calls == [] then ""
    else
      var last := calls[|calls| - 1];
      if last.Path? && Accepted(last) then Normalize(last.s) else PathOf(calls[..|calls| - 1])
  }

  /** The last query set, and the pairs added since, in their order. */
  function QueryOf(calls: seq<Call>): seq<KeyVal> {
    if calls == [] then []
    else
      var last := calls[|calls| - 1];
      if last.Query? then last.q
      else if last.AddQuery? then QueryOf(calls[..|calls| - 1]) + [last.kv]
      else QueryOf(calls[..|calls| - 1])
  }

  function FragmentOf(calls: seq<Call>): string {
    if calls == [] then ""
    else
      var last := calls[|calls| - 1];
      if last.Fragment? && Accepted(last) then last.s else FragmentOf(calls[..|calls| - 1])
  }

  lemma {:induction false} RunLast(u: UrlFields, calls: seq<Call>, last: Call)
    ensures Run(u, calls + [last]) == Step(Run(u, calls), last)
    decreases |calls|
  {
    hide Step;
    if calls == [] {
      assert [last][1..] == [] && [] + [last] == [last];
    } else {
      assert (calls + [last])[1..] == calls[1..] + [last];
      RunLast(Step(u, calls[0]), calls[1..], last);
    }
  }

  /** Over every sequence of calls on an empty URL: each field is what the last accepted call for it says. */
  lemma {:induction false} RunExact(calls: seq<Call>)
    ensures Run(EMPTY, calls) == UrlFields(SchemeOf(calls), UserOf(calls), HostOf(calls).0, HostOf(calls).1,
      PortOf(calls), PathOf(calls), QueryOf(calls), FragmentOf(calls))
  {
    hide Accepted, Step, PortOf, ToLower, Normalize, IsIpv4;
    if calls == [] {
      NoPort();
    } else {
      var front, last := calls[..|calls| - 1], calls[|calls| - 1];
      assert calls == front + [last];
      RunExact(front);
      RunLast(EMPTY, front, last);
      CallWrites(Run(EMPTY, front), last);
      PortStep(front, last);
    }
  }

  lemma NoPort()
    ensures PortOf([]) == ""
  {
  }

  /** How one more call changes the port that is read off. */
  lemma PortStep(front: seq<Call>, last: Call)
    ensures var calls := front + [last];
      PortOf(calls) == if !Accepted(last) then PortOf(front)
        else if last.Port? then (if HttpDefault(SchemeOf(front), last.s) then "" else last.s)
        else if last.Scheme? && ToLower(last.s) != SchemeOf(front) && HttpDefault(ToLower(last.s), PortOf(front)) then ""
        else PortOf(front)
  {
    hide Accepted, ToLower;
    var calls := front + [last];
    assert calls[..|front|] == front && calls[..|calls|] == calls;
    assert forall k | 0 <= k <= |front| :: calls[..k] == front[..k];
    assert front[..|front|] == front;
    if last.Port? && Accepted(last) {
      assert LastPort(calls) == Some((last.s, |calls|));
      assert SchemeOf(calls) == SchemeOf(front);
    } else {
      assert LastPort(calls) == LastPort(front);
      if LastPort(front).Some? {
        var (port, from) := LastPort(front).value;
        hide SchemeOf, LastPort, HttpDefault;
        SchemeStep(front, last);
        NoDefault();
        if k :| from <= k <= |front| && HttpDefault(SchemeOf(front[..k]), port) {
          assert HttpDefault(SchemeOf(calls[..k]), port);
        } else {
          assert forall k | from <= k <= |calls| && HttpDefault(SchemeOf(calls[..k]), port) :: k == |calls|;
        }
      } else {
        NoDefault();
      }
    }
  }

  lemma SchemeStep(front: seq<Call>, last: Call)
    ensures SchemeOf(front + [last]) == if last.Scheme? && Accepted(last) then ToLower(last.s) else SchemeOf(front)
  {
    assert (front + [last])[..|front|] == front;
  }

  lemma NoDefault()
    ensures forall scheme :: !HttpDefault(scheme, "")
  {
  }

  /** What setters establish and keep, starting from an empty URL. */
  ghost predicate SetterShape(u: UrlFields) {
    && GoodScheme(u.scheme)
    && (u.port == "" || (IsPort(u.port) && !DefaultPort(u.scheme, u.port)))
    && Normalize(u.path) == u.path
    && u.ipVersion == (if u.host == "" then Undefined else if IsIpv4(u.host) then V4 else Name)
    && IsChars(u.host, REG_NAME) && ToLower(u.host) == u.host
  }

  lemma Ipv4IsLower(h: string)
    requires IsIpv4(h)
    ensures ToLower(h) == h && IsChars(h, REG_NAME)
  {
    assert forall i | 0 <= i < |h| :: LowerChar(h[i]) == h[i];
  }

  lemma StepKeepsShape(u: UrlFields, c: Call)
    requires SetterShape(u)
    ensures SetterShape(Step(u, c))
  {
    hide IsPort, IsValidIpv4, IsValidIpv6, Normalize;
    match c
    case Scheme(s) =>
      if IsScheme(s) {
        LowerScheme(s);
      }
    case Host(h) =>
      if IsIpv4(h) {
        Ipv4IsLower(h);
      } else if IsChars(h, REG_NAME) {
        LowerHost(h);
      }
    case Path(p) => NormalizeTwice(p);
    case _ =>
  }

  lemma {:induction false} RunKeepsShape(u: UrlFields, calls: seq<Call>)
    requires SetterShape(u)
    ensures SetterShape(Run(u, calls))
    decreases |calls|
  {
    if calls != [] {
      StepKeepsShape(u, calls[0]);
      RunKeepsShape(Step(u, calls[0]), calls[1..]);
    }
  }

  /**
   * Whatever setters were called on an empty URL, and however often: its text is parsed back to
   * the same value exactly when the user info needs no percent-coding, because a coded user info
   * is printed but not read.
   */
  lemma SetValueIsReadBack(calls: seq<Call>)
    requires var u := Run(EMPTY, calls);
      AsciiUrl(u) && Build(u).Success? && |Build(u).value| <= MAX_LENGTH
    ensures var u := Run(EMPTY, calls);
      Parse(Build(u).value) == Success(u) <==> IsChars(u.user, USER_INFO)
  {
    hide Run, Parse;
    var u := Run(EMPTY, calls);
    RunKeepsShape(EMPTY, calls);
    RoundTripExact(u);
    assert forall i | 0 <= i < |u.query| :: u.query[i].key != "";
  }

  /** Two calls are enough to see it: the user info "@" of host "h". */
  lemma CodedUserIsNotReadBack()
    ensures var u := Run(EMPTY, [Host("h"), UserInfo("@")]);
      AsciiUrl(u) && Build(u).Success? && Parse(Build(u).value) != Success(u)
  {
    var u := EMPTY.(host := "h", ipVersion := Name, user := "@");
    assert ToLower("h") == "h";
    assert IsChars("h", REG_NAME) && !IsIpv4("h") && !IsIpv6("h");
    assert Step(EMPTY, Host("h")) == EMPTY.(host := "h", ipVersion := Name);
    assert Run(EMPTY, [Host("h"), UserInfo("@")]) == u by {
      assert [Host("h"), UserInfo("@")][1..] == [UserInfo("@")];
      assert [UserInfo("@")][1..] == [];
    }
    CodedUserShort(u);
    RoundTripExact(u);
    assert !IsChar("@"[0], USER_INFO);
  }

  lemma CodedUserShort(u: UrlFields)
    requires u == EMPTY.(host := "h", ipVersion := Name, user := "@")
    ensures AsciiUrl(u) && Build(u).Success? && |Build(u).value| <= MAX_LENGTH
  {
    assert Encode("@", USER_ENCODING) == EncodeChar('@', USER_ENCODING) + Encode("@"[1..], USER_ENCODING);
    assert |Encode("@", USER_ENCODING)| == 3;
    assert |UserPart(u.user)| == 4;
    assert |Tail(u)| == 0;
  }
}
