/** The parts of a URL, how they are printed, and how a text is taken apart and read. */
module UrlText {
  import opened Wrappers
  import opened UrlChars
  import opened UrlNumbers
  import opened UrlPercent
  import opened UrlPath
  import opened UrlQuery

  /** What the host is; Undefined stands for -1. IPvFuture versions are not part of this model. */
  datatype IpVersion = Undefined | Name | V4 | V6

  datatype UrlFields = UrlFields(
    scheme: string, user: string, host: string, ipVersion: IpVersion, port: string,
    path: string, query: seq<KeyVal>, fragment: string)

  const EMPTY := UrlFields("", "", "", Undefined, "", "", [], "")

  const MAX_LENGTH := 8000

  datatype ParseError = TooLong | BadScheme | BadUserInfo | IpLiteral | BadHost | BadPort
    | BadPath | BadFragment | BadQuery(queryError: QueryError) | BadCoding

  datatype BuildError = UserWithoutHost | PortWithoutHost | ColonInFirstSegment
    | RelativePathWithHost | EmptyKey

  predicate IsScheme(s: string) {
    s != "" && IsAlpha(s[0]) && forall i | 0 < i < |s| :: IsAlnum(s[i]) || s[i] == '+' || s[i] == '-' || s[i] == '.'
  }

  predicate DefaultPort(scheme: string, port: string) {
    (scheme == "http" && port == "80") || (scheme == "https" && port == "443")
  }

  /** The texts that the encoders print are ASCII; on other bytes the source is undefined. */
  ghost predicate AsciiUrl(u: UrlFields) {
    IsAscii(u.user) && IsAscii(u.path) && AsciiPairs(u.query) && IsAscii(u.fragment)
  }

  // Printing.

  function SchemePart(u: UrlFields): string {
    if u.scheme == "" then "" else u.scheme + ":"
  }

  function UserPart(user: string): string
    requires IsAscii(user)
  {
    if user == "" then "" else Encode(user, USER_ENCODING) + "@"
  }

  function HostPart(host: string, ipVersion: IpVersion): string {
    match ipVersion
    case Name => host
    case V4 => host
    case V6 => "[" + host + "]"
    case Undefined => "[vffffffff." + host + "]"
  }

  function PortPart(scheme: string, port: string): string {
    if port == "" || DefaultPort(scheme, port) then "" else ":" + port
  }

  function AuthorityText(u: UrlFields): string
    requires AsciiUrl(u)
  {
    UserPart(u.user) + (HostPart(u.host, u.ipVersion) + PortPart(u.scheme, u.port))
  }

  function AuthorityPart(u: UrlFields): string
    requires AsciiUrl(u)
  {
    if u.host == "" then "" else "//" + AuthorityText(u)
  }

  function QueryPart(q: seq<KeyVal>): string
    requires AsciiPairs(q)
  {
    if q == [] then "" else "?" + PrintQuery(q)
  }

  function FragmentPart(f: string): string
    requires IsAscii(f)
  {
    if f == "" then "" else "#" + Encode(f, FRAGMENT_ENCODING)
  }

  function Tail(u: UrlFields): string
    requires AsciiUrl(u)
  {
    Encode(u.path, PATH_ENCODING) + (QueryPart(u.query) + FragmentPart(u.fragment))
  }

  predicate ColonFirst(path: string) {
    var p := IndexOfAny(path, {':', '/'});
    p < |path| && path[p] == ':'
  }

  predicate Rooted(path: string) {
    path == "" || path[0] == '/'
  }

  function Build(u: UrlFields): Result<string, BuildError>
    requires AsciiUrl(u)
  {
    if u.host == "" && u.user != "" then Failure(UserWithoutHost)
    else if u.host == "" && u.port != "" then Failure(PortWithoutHost)
    else if u.host == "" && ColonFirst(u.path) then Failure(ColonInFirstSegment)
    else if u.host != "" && !Rooted(u.path) then Failure(RelativePathWithHost)
    else if exists i | 0 <= i < |u.query| :: u.query[i].key == "" then Failure(EmptyKey)
    else Success(SchemePart(u) + (AuthorityPart(u) + Tail(u)))
  }

  // Taking a text apart.

  datatype Authority = Authority(user: Option<string>, host: string, ipVersion: IpVersion, port: Option<string>)

  datatype TailParts = TailParts(path: string, query: Option<string>, fragment: Option<string>)

  datatype Parts = Parts(scheme: Option<string>, authority: Option<Authority>, tail: TailParts)

  function ScanUser(a: string): Result<(Option<string>, string), ParseError> {
    var at := IndexOfAny(a, {'@'});
    if at == |a| then Success((None, a))
    else if !IsChars(a[..at], USER_INFO) then Failure(BadUserInfo)
    else Success((Some(a[..at]), a[at + 1..]))
  }

  function ScanHost(user: Option<string>, rest: string): Result<Authority, ParseError> {
    if rest != "" && rest[0] == '[' then Failure(IpLiteral)
    else
      var colon := IndexOfAny(rest, {':'});
      var host := rest[..colon];
      if !IsIpv4(host) && !IsChars(host, REG_NAME) then Failure(BadHost)
      else if colon < |rest| && !IsPort(rest[colon + 1..]) then Failure(BadPort)
      else Success(Authority(user, host, if IsIpv4(host) then V4 else Name,
        if colon < |rest| then Some(rest[colon + 1..]) else None))
  }

  function ScanAuthority(a: string): Result<Authority, ParseError> {
    var (user, rest) :- ScanUser(a);
    ScanHost(user, rest)
  }

  /** Where the fragment mark is looked for: behind the query if one starts at p, otherwise at p. */
  function QueryEnd(t: string, p: nat): (q: nat)
    requires p <= |t|
    ensures p <= q <= |t|
    ensures p < q <==> p < |t| && t[p] == '?'
    ensures p < q < |t| ==> t[q] == '#'
  {
    if p < |t| && t[p] == '?' then p + 1 + IndexOfAny(t[p + 1..], {'#'}) else p
  }

  function ScanTail(t: string): Result<TailParts, ParseError> {
    var p := IndexOfAny(t, {'?', '#'});
    var q := QueryEnd(t, p);
    if !IsChars(t[..p], RAW_PATH) then Failure(BadPath)
    else if q < |t| && !IsChars(t[q + 1..], RAW_QUERY) then Failure(BadFragment)
    else Success(TailParts(t[..p],
      if p < q then Some(t[p + 1..q]) else None,
      if q < |t| then Some(t[q + 1..]) else None))
  }

  predicate DoubleSlash(s: string) {
    |s| > 1 && s[0] == '/' && s[1] == '/'
  }

  function ScanRest(scheme: Option<string>, r: string): Result<Parts, ParseError> {
    if DoubleSlash(r) then
      var end := IndexOfAny(r[2..], {'/', '?', '#'});
      var authority :- ScanAuthority(r[2..][..end]);
      var tail :- ScanTail(r[2..][end..]);
      Success(Parts(scheme, Some(authority), tail))
    else
      var tail :- ScanTail(r);
      Success(Parts(scheme, None, tail))
  }

  function Scan(s: string): Result<Parts, ParseError> {
    var p := IndexOfAny(s, {':', '/', '?', '#'});
    if p < |s| && s[p] == ':' then
      if IsScheme(s[..p]) then ScanRest(Some(s[..p]), s[p + 1..]) else Failure(BadScheme)
    else ScanRest(None, s)
  }

  // Reading the parts.

  function DecodeOption(s: Option<string>): Result<string, ParseError> {
    if s.None? then Success("")
    else if Decode(s.value, false).Failure? then Failure(BadCoding)
    else Success(Decode(s.value, false).value)
  }

  function ReadHost(host: string, ipVersion: IpVersion): Result<string, ParseError> {
    var text :- DecodeOption(Some(host));
    Success(if ipVersion == Name then ToLower(text) else text)
  }

  function ReadQueryOption(q: Option<string>): Result<seq<KeyVal>, ParseError> {
    if q.None? then Success([])
    else if ScanQuery(q.value).Failure? then Failure(BadQuery(ScanQuery(q.value).error))
    else Success(ScanQuery(q.value).value)
  }

  function Interpret(p: Parts): Result<UrlFields, ParseError> {
    var scheme := if p.scheme.Some? then ToLower(p.scheme.value) else "";
    var user :- DecodeOption(if p.authority.Some? then p.authority.value.user else None);
    var host :- if p.authority.Some? then ReadHost(p.authority.value.host, p.authority.value.ipVersion) else Success("");
    var path :- DecodeOption(Some(p.tail.path));
    var query :- ReadQueryOption(p.tail.query);
    var fragment :- DecodeOption(p.tail.fragment);
    Success(UrlFields(scheme, user, host,
      if p.authority.Some? then p.authority.value.ipVersion else Undefined,
      if p.authority.Some? && p.authority.value.port.Some? then p.authority.value.port.value else "",
      Normalize(path), query, fragment))
  }

  /** The value of a URL text. */
  function Parse(s: string): Result<UrlFields, ParseError> {
    if s == "" then Success(EMPTY)
    else if |s| > MAX_LENGTH then Failure(TooLong)
    else
      var parts :- Scan(s);
      Interpret(parts)
  }
}
