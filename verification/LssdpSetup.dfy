/** Services and finders are set up from URLs; what the URL parser guarantees makes their messages readable. */
module LssdpSetup {
  import opened Wrappers
  import opened LssdpPackets
  import opened LssdpMessages
  import opened LssdpDiscovery
  import opened UrlChars
  import opened UrlNumbers
  import Url = UrlText
  import opened UrlRoundTrip

  const MAX_INT := 0x7fff_ffff

  datatype SetupError = BadLocation(error: Url.ParseError) | BadDiscoverUrl(error: Url.ParseError)
    | NoPort | PortOutOfRange | NotIpv4

  lemma ParsedPortDigits(s: string)
    requires Url.Parse(s).Success?
    ensures Digits(Url.Parse(s).value.port)
  {
    hide Url.Parse, IsPort;
    ParseShape(s);
    PortWrapped(Url.Parse(s).value.port);
  }

  /** Host and port of the multicast address; the port is converted before the host is checked. */
  function MulticastAddress(discoverUrl: string): Result<(string, string), SetupError> {
    match Url.Parse(discoverUrl)
    case Failure(e) => Failure(BadDiscoverUrl(e))
    case Success(u) =>
      ParsedPortDigits(discoverUrl);
      if u.port == "" then Failure(NoPort)
      else if Value(u.port) > MAX_INT then Failure(PortOutOfRange)
      else if u.ipVersion != Url.V4 then Failure(NotIpv4)
      else Success((u.host, u.port))
  }

  function Decimal(n: int): string {
    if n < 0 then "-" + Print(-n) else Print(n)
  }

  /** The texts of a service that are used as they are given. */
  datatype Profile = Profile(product: string, usn: string, target: string, smId: string, deviceType: string)

  function SetUpService(discoverUrl: string, maxAge: int, locationUrl: string, p: Profile): Result<Service, SetupError> {
    match Url.Parse(locationUrl)
    case Failure(e) => Failure(BadLocation(e))
    case Success(location) =>
      var (host, port) :- MulticastAddress(discoverUrl);
      Success(Service(host, port, Decimal(maxAge), location.scheme, location.port, p.product,
        p.usn, p.target, p.smId, p.deviceType))
  }

  function SetUpFinder(discoverUrl: string, product: string, target: string, filter: string): Result<Finder, SetupError> {
    var (host, port) :- MulticastAddress(discoverUrl);
    Success(Finder(host, port, product, target, filter))
  }

  ghost predicate GoodProfile(p: Profile) {
    && Printable(p.product) && Printable(p.usn) && Printable(p.target) && Printable(p.smId) && Printable(p.deviceType)
    && Clean(p.usn) && Clean(p.target) && Clean(p.smId) && Clean(p.deviceType)
  }

  // What URLs can contain.

  lemma DigitsPrintable(d: string)
    requires Digits(d)
    ensures Printable(d)
  {
  }

  lemma PartsPrintable(s: string)
    requires Url.Parse(s).Success?
    ensures var u := Url.Parse(s).value; Printable(u.scheme) && Printable(u.host) && Printable(u.port)
    ensures var u := Url.Parse(s).value;
      (u.scheme != "" ==> Visible(u.scheme[0])) && (u.port != "" ==> Visible(u.port[|u.port| - 1]))
  {
    hide Url.Parse;
    var u := Url.Parse(s).value;
    ParseShape(s);
    ParsedPortDigits(s);
    DigitsPrintable(u.port);
    SchemePrintable(u.scheme);
    HostPrintable(u.host);
    hide Printable, ParsedShape;
  }

  lemma SchemePrintable(scheme: string)
    requires GoodScheme(scheme)
    ensures Printable(scheme) && (scheme != "" ==> Visible(scheme[0]))
  {
    hide ToLower;
    if scheme != "" {
      assert IsAlpha(scheme[0]);
    }
  }

  lemma HostPrintable(host: string)
    requires IsChars(host, REG_NAME)
    ensures Printable(host)
  {
  }

  lemma AddressPrintable(address: string)
    requires IsIpv4(address)
    ensures Printable(address)
  {
  }

  lemma DecimalPrintable(n: int)
    ensures Printable(Decimal(n))
  {
    hide Print, Value;
    DigitsPrintable(if n < 0 then Print(-n) else Print(n));
  }

  /** Every service that can be set up from URLs and a printable profile prints messages that are read back. */
  lemma SetUpIsGood(discoverUrl: string, maxAge: int, locationUrl: string, p: Profile, address: string)
    requires SetUpService(discoverUrl, maxAge, locationUrl, p).Success?
    requires GoodProfile(p) && IsIpv4(address)
    ensures var s := SetUpService(discoverUrl, maxAge, locationUrl, p).value;
      GoodService(s) && GoodAddress(s, address)
  {
    hide Url.Parse, Decimal, Value, Printable, Clean;
    PartsPrintable(discoverUrl);
    PartsPrintable(locationUrl);
    DecimalPrintable(maxAge);
    AddressPrintable(address);
    LocationClean(SetUpService(discoverUrl, maxAge, locationUrl, p).value, address);
  }

  lemma LocationClean(s: Service, address: string)
    requires Printable(s.scheme) && Printable(s.locationPort) && Printable(address)
    requires s.scheme != "" ==> Visible(s.scheme[0])
    requires s.locationPort != "" ==> Visible(s.locationPort[|s.locationPort| - 1])
    ensures Clean(LocationText(s, address))
  {
    var t := LocationText(s, address);
    assert t[0] == if s.scheme == "" then ':' else s.scheme[0];
    assert t[|t| - 1] == if s.locationPort == "" then ':' else s.locationPort[|s.locationPort| - 1];
  }

  lemma FinderSetUpIsGood(discoverUrl: string, product: string, target: string, filter: string)
    requires SetUpFinder(discoverUrl, product, target, filter).Success?
    requires OneLine(product) && OneLine(target) && Clean(target) && '\0' !in filter
    ensures GoodFinder(SetUpFinder(discoverUrl, product, target, filter).value)
  {
    hide Url.Parse, Value, Clean, MAX_INT;
    PartsPrintable(discoverUrl);
  }

  /** From URLs to callbacks: whatever the URLs are, the message of one side is what the other side reports. */
  lemma SetUpIsObserved(
    discoverUrl: string, maxAge: int, locationUrl: string, p: Profile, k: Kind, address: string, f: Finder)
    requires SetUpService(discoverUrl, maxAge, locationUrl, p).Success?
    requires GoodProfile(p) && IsIpv4(address) && GoodFinder(f)
    ensures var s := SetUpService(discoverUrl, maxAge, locationUrl, p).value;
      Observe(f, Sent(s, k, address)) == if Wanted(f, s, k) then Some(Announced(s, k, address)) else None
  {
    hide SetUpService, GoodProfile, IsIpv4, GoodFinder, GoodService, GoodAddress, Observe, Sent, Wanted, Announced;
    SetUpIsGood(discoverUrl, maxAge, locationUrl, p, address);
    ObserveExact(f, SetUpService(discoverUrl, maxAge, locationUrl, p).value, k, address);
  }

  /** The port of an accepted address is below 2^16: the cast to 16 bits never drops anything. */
  lemma PortFits(discoverUrl: string)
    requires MulticastAddress(discoverUrl).Success?
    ensures PortNumber(MulticastAddress(discoverUrl).value.1)
  {
    hide Url.Parse, IsPort, Digits, UrlNumbers.Canonical;
    var port := Url.Parse(discoverUrl).value.port;
    ParseShape(discoverUrl);
    PortIsSmall(port);
  }

  /**
   * Which texts a service can be set up from, and what it takes from them: a location URL, and a
   * discovery URL with an IPv4 shaped host and a port below 2^16.
   */
  lemma SetUpExact(discoverUrl: string, maxAge: int, locationUrl: string, p: Profile)
    ensures var d, l := Url.Parse(discoverUrl), Url.Parse(locationUrl);
      var r := SetUpService(discoverUrl, maxAge, locationUrl, p);
      && (r.Success? <==> l.Success? && d.Success? && d.value.ipVersion == Url.V4 && PortNumber(d.value.port))
      && (r.Success? ==> r.value == Service(d.value.host, d.value.port, Decimal(maxAge), l.value.scheme, l.value.port,
            p.product, p.usn, p.target, p.smId, p.deviceType))
  {
    hide Url.Parse, IsPort, Value, Digits, UrlNumbers.Canonical;
    AddressExact(discoverUrl);
  }

  lemma FinderSetUpExact(discoverUrl: string, product: string, target: string, filter: string)
    ensures var d := Url.Parse(discoverUrl); var r := SetUpFinder(discoverUrl, product, target, filter);
      && (r.Success? <==> d.Success? && d.value.ipVersion == Url.V4 && PortNumber(d.value.port))
      && (r.Success? ==> r.value == Finder(d.value.host, d.value.port, product, target, filter))
  {
    hide Url.Parse, IsPort, Value, Digits, UrlNumbers.Canonical;
    AddressExact(discoverUrl);
  }

  lemma AddressExact(discoverUrl: string)
    ensures var d := Url.Parse(discoverUrl); var r := MulticastAddress(discoverUrl);
      && (r.Success? <==> d.Success? && d.value.ipVersion == Url.V4 && PortNumber(d.value.port))
      && (r.Success? ==> r.value == (d.value.host, d.value.port))
  {
    hide Url.Parse, IsPort, Value, UrlNumbers.Canonical, Digits;
    if Url.Parse(discoverUrl).Success? {
      ParsedPortDigits(discoverUrl);
      ParseShape(discoverUrl);
      if Url.Parse(discoverUrl).value.port != "" {
        PortIsSmall(Url.Parse(discoverUrl).value.port);
      } else {
        NoEmptyNumber();
      }
    }
  }

  /** A number that the port check lets pass by wrapping is beyond the int range. */
  lemma PortIsSmall(port: string)
    requires IsPort(port)
    ensures UrlNumbers.Canonical(port) && (Value(port) <= MAX_INT <==> PortNumber(port))
  {
    hide IsPort, Value, Digits, Print;
    PortWrapped(port);
    if Value(port) <= MAX_INT {
      SmallWrap(Value(port));
      CanonicalIsPrint(port);
    }
  }

  lemma SmallWrap(v: nat)
    requires v % WRAP <= 65535 && v <= MAX_INT
    ensures v <= 65535
  {
  }

  /** Once printed, exactly the URLs with an IPv4 shaped host and a port below 2^16 name an address. */
  lemma PrintedAddress(u: Url.UrlFields)
    requires WellFormed(u) && Url.AsciiUrl(u)
    ensures Url.Build(u).Success?
    ensures var text := Url.Build(u).value; |text| <= 8000 ==>
      (MulticastAddress(text).Success? <==> u.ipVersion == Url.V4 && PortNumber(u.port))
      && (MulticastAddress(text).Success? ==> MulticastAddress(text).value == (u.host, u.port))
  {
    hide Url.Parse, Url.Build, Url.AsciiUrl, WellFormed, IsPort, Value, UrlNumbers.Canonical, Digits;
    ParseBuild(u);
    var text := Url.Build(u).value;
    if |text| <= 8000 {
      ParseShape(text);
      ParsedPortDigits(text);
      if u.port != "" {
        PortIsSmall(u.port);
      } else {
        NoEmptyNumber();
      }
    }
  }

  lemma NoEmptyNumber()
    ensures !PortNumber("")
  {
    hide Value;
    assert !UrlNumbers.Canonical("");
    assert forall n: nat :: UrlNumbers.Canonical(Print(n));
  }
}
