/** Services and finders: how they are set up, what they send, and what they make of what they receive. */
module LssdpDiscovery {
  import opened Wrappers
  import opened LssdpPackets
  import opened LssdpMessages

  /** What a finder was given; an empty target stands for all of them. */
  datatype Finder = Finder(host: string, port: string, product: string, target: string, filter: string)

  function SearchTarget(f: Finder): string {
    if f.target == "" then ALL else f.target
  }

  function SearchLines(f: Finder): seq<Line> {
    [Line(Name(HOST), f.host + ":" + f.port), Line(Name(MAN), "\"ssdp:discover\""), Line(Name(MX), "5"),
     Line(Name(ST), SearchTarget(f)), Line(Name(USER_AGENT), f.product)]
  }

  /** The text of an M-SEARCH; it is sent without formatting. */
  function SentSearch(f: Finder): string {
    HEADER_MSEARCH + Render(SearchLines(f)) + "\r\n"
  }

  /** Text without control characters. */
  predicate OneLine(t: string) {
    forall i | 0 <= i < |t| :: ' ' <= t[i] <= '~'
  }

  ghost predicate GoodFinder(f: Finder) {
    OneLine(f.host) && OneLine(f.port) && OneLine(f.product) && OneLine(f.target) && Clean(f.target) && '\0' !in f.filter
  }

  // What is received.

  datatype EventId = NotifyAlive | NotifyByeBye | ResponseReceived

  datatype Description = Description(
    location: string, usn: string, target: string, productName: string, productVersion: string,
    smId: string, deviceType: string)

  datatype Event = Event(id: EventId, description: Description)

  /** The filters of a finder; texts are compared up to their first zero. */
  predicate Interested(f: Finder, c: Content) {
    && (f.filter == "" || c.deviceType == Text(f.filter))
    && (SearchTarget(f) == ALL || c.target == Text(SearchTarget(f)))
  }

  function EventOf(c: Content): Option<Event> {
    var description := Description(c.location, c.usn, c.target, "", "", c.smId, c.deviceType);
    match c.kind
    case MSearch => None
    case Notify => Some(Event(if c.nts == BYEBYE then NotifyByeBye else NotifyAlive, description))
    case Response => Some(Event(ResponseReceived, description))
  }

  /** The callback a finder makes for a received text, if any. */
  function Observe(f: Finder, data: string): Option<Event> {
    match Parse(data)
    case None => None
    case Some(p) => if Interested(f, ContentOf(p)) then EventOf(ContentOf(p)) else None
  }

  /** Whether a service answers a received text. */
  predicate Answers(s: Service, data: string) {
    match Parse(data)
    case None => false
    case Some(p) => p.kind == MSearch && (p.Field(St) == ALL || p.Field(St) == Text(s.target))
  }

  /** The callbacks for the texts received one after another. */
  function Events(f: Finder, received: seq<string>): seq<Event> {
    if received == [] then []
    else (match Observe(f, received[0]) case None => [] case Some(e) => [e]) + Events(f, received[1..])
  }

  /** The searches that a service answers, in the order in which they arrive. */
  function Answered(s: Service, received: seq<string>): seq<string> {
    if received == [] then []
    else (if Answers(s, received[0]) then [received[0]] else []) + Answered(s, received[1..])
  }

  lemma PlainText(t: string)
    requires '\0' !in t
    ensures Text(t) == t
  {
  }

  /** What a finder makes of any text, whoever sent it: from the fields that the text is parsed to. */
  lemma ObserveAny(f: Finder, data: string, e: Event)
    requires '\0' !in f.target && '\0' !in f.filter
    ensures Observe(f, data) == Some(e) <==>
      && Parse(data).Some?
      && var c := ContentOf(Parse(data).value);
      && (f.target in {"", "ssdp:all"} || f.target == c.target)
      && (f.filter == "" || f.filter == c.deviceType)
      && c.kind != MSearch
      && e.id == (if c.kind == Response then ResponseReceived else if c.nts == "ssdp:byebye" then NotifyByeBye else NotifyAlive)
      && e.description == Description(c.location, c.usn, c.target, "", "", c.smId, c.deviceType)
  {
    hide Parse, ContentOf, Text;
    PlainText(f.target);
    PlainText(f.filter);
  }

  /** A service answers exactly the searches whose target is everything or its own one. */
  lemma AnswersAny(s: Service, data: string)
    requires '\0' !in s.target
    ensures Answers(s, data) <==>
      && Parse(data).Some?
      && var c := ContentOf(Parse(data).value);
      && c.kind == MSearch && (c.target == "ssdp:all" || c.target == s.target)
  {
    hide Parse, Text;
    PlainText(s.target);
  }

  // Searches are read back.

  lemma SearchStored(f: Finder)
    requires GoodFinder(f)
    ensures GoodLines(SearchLines(f))
    ensures var lines := SearchLines(f);
      && Stored(lines, St) == Cut(SearchTarget(f), St) && Stored(lines, Usn) == "" && Stored(lines, Location) == ""
      && Stored(lines, Nts) == "" && Stored(lines, SmId) == "" && Stored(lines, DevType) == ""
  {
    hide Name, FieldOf, GoodName, Clean, Stored;
    var lines := SearchLines(f);
    AllNamesAreFound();
    SearchValues(f);
    StoredLine(lines, 3, St, SearchTarget(f));
    StoredNoLine(lines, Usn);
    StoredNoLine(lines, Location);
    StoredNoLine(lines, Nts);
    StoredNoLine(lines, SmId);
    StoredNoLine(lines, DevType);
  }

  lemma SearchValues(f: Finder)
    requires GoodFinder(f)
    ensures GoodValue(f.host + ":" + f.port) && GoodValue(f.product) && GoodValue(SearchTarget(f))
    ensures GoodValue("\"ssdp:discover\"") && GoodValue("5") && Clean(SearchTarget(f))
  {
  }

  lemma SearchIsReadBack(f: Finder)
    requires GoodFinder(f)
    ensures Parse(SentSearch(f)).Some?
    ensures ContentOf(Parse(SentSearch(f)).value) == Content(MSearch, Cut(SearchTarget(f), St), "", "", "", "", "")
  {
    hide SearchLines, Render, ParseFields, GoodFinder, ParseKind, StoreLines, Text, Cleared;
    var lines := SearchLines(f);
    var body := Render(lines) + "\r\n";
    SearchStored(f);
    ParsePrintedLines(lines, Cleared());
    RenderNoNul(lines);
    SearchHeaderIsParsed(body);
    assert SentSearch(f) == HEADER_MSEARCH + body;
    assert '\0' !in HEADER_MSEARCH;
  }

  lemma SearchHeaderIsParsed(body: string)
    requires body != ""
    ensures ParseKind(HEADER_MSEARCH + body) == Some((MSearch, |HEADER_MSEARCH|))
    ensures (HEADER_MSEARCH + body)[|HEADER_MSEARCH|..] == body
  {
    assert (HEADER_MSEARCH + body)[..|HEADER_MSEARCH|] == HEADER_MSEARCH;
  }

  // Discovery from end to end.

  /** The event a message of a service stands for. */
  function Announced(s: Service, k: Kind, address: string): Event {
    var id := match k
      case AliveMessage => NotifyAlive
      case ByeByeMessage => NotifyByeBye
      case ResponseMessage => ResponseReceived;
    var carried := k != ByeByeMessage;
    Event(id, Description(
      if carried then Cut(s.scheme + "://" + address + ":" + s.locationPort, Location) else "", Cut(s.usn, Usn), Cut(s.target, St), "", "",
      if carried then Cut(s.smId, SmId) else "", if carried then Cut(s.deviceType, DevType) else ""))
  }

  /** The targets a finder lets pass, and the messages it lets pass if it filters devices. */
  predicate Wanted(f: Finder, s: Service, k: Kind) {
    && (f.target == "" || f.target == ALL || f.target == Cut(s.target, St))
    && (f.filter == "" || (k != ByeByeMessage && f.filter == Cut(s.deviceType, DevType)))
  }

  /** One callback with the event of the message for what the finder wants, none for the rest. */
  lemma ObserveExact(f: Finder, s: Service, k: Kind, address: string)
    requires GoodFinder(f) && GoodService(s) && GoodAddress(s, address)
    ensures Observe(f, Sent(s, k, address)) == if Wanted(f, s, k) then Some(Announced(s, k, address)) else None
  {
    hide GoodService, GoodAddress, Sent, Parse, ContentOf, Text;
    MessageIsReadBack(s, k, address);
    PlainText(f.filter);
    assert '\0' !in SearchTarget(f);
    PlainText(SearchTarget(f));
    hide GoodFinder, LocationText;
    assert ALIVE != BYEBYE;
  }

  /**
   * A finder that looks for the target of a service sees its messages if and only if the target
   * fits its buffer; one that looks for a different target sees none that do.
   */
  lemma OwnTargetIsSeen(f: Finder, s: Service, k: Kind, address: string)
    requires GoodFinder(f) && GoodService(s) && GoodAddress(s, address)
    requires f.target != "" && f.target != ALL && f.filter == ""
    ensures f.target == s.target ==> (Observe(f, Sent(s, k, address)).Some? <==> |s.target| <= 127)
    ensures f.target != s.target && |s.target| <= 127 ==> Observe(f, Sent(s, k, address)).None?
  {
    hide GoodFinder, GoodService, GoodAddress, Sent, Observe, Cut;
    ObserveExact(f, s, k, address);
  }

  /** With a device filter no byebye message is ever seen, as none carries a device type. */
  lemma FilterHidesByeBye(f: Finder, s: Service, address: string)
    requires GoodFinder(f) && GoodService(s) && GoodAddress(s, address) && f.filter != ""
    ensures Observe(f, Sent(s, ByeByeMessage, address)).None?
  {
    hide GoodFinder, GoodService, GoodAddress, Sent, Observe;
    ObserveExact(f, s, ByeByeMessage, address);
  }

  /** A service answers a search for everything or for its own target; device types play no part. */
  lemma AnswersExact(s: Service, f: Finder)
    requires GoodFinder(f) && GoodService(s)
    ensures Answers(s, SentSearch(f)) <==> SearchTarget(f) == ALL || Cut(SearchTarget(f), St) == s.target
  {
    hide GoodFinder, SentSearch, Parse, Text, Cut;
    SearchIsReadBack(f);
    assert '\0' !in s.target;
    PlainText(s.target);
    CutOfAll(SearchTarget(f));
  }

  lemma CutOfAll(target: string)
    ensures Cut(target, St) == ALL <==> target == ALL
  {
  }

  /**
   * Both directions agree: as long as the targets fit the buffers, a service answers the search of
   * a finder without device filter if and only if that finder reports the answer.
   */
  lemma AnswerIsSeen(f: Finder, s: Service, address: string)
    requires GoodFinder(f) && GoodService(s) && GoodAddress(s, address) && f.filter == ""
    requires |SearchTarget(f)| <= 127 && |s.target| <= 127
    ensures Answers(s, SentSearch(f)) <==> Observe(f, Sent(s, ResponseMessage, address)).Some?
  {
    hide GoodFinder, GoodService, GoodAddress, Sent, SentSearch, Observe, Answers, Cut;
    AnswersExact(s, f);
    ObserveExact(f, s, ResponseMessage, address);
  }

  // Whole runs.

  /** Where a received text comes from. */
  datatype Delivery = FromService(service: Service, kind: Kind, address: string) | FromFinder(finder: Finder)

  ghost predicate GoodDelivery(d: Delivery) {
    match d
    case FromService(s, _, address) => GoodService(s) && GoodAddress(s, address)
    case FromFinder(g) => GoodFinder(g)
  }

  function TextOf(d: Delivery): string {
    match d
    case FromService(s, k, address) => Sent(s, k, address)
    case FromFinder(g) => SentSearch(g)
  }

  function Texts(ds: seq<Delivery>): seq<string> {
    if ds == [] then [] else [TextOf(ds[0])] + Texts(ds[1..])
  }

  /** The announcements that a finder wants, in the order in which they arrive. */
  function Expected(f: Finder, ds: seq<Delivery>): seq<Event> {
    if ds == [] then []
    else
      var rest := Expected(f, ds[1..]);
      match ds[0]
      case FromService(s, k, address) => if Wanted(f, s, k) then [Announced(s, k, address)] + rest else rest
      case FromFinder(_) => rest
  }

  /** Over a whole run, whatever services and other finders send. */
  lemma {:induction false} EventsExact(f: Finder, ds: seq<Delivery>)
    requires GoodFinder(f) && forall i | 0 <= i < |ds| :: GoodDelivery(ds[i])
    ensures Events(f, Texts(ds)) == Expected(f, ds)
  {
    hide Observe, Sent, SentSearch, Wanted, Announced, GoodFinder, GoodService, GoodAddress;
    if ds != [] {
      EventsExact(f, ds[1..]);
      var d := ds[0];
      assert Texts(ds)[1..] == Texts(ds[1..]);
      match d
      case FromService(s, k, address) => ObserveExact(f, s, k, address);
      case FromFinder(g) => SearchIsNotObserved(f, g);
    }
  }

  lemma SearchIsNotObserved(f: Finder, g: Finder)
    requires GoodFinder(g)
    ensures Observe(f, SentSearch(g)).None?
  {
    hide GoodFinder, SentSearch, Parse, ContentOf, Interested;
    SearchIsReadBack(g);
  }

  /** The searches among the deliveries that ask for everything or for the target of the service. */
  function ExpectedSearches(s: Service, ds: seq<Delivery>): seq<string> {
    if ds == [] then []
    else
      var rest := ExpectedSearches(s, ds[1..]);
      match ds[0]
      case FromService(_, _, _) => rest
      case FromFinder(g) => if SearchTarget(g) == ALL || Cut(SearchTarget(g), St) == s.target then [SentSearch(g)] + rest else rest
  }

  lemma {:induction false} AnsweredExact(s: Service, ds: seq<Delivery>)
    requires GoodService(s) && forall i | 0 <= i < |ds| :: GoodDelivery(ds[i])
    ensures Answered(s, Texts(ds)) == ExpectedSearches(s, ds)
  {
    hide Answers, Sent, SentSearch, Cut, GoodFinder, GoodService, GoodAddress;
    if ds != [] {
      AnsweredExact(s, ds[1..]);
      var d := ds[0];
      assert Texts(ds)[1..] == Texts(ds[1..]);
      match d
      case FromService(t, k, address) => MessageIsNotAnswered(s, t, k, address);
      case FromFinder(g) => AnswersExact(s, g);
    }
  }

  lemma MessageIsNotAnswered(s: Service, t: Service, k: Kind, address: string)
    requires GoodService(t) && GoodAddress(t, address)
    ensures !Answers(s, Sent(t, k, address))
  {
    hide GoodService, GoodAddress, Sent, Parse, Text;
    MessageIsReadBack(t, k, address);
  }
}
