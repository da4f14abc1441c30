/** The messages a service prints, and what they are parsed to. */
module LssdpMessages {
  import opened Wrappers
  import opened LssdpPackets

  /**
   * What a service prints: the parts of the two URLs it was given, the product text (operating
   * system, product name and versions), and its description.
   */
  datatype Service = Service(
    host: string, port: string, maxAge: string, scheme: string, locationPort: string, product: string,
    usn: string, target: string, smId: string, deviceType: string)

  datatype Kind = AliveMessage | ByeByeMessage | ResponseMessage

  /** Replaces the one "%s" of a template. */
  function Format(template: string, arg: string): string {
    if template == "" then ""
    else if |template| >= 2 && template[..2] == "%s" then arg + template[2..]
    else [template[0]] + Format(template[1..], arg)
  }

  /** The headers that are printed. */
  datatype Header =
    HOST | CACHE_CONTROL | LOCATION | SERVER | NT | NTS | USN | ST | SM_ID | DEV_TYPE | DATE | EXT | MAN | MX | USER_AGENT

  function Name(h: Header): string {
    match h
    case HOST => "HOST"
    case CACHE_CONTROL => "CACHE-CONTROL"
    case LOCATION => "LOCATION"
    case SERVER => "SERVER"
    case NT => "NT"
    case NTS => "NTS"
    case USN => "USN"
    case ST => "ST"
    case SM_ID => "SM_ID"
    case DEV_TYPE => "DEV_TYPE"
    case DATE => "DATE"
    case EXT => "EXT"
    case MAN => "MAN"
    case MX => "MX"
    case USER_AGENT => "USER-AGENT"
  }

  function Optional(name: string, space: string, value: string): seq<Line> {
    if value == "" then [] else [Line(name, space + value)]
  }

  function LocationText(s: Service, address: string): string {
    s.scheme + "://" + address + ":" + s.locationPort
  }

  /** The lines in front of, and behind, the location. */
  function Before(s: Service, k: Kind): seq<Line> {
    match k
    case AliveMessage => [Line(Name(HOST), s.host + ":" + s.port), Line(Name(CACHE_CONTROL), "max-age=" + s.maxAge)]
    case ByeByeMessage => [Line(Name(HOST), s.host + ":" + s.port), Line(Name(NT), s.target), Line(Name(NTS), BYEBYE), Line(Name(USN), s.usn)]
    case ResponseMessage => [Line(Name(CACHE_CONTROL), "max-age=" + s.maxAge), Line(Name(DATE), ""), Line(Name(EXT), "")]
  }

  function Behind(s: Service, k: Kind): seq<Line> {
    match k
    case AliveMessage =>
      [Line(Name(SERVER), s.product), Line(Name(NT), s.target), Line(Name(NTS), ALIVE), Line(Name(USN), s.usn)]
      + Optional(Name(SM_ID), "", s.smId) + Optional(Name(DEV_TYPE), "", s.deviceType)
    case ByeByeMessage => []
    case ResponseMessage =>
      [Line(Name(SERVER), s.product), Line(Name(ST), s.target), Line(Name(USN), s.usn)]
      + Optional(Name(SM_ID), " ", s.smId) + Optional(Name(DEV_TYPE), " ", s.deviceType)
  }

  function Lines(s: Service, k: Kind, address: string): seq<Line> {
    Before(s, k)
    + (if k == ByeByeMessage then [] else [Line(Name(LOCATION), LocationText(s, address))])
    + Behind(s, k)
  }

  function StartLine(k: Kind): string {
    if k == ResponseMessage then HEADER_RESPONSE else HEADER_NOTIFY
  }

  /** The text prepared by the constructor; the address of the interface is still "%s". */
  function Template(s: Service, k: Kind): string {
    StartLine(k) + Render(Lines(s, k, "%s")) + "\r\n"
  }

  /** The text that is sent from an interface; the byebye message is not formatted. */
  function Sent(s: Service, k: Kind, address: string): string {
    if k == ByeByeMessage then Template(s, k) else Format(Template(s, k), address)
  }

  /** Text without control characters and without '%'. */
  predicate Printable(t: string) {
    forall i | 0 <= i < |t| :: ' ' <= t[i] <= '~' && t[i] != '%'
  }

  ghost predicate GoodService(s: Service) {
    && Printable(s.host) && Printable(s.port) && Printable(s.maxAge) && Printable(s.product)
    && Printable(s.scheme) && Printable(s.locationPort)
    && Printable(s.usn) && Printable(s.target) && Printable(s.smId) && Printable(s.deviceType)
    && Clean(s.usn) && Clean(s.target) && Clean(s.smId) && Clean(s.deviceType)
  }

  ghost predicate GoodAddress(s: Service, address: string) {
    Printable(address) && Clean(LocationText(s, address))
  }

  // Formatting.

  lemma {:induction false} FormatAt(a: string, b: string, arg: string)
    requires '%' !in a
    ensures Format(a + ("%s" + b), arg) == a + (arg + b)
  {
    if a == "" {
      assert a + ("%s" + b) == "%s" + b;
      assert ("%s" + b)[..2] == "%s" && ("%s" + b)[2..] == b;
    } else {
      FormatAt(a[1..], b, arg);
      var t := a + ("%s" + b);
      assert t[0] == a[0] && a[0] in a;
      assert t[1..] == a[1..] + ("%s" + b);
      assert |t| >= 2 ==> t[..2][0] == a[0];
    }
  }

  lemma {:induction false} RenderConcat(a: seq<Line>, b: seq<Line>)
    ensures Render(a + b) == Render(a) + Render(b)
  {
    if a == [] {
      assert a + b == b;
    } else {
      RenderConcat(a[1..], b);
      assert (a + b)[1..] == a[1..] + b;
    }
  }

  ghost predicate PercentFree(lines: seq<Line>) {
    forall i | 0 <= i < |lines| :: '%' !in lines[i].name && '%' !in lines[i].value
  }

  lemma {:induction false} RenderPercentFree(lines: seq<Line>)
    requires PercentFree(lines)
    ensures '%' !in Render(lines)
  {
    if lines != [] {
      RenderPercentFree(lines[1..]);
    }
  }

  /** The template in front of the address, and behind it. */
  function Front(s: Service, k: Kind): string {
    StartLine(k) + Render(Before(s, k)) + "LOCATION:" + s.scheme + "://"
  }

  function Back(s: Service, k: Kind): string {
    ":" + s.locationPort + "\r\n" + Render(Behind(s, k)) + "\r\n"
  }

  lemma FormatTemplate(s: Service, k: Kind, address: string)
    requires GoodService(s)
    ensures Sent(s, k, address) == StartLine(k) + Render(Lines(s, k, address)) + "\r\n"
  {
    hide Before, Behind, Front, Back, Format, GoodService, Render;
    if k != ByeByeMessage {
      FrontPercentFree(s, k);
      RenderLocation(s, k, "%s");
      RenderLocation(s, k, address);
      FormatAt(Front(s, k), Back(s, k), address);
    }
  }

  lemma FrontPercentFree(s: Service, k: Kind)
    requires GoodService(s)
    ensures '%' !in Front(s, k)
  {
    BeforePercentFree(s, k);
    RenderPercentFree(Before(s, k));
    HeaderPercentFree(k);
    assert '%' !in s.scheme;
    hide Render, Before, StartLine;
  }

  lemma HeaderPercentFree(k: Kind)
    ensures '%' !in StartLine(k)
  {
  }

  lemma BeforePercentFree(s: Service, k: Kind)
    requires GoodService(s)
    ensures PercentFree(Before(s, k))
  {
    hide Clean, Name, FieldOf, GoodName, Target;
    AllNamesAreFound();
    var lines := Before(s, k);
    assert '%' !in s.host + ":" + s.port && '%' !in "max-age=" + s.maxAge;
    match k
    case AliveMessage => assert PercentFree(lines);
    case ByeByeMessage => assert PercentFree(lines);
    case ResponseMessage => assert PercentFree(lines);
  }

  lemma RenderLocation(s: Service, k: Kind, address: string)
    requires k != ByeByeMessage
    ensures StartLine(k) + Render(Lines(s, k, address)) + "\r\n" == Front(s, k) + (address + Back(s, k))
  {
    hide Before, Behind, StartLine;
    var mid := [Line(Name(LOCATION), LocationText(s, address))];
    RenderConcat(Before(s, k) + mid, Behind(s, k));
    RenderConcat(Before(s, k), mid);
    RenderOne(mid[0]);
    hide Render;
    assert Render(Lines(s, k, address)) == Render(Before(s, k)) + Render(mid) + Render(Behind(s, k));
    Regroup(StartLine(k), Render(Before(s, k)), s.scheme, address, s.locationPort, Render(Behind(s, k)));
  }

  lemma Regroup(h: string, r1: string, scheme: string, address: string, port: string, r3: string)
    ensures h + (r1 + ("LOCATION" + ":" + (scheme + "://" + address + ":" + port) + "\r\n") + r3) + "\r\n"
      == (h + r1 + "LOCATION:" + scheme + "://") + (address + (":" + port + "\r\n" + r3 + "\r\n"))
  {
    var tail := ":" + port + "\r\n" + r3 + "\r\n";
    var front := h + r1 + "LOCATION:";
    assert (scheme + "://" + address + ":" + port) + "\r\n" + r3 + "\r\n" == scheme + "://" + address + tail;
    assert "LOCATION" + ":" == "LOCATION:";
  }

  lemma RenderOne(l: Line)
    ensures Render([l]) == l.name + ":" + l.value + "\r\n"
  {
    assert [l][1..] == [];
  }

  // Reading a printed message.

  /** The field that a header is stored in. */
  function Target(h: Header): Option<Field> {
    match h
    case ST => Some(St)
    case NT => Some(St)
    case USN => Some(Usn)
    case LOCATION => Some(Location)
    case NTS => Some(Nts)
    case SM_ID => Some(SmId)
    case DEV_TYPE => Some(DevType)
    case _ => None
  }

  lemma NamesAreFound(h: Header)
    ensures FieldOf(Name(h)) == Target(h)
  {
    if Target(h).Some? {
      FieldNames(h);
    } else {
      OtherNames(h);
    }
  }

  lemma FieldNames(h: Header)
    requires Target(h).Some?
    ensures FieldOf(Name(h)) == Target(h)
  {
    var name := Name(h);
    assert name != "" && name[0] == Name(h)[0];
    match h
    case NTS => assert name[0] == 'N';
    case NT => assert name[0] == 'N';
    case DEV_TYPE => assert name[0] == 'D';
    case _ =>
  }

  lemma OtherNames(h: Header)
    requires Target(h).None?
    ensures FieldOf(Name(h)) == None
  {
    var name := Name(h);
    assert name != "" && name[0] == Name(h)[0];
    match h
    case EXT => assert name[0] == 'E';
    case MAN => assert name[0] == 'M';
    case MX => assert name[0] == 'M';
    case _ =>
  }

  lemma NamesAreGood(h: Header)
    ensures GoodName(Name(h)) && '%' !in Name(h)
  {
  }

  lemma AllNamesAreFound()
    ensures forall h: Header :: FieldOf(Name(h)) == Target(h) && GoodName(Name(h)) && '%' !in Name(h)
  {
    hide FieldOf, Name, GoodName, Target;
    forall h: Header ensures FieldOf(Name(h)) == Target(h) && GoodName(Name(h)) && '%' !in Name(h) {
      NamesAreFound(h);
      NamesAreGood(h);
    }
  }

  /** The lines of the three messages with the lines that are left out when they are empty. */
  lemma LinesListed(s: Service, address: string)
    ensures Lines(s, AliveMessage, address) == [
      Line(Name(HOST), s.host + ":" + s.port), Line(Name(CACHE_CONTROL), "max-age=" + s.maxAge),
      Line(Name(LOCATION), LocationText(s, address)), Line(Name(SERVER), s.product),
      Line(Name(NT), s.target), Line(Name(NTS), ALIVE), Line(Name(USN), s.usn)]
      + Optional(Name(SM_ID), "", s.smId) + Optional(Name(DEV_TYPE), "", s.deviceType)
    ensures Lines(s, ResponseMessage, address) == [
      Line(Name(CACHE_CONTROL), "max-age=" + s.maxAge), Line(Name(DATE), ""), Line(Name(EXT), ""),
      Line(Name(LOCATION), LocationText(s, address)), Line(Name(SERVER), s.product),
      Line(Name(ST), s.target), Line(Name(USN), s.usn)]
      + Optional(Name(SM_ID), " ", s.smId) + Optional(Name(DEV_TYPE), " ", s.deviceType)
    ensures Lines(s, ByeByeMessage, address) == [
      Line(Name(HOST), s.host + ":" + s.port), Line(Name(NT), s.target), Line(Name(NTS), BYEBYE), Line(Name(USN), s.usn)]
  {
    hide LocationText;
  }

  lemma LinesAreOnce(s: Service, k: Kind, address: string)
    ensures OncePerField(Lines(s, k, address))
  {
    hide Name, FieldOf, LocationText, Lines;
    AllNamesAreFound();
    LinesListed(s, address);
  }

  lemma LinesAreGood(s: Service, k: Kind, address: string)
    requires GoodService(s) && GoodAddress(s, address)
    ensures GoodLines(Lines(s, k, address))
  {
    hide FieldOf, Name, GoodName, LocationText, Lines, Printable, Clean, GoodAddress;
    AllNamesAreFound();
    LinesListed(s, address);
    ValuesAreGood(s, address);
  }

  predicate GoodValue(v: string) {
    '\n' !in v && '\0' !in v
  }

  lemma ValuesAreGood(s: Service, address: string)
    requires GoodService(s) && GoodAddress(s, address)
    ensures GoodValue(s.host + ":" + s.port) && GoodValue("max-age=" + s.maxAge) && GoodValue(LocationText(s, address))
    ensures GoodValue(s.product) && GoodValue(s.target) && GoodValue(s.usn) && GoodValue(ALIVE) && GoodValue(BYEBYE) && GoodValue("")
    ensures GoodValue(s.smId) && GoodValue(" " + s.smId) && GoodValue("" + s.smId)
    ensures GoodValue(s.deviceType) && GoodValue(" " + s.deviceType) && GoodValue("" + s.deviceType)
  {
    hide Clean;
  }

  /** What a receiver finds in the fields of a message. */
  datatype Content = Content(kind: Method, target: string, usn: string, location: string, nts: string, smId: string, deviceType: string)

  function ContentOf(p: Packet): Content
    requires p.Valid()
  {
    Content(p.kind, p.Field(St), p.Field(Usn), p.Field(Location), p.Field(Nts), p.Field(SmId), p.Field(DevType))
  }

  /** What a message carries; the fields it does not carry are empty, and long ones are cut. */
  function Carried(s: Service, k: Kind, address: string): Content {
    match k
    case AliveMessage =>
      Content(Notify, Cut(s.target, St), Cut(s.usn, Usn), Cut(s.scheme + "://" + address + ":" + s.locationPort, Location), ALIVE,
              Cut(s.smId, SmId), Cut(s.deviceType, DevType))
    case ByeByeMessage => Content(Notify, Cut(s.target, St), Cut(s.usn, Usn), "", BYEBYE, "", "")
    case ResponseMessage =>
      Content(Response, Cut(s.target, St), Cut(s.usn, Usn), Cut(s.scheme + "://" + address + ":" + s.locationPort, Location), "",
              Cut(s.smId, SmId), Cut(s.deviceType, DevType))
  }

  lemma AllFields(f: Field)
    ensures f in FIELDS
  {
    match f
    case St => case Usn => case Location => case Nts => case SmId => case DevType =>
  }

  lemma ClearedField(f: Field)
    ensures f in Cleared() && Cleared()[f] == Zeros(BufferLength(f)) && Sized(Cleared())
  {
    AllFields(f);
  }

  /** The text of a field in the buffers that a list of lines was stored in. */
  function Stored(lines: seq<Line>, f: Field): string {
    AllFields(f);
    Text(StoreLines(Cleared(), lines)[f])
  }

  lemma StoredLine(lines: seq<Line>, i: nat, f: Field, value: string)
    requires OncePerField(lines) && i < |lines| && FieldOf(lines[i].name) == Some(f)
    requires Clean(value) && (lines[i].value == value || lines[i].value == " " + value)
    ensures Stored(lines, f) == Cut(value, f)
  {
    hide Trim, FieldOf, Text, StoreLines;
    TrimSpace(value);
    TrimVisible(value);
    ClearedField(f);
    FieldOfLine(Cleared(), lines, i, f);
  }

  lemma TrimSpace(value: string)
    requires value == "" || (Visible(value[0]) && Visible(value[|value| - 1]))
    ensures Trim(" " + value) == value
  {
    assert (" " + value)[1..] == value;
    TrimVisible(value);
  }

  lemma StoredOptional(lines: seq<Line>, name: string, space: string, value: string, f: Field)
    requires OncePerField(lines) && FieldOf(name) == Some(f) && Clean(value) && (space == "" || space == " ")
    requires value != "" ==> exists i :: 0 <= i < |lines| && lines[i] == Line(name, space + value)
    requires value == "" ==> forall i | 0 <= i < |lines| :: FieldOf(lines[i].name) != Some(f)
    ensures Stored(lines, f) == Cut(value, f)
  {
    hide FieldOf, Clean, Text, StoreLines, Cleared, OncePerField;
    if value == "" {
      FieldOfNoLine(lines, f);
    } else {
      var i :| 0 <= i < |lines| && lines[i] == Line(name, space + value);
      assert "" + value == value;
      StoredLine(lines, i, f, value);
    }
  }

  lemma StoredNoLine(lines: seq<Line>, f: Field)
    requires forall i | 0 <= i < |lines| :: FieldOf(lines[i].name) != Some(f)
    ensures Stored(lines, f) == ""
  {
    hide FieldOf, Text, StoreLines, Cleared;
    FieldOfNoLine(lines, f);
  }

  lemma CarriedTexts(s: Service, k: Kind, address: string)
    ensures var c := Carried(s, k, address);
      && c.target == Cut(s.target, St) && c.usn == Cut(s.usn, Usn)
      && c.nts == (match k case AliveMessage => ALIVE case ByeByeMessage => BYEBYE case ResponseMessage => "")
      && (k == ByeByeMessage || c.location == Cut(LocationText(s, address), Location))
      && (k == ByeByeMessage || c.smId == Cut(s.smId, SmId))
      && (k == ByeByeMessage || c.deviceType == Cut(s.deviceType, DevType))
  {
    hide Cut;
  }

  lemma MarksAreClean()
    ensures Clean(ALIVE) && Clean(BYEBYE)
  {
  }

  lemma AliveOptional(s: Service, address: string)
    requires GoodService(s) && GoodAddress(s, address)
    ensures var lines := Lines(s, AliveMessage, address);
      Stored(lines, SmId) == Cut(s.smId, SmId) && Stored(lines, DevType) == Cut(s.deviceType, DevType)
  {
    hide Name, FieldOf, GoodName, Lines, LocationText, Clean, OncePerField, Printable, Stored, Text, StoreLines, Cleared, Cut;
    AllNamesAreFound();
    LinesListed(s, address);
    LinesAreOnce(s, AliveMessage, address);
    var lines := Lines(s, AliveMessage, address);
    assert s.smId != "" ==> lines[7] == Line(Name(SM_ID), "" + s.smId);
    assert s.deviceType != "" ==> lines[|lines| - 1] == Line(Name(DEV_TYPE), "" + s.deviceType);
    StoredOptional(lines, Name(SM_ID), "", s.smId, SmId);
    StoredOptional(lines, Name(DEV_TYPE), "", s.deviceType, DevType);
  }

  lemma AliveStored(s: Service, address: string)
    requires GoodService(s) && GoodAddress(s, address)
    ensures var lines := Lines(s, AliveMessage, address); var c := Carried(s, AliveMessage, address);
      && Stored(lines, St) == c.target && Stored(lines, Usn) == c.usn && Stored(lines, Location) == c.location
      && Stored(lines, Nts) == c.nts && Stored(lines, SmId) == c.smId && Stored(lines, DevType) == c.deviceType
  {
    hide Name, FieldOf, GoodName, Lines, LocationText, Clean, OncePerField, Printable, Stored, Text, StoreLines, Cleared;
    CarriedTexts(s, AliveMessage, address);
    hide Carried;
    AllNamesAreFound();
    AliveOptional(s, address);
    MarksAreClean();
    LinesListed(s, address);
    LinesAreOnce(s, AliveMessage, address);
    var lines := Lines(s, AliveMessage, address);
    StoredLine(lines, 2, Location, LocationText(s, address));
    StoredLine(lines, 4, St, s.target);
    StoredLine(lines, 5, Nts, ALIVE);
    StoredLine(lines, 6, Usn, s.usn);
  }

  lemma ResponseOptional(s: Service, address: string)
    requires GoodService(s) && GoodAddress(s, address)
    ensures var lines := Lines(s, ResponseMessage, address);
      Stored(lines, SmId) == Cut(s.smId, SmId) && Stored(lines, DevType) == Cut(s.deviceType, DevType)
  {
    hide Name, FieldOf, GoodName, Lines, LocationText, Clean, OncePerField, Printable, Stored, Text, StoreLines, Cleared, Cut;
    AllNamesAreFound();
    LinesListed(s, address);
    LinesAreOnce(s, ResponseMessage, address);
    var lines := Lines(s, ResponseMessage, address);
    assert s.smId != "" ==> lines[7] == Line(Name(SM_ID), " " + s.smId);
    assert s.deviceType != "" ==> lines[|lines| - 1] == Line(Name(DEV_TYPE), " " + s.deviceType);
    StoredOptional(lines, Name(SM_ID), " ", s.smId, SmId);
    StoredOptional(lines, Name(DEV_TYPE), " ", s.deviceType, DevType);
  }

  lemma ResponseStored(s: Service, address: string)
    requires GoodService(s) && GoodAddress(s, address)
    ensures var lines := Lines(s, ResponseMessage, address); var c := Carried(s, ResponseMessage, address);
      && Stored(lines, St) == c.target && Stored(lines, Usn) == c.usn && Stored(lines, Location) == c.location
      && Stored(lines, Nts) == c.nts && Stored(lines, SmId) == c.smId && Stored(lines, DevType) == c.deviceType
  {
    hide Name, FieldOf, GoodName, Lines, LocationText, Clean, OncePerField, Printable, Stored, Text, StoreLines, Cleared;
    CarriedTexts(s, ResponseMessage, address);
    hide Carried;
    AllNamesAreFound();
    ResponseOptional(s, address);
    MarksAreClean();
    LinesListed(s, address);
    LinesAreOnce(s, ResponseMessage, address);
    var lines := Lines(s, ResponseMessage, address);
    StoredNoLine(lines, Nts);
    StoredLine(lines, 3, Location, LocationText(s, address));
    StoredLine(lines, 5, St, s.target);
    StoredLine(lines, 6, Usn, s.usn);
  }

  lemma ByeByeStored(s: Service, address: string)
    requires GoodService(s)
    ensures var lines := Lines(s, ByeByeMessage, address); var c := Carried(s, ByeByeMessage, address);
      && Stored(lines, St) == c.target && Stored(lines, Usn) == c.usn && Stored(lines, Location) == c.location
      && Stored(lines, Nts) == c.nts && Stored(lines, SmId) == c.smId && Stored(lines, DevType) == c.deviceType
  {
    hide Name, FieldOf, GoodName, Lines, LocationText, Clean, OncePerField, Printable, Stored, Text, StoreLines, Cleared;
    AllNamesAreFound();
    MarksAreClean();
    LinesListed(s, address);
    LinesAreOnce(s, ByeByeMessage, address);
    var lines := Lines(s, ByeByeMessage, address);
    StoredNoLine(lines, Location);
    StoredNoLine(lines, SmId);
    StoredNoLine(lines, DevType);
    StoredLine(lines, 1, St, s.target);
    StoredLine(lines, 2, Nts, BYEBYE);
    StoredLine(lines, 3, Usn, s.usn);
  }

  lemma FirstChar(data: string, header: string)
    requires StartsWith(data, header) && header != ""
    ensures data[0] == header[0]
  {
    assert data[..|header|][0] == header[0];
  }

  lemma HeaderIsParsed(k: Kind, body: string)
    requires body != ""
    ensures ParseKind(StartLine(k) + body) == Some((if k == ResponseMessage then Response else Notify, |StartLine(k)|))
    ensures (StartLine(k) + body)[|StartLine(k)|..] == body
  {
    var data := StartLine(k) + body;
    assert data[0] == StartLine(k)[0];
    assert data[..|StartLine(k)|] == StartLine(k);
    assert HEADER_MSEARCH[0] == 'M' && HEADER_NOTIFY[0] == 'N' && HEADER_RESPONSE[0] == 'H';
    if StartsWith(data, HEADER_MSEARCH) {
      FirstChar(data, HEADER_MSEARCH);
    } else if StartsWith(data, HEADER_NOTIFY) {
      FirstChar(data, HEADER_NOTIFY);
    }
  }

  /** The SSDP round trip: what a message carries is what it is parsed to, and nothing else. */
  lemma MessageIsReadBack(s: Service, k: Kind, address: string)
    requires GoodService(s) && GoodAddress(s, address)
    ensures Parse(Sent(s, k, address)).Some?
    ensures ContentOf(Parse(Sent(s, k, address)).value) == Carried(s, k, address)
  {
    hide Lines, GoodService, GoodAddress, Render, ParseFields, Sent, ParseKind, StartLine;
    var lines := Lines(s, k, address);
    var body := Render(lines) + "\r\n";
    FormatTemplate(s, k, address);
    assert Sent(s, k, address) == StartLine(k) + body;
    LinesAreGood(s, k, address);
    ParsePrintedLines(lines, Cleared());
    HeaderIsParsed(k, body);
    NoNul(k, lines);
    match k
    case AliveMessage => AliveStored(s, address);
    case ByeByeMessage => ByeByeStored(s, address);
    case ResponseMessage => ResponseStored(s, address);
  }

  lemma NoNul(k: Kind, lines: seq<Line>)
    requires GoodLines(lines)
    ensures '\0' !in StartLine(k) + (Render(lines) + "\r\n")
  {
    RenderNoNul(lines);
    hide Render;
    assert '\0' !in StartLine(k);
  }

  lemma {:induction false} RenderNoNul(lines: seq<Line>)
    requires GoodLines(lines)
    ensures '\0' !in Render(lines)
  {
    if lines != [] {
      RenderNoNul(lines[1..]);
    }
  }
}
