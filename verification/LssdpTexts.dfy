/** The texts that services and finders send, header by header. */
module LssdpTexts {
  import opened Strings
  import opened LssdpPackets
  import opened LssdpMessages
  import opened LssdpDiscovery

  function LineText(l: Line): string {
    l.name + ":" + l.value + "\r\n"
  }

  lemma {:induction false} RenderIsConcat(lines: seq<Line>, texts: seq<string>)
    requires |lines| == |texts| && forall i | 0 <= i < |lines| :: texts[i] == LineText(lines[i])
    ensures Render(lines) == Concat(texts)
  {
    if lines != [] {
      RenderIsConcat(lines[1..], texts[1..]);
      assert Render(lines) == LineText(lines[0]) + Render(lines[1..]);
    }
  }

  function OptionalText(name: string, space: string, value: string): string {
    if value == "" then "" else name + ":" + space + value + "\r\n"
  }

  lemma OptionalRendered(name: string, space: string, value: string)
    ensures Render(Optional(name, space, value)) == OptionalText(name, space, value)
  {
    if value != "" {
      RenderOne(Line(name, space + value));
      assert name + ":" + (space + value) + "\r\n" == name + ":" + space + value + "\r\n";
    }
  }

  /** The texts of the fixed lines, of the two optional ones, and the empty line at the end. */
  lemma ListedText(start: string, fixed: seq<Line>, texts: seq<string>, a: seq<Line>, b: seq<Line>)
    requires |fixed| == |texts| && forall i | 0 <= i < |fixed| :: texts[i] == LineText(fixed[i])
    ensures start + Render(fixed + a + b) + "\r\n" == Concat([start] + texts + [Render(a), Render(b), "\r\n"])
  {
    RenderConcat(fixed + a, b);
    RenderConcat(fixed, a);
    RenderIsConcat(fixed, texts);
    ConcatAppend([start] + texts, [Render(a), Render(b), "\r\n"]);
    ConcatAppend([start], texts);
    ConcatOfThree(Render(a), Render(b), "\r\n");
    assert [start][1..] == [] && Concat([start]) == start + "";
    Regrouped(start, Concat(texts), Render(a), Render(b), "\r\n");
    hide Render, Concat;
  }

  lemma Regrouped(start: string, t: string, a: string, b: string, end: string)
    ensures start + (t + a + b) + end == (start + t) + (a + (b + end))
  {
  }

  lemma ConcatOfThree(a: string, b: string, c: string)
    ensures Concat([a, b, c]) == a + (b + c)
  {
    assert [a, b, c][1..] == [b, c] && [b, c][1..] == [c] && [c][1..] == [];
    assert Concat([c]) == c + "" && Concat([b, c]) == b + Concat([c]);
  }

  lemma HostLine(s: Service)
    ensures LineText(Line(Name(HOST), s.host + ":" + s.port)) == "HOST:" + s.host + ":" + s.port + "\r\n"
  {
    assert "HOST" + ":" == "HOST:";
    assert "HOST" + ":" + (s.host + ":" + s.port) + "\r\n" == "HOST" + ":" + s.host + ":" + s.port + "\r\n";
  }

  lemma AgeLine(s: Service)
    ensures LineText(Line(Name(CACHE_CONTROL), "max-age=" + s.maxAge)) == "CACHE-CONTROL:max-age=" + s.maxAge + "\r\n"
  {
    assert "CACHE-CONTROL" + ":" + ("max-age=" + s.maxAge) + "\r\n" == ("CACHE-CONTROL" + ":" + "max-age=") + s.maxAge + "\r\n";
    assert "CACHE-CONTROL" + ":" + "max-age=" == "CACHE-CONTROL:max-age=";
  }

  lemma LocationLine(s: Service, address: string)
    ensures LineText(Line(Name(LOCATION), LocationText(s, address)))
      == "LOCATION:" + s.scheme + "://" + address + ":" + s.locationPort + "\r\n"
  {
    assert "LOCATION" + ":" == "LOCATION:";
    assert "LOCATION" + ":" + (s.scheme + "://" + address + ":" + s.locationPort) + "\r\n"
      == "LOCATION" + ":" + s.scheme + "://" + address + ":" + s.locationPort + "\r\n";
  }

  lemma NamedLine(h: Header, name: string, value: string)
    requires Name(h) + ":" == name
    ensures LineText(Line(Name(h), value)) == name + value + "\r\n"
  {
  }

  lemma FieldLines(s: Service)
    ensures LineText(Line(Name(SERVER), s.product)) == "SERVER:" + s.product + "\r\n"
    ensures LineText(Line(Name(NT), s.target)) == "NT:" + s.target + "\r\n"
    ensures LineText(Line(Name(ST), s.target)) == "ST:" + s.target + "\r\n"
    ensures LineText(Line(Name(USN), s.usn)) == "USN:" + s.usn + "\r\n"
  {
    assert "SERVER" + ":" == "SERVER:" && "NT" + ":" == "NT:" && "ST" + ":" == "ST:" && "USN" + ":" == "USN:";
    hide LineText;
    NamedLine(SERVER, "SERVER:", s.product);
    NamedLine(NT, "NT:", s.target);
    NamedLine(ST, "ST:", s.target);
    NamedLine(USN, "USN:", s.usn);
  }

  lemma FixedLines()
    ensures LineText(Line(Name(NTS), ALIVE)) == "NTS:ssdp:alive\r\n"
    ensures LineText(Line(Name(NTS), BYEBYE)) == "NTS:ssdp:byebye\r\n"
    ensures LineText(Line(Name(DATE), "")) == "DATE:\r\n"
    ensures LineText(Line(Name(EXT), "")) == "EXT:\r\n"
  {
  }

  lemma OptionalLines(s: Service)
    ensures Render(Optional(Name(SM_ID), "", s.smId)) == if s.smId == "" then "" else "SM_ID:" + s.smId + "\r\n"
    ensures Render(Optional(Name(SM_ID), " ", s.smId)) == if s.smId == "" then "" else "SM_ID: " + s.smId + "\r\n"
    ensures Render(Optional(Name(DEV_TYPE), "", s.deviceType)) == if s.deviceType == "" then "" else "DEV_TYPE:" + s.deviceType + "\r\n"
    ensures Render(Optional(Name(DEV_TYPE), " ", s.deviceType)) == if s.deviceType == "" then "" else "DEV_TYPE: " + s.deviceType + "\r\n"
  {
    OptionalRendered(Name(SM_ID), "", s.smId);
    OptionalRendered(Name(SM_ID), " ", s.smId);
    OptionalRendered(Name(DEV_TYPE), "", s.deviceType);
    OptionalRendered(Name(DEV_TYPE), " ", s.deviceType);
    hide Render, Optional;
    assert "SM_ID" + ":" + "" == "SM_ID:" && "SM_ID" + ":" + " " == "SM_ID: ";
    assert "DEV_TYPE" + ":" + "" == "DEV_TYPE:" && "DEV_TYPE" + ":" + " " == "DEV_TYPE: ";
  }

  /** The texts of an alive message. */
  function AliveTexts(s: Service, address: string): seq<string> {
    ["NOTIFY * HTTP/1.1\r\n",
     "HOST:" + s.host + ":" + s.port + "\r\n",
     "CACHE-CONTROL:max-age=" + s.maxAge + "\r\n",
     "LOCATION:" + s.scheme + "://" + address + ":" + s.locationPort + "\r\n",
     "SERVER:" + s.product + "\r\n",
     "NT:" + s.target + "\r\n",
     "NTS:ssdp:alive\r\n",
     "USN:" + s.usn + "\r\n",
     if s.smId == "" then "" else "SM_ID:" + s.smId + "\r\n",
     if s.deviceType == "" then "" else "DEV_TYPE:" + s.deviceType + "\r\n",
     "\r\n"]
  }

  function ByeByeTexts(s: Service): seq<string> {
    ["NOTIFY * HTTP/1.1\r\n",
     "HOST:" + s.host + ":" + s.port + "\r\n",
     "NT:" + s.target + "\r\n",
     "NTS:ssdp:byebye\r\n",
     "USN:" + s.usn + "\r\n",
     "", "", "\r\n"]
  }

  function ResponseTexts(s: Service, address: string): seq<string> {
    ["HTTP/1.1 200 OK\r\n",
     "CACHE-CONTROL:max-age=" + s.maxAge + "\r\n",
     "DATE:\r\n",
     "EXT:\r\n",
     "LOCATION:" + s.scheme + "://" + address + ":" + s.locationPort + "\r\n",
     "SERVER:" + s.product + "\r\n",
     "ST:" + s.target + "\r\n",
     "USN:" + s.usn + "\r\n",
     if s.smId == "" then "" else "SM_ID: " + s.smId + "\r\n",
     if s.deviceType == "" then "" else "DEV_TYPE: " + s.deviceType + "\r\n",
     "\r\n"]
  }

  function SearchTexts(f: Finder): seq<string> {
    ["M-SEARCH * HTTP/1.1\r\n",
     "HOST:" + f.host + ":" + f.port + "\r\n",
     "MAN:\"ssdp:discover\"\r\n",
     "MX:5\r\n",
     if f.target == "" then "ST:ssdp:all\r\n" else "ST:" + f.target + "\r\n",
     "USER-AGENT:" + f.product + "\r\n",
     "", "", "\r\n"]
  }

  /** What a service sends, whatever the kind, is exactly these headers in this order. */
  lemma SentText(s: Service, k: Kind, address: string)
    requires GoodService(s)
    ensures Sent(s, k, address) == Concat(match k
      case AliveMessage => AliveTexts(s, address)
      case ByeByeMessage => ByeByeTexts(s)
      case ResponseMessage => ResponseTexts(s, address))
  {
    FormatTemplate(s, k, address);
    hide Sent, GoodService;
    match k
    case AliveMessage => AliveText(s, address);
    case ByeByeMessage => ByeByeText(s);
    case ResponseMessage => ResponseText(s, address);
  }

  lemma AliveText(s: Service, address: string)
    ensures StartLine(AliveMessage) + Render(Lines(s, AliveMessage, address)) + "\r\n" == Concat(AliveTexts(s, address))
  {
    var fixed := [
      Line(Name(HOST), s.host + ":" + s.port), Line(Name(CACHE_CONTROL), "max-age=" + s.maxAge),
      Line(Name(LOCATION), LocationText(s, address)), Line(Name(SERVER), s.product),
      Line(Name(NT), s.target), Line(Name(NTS), ALIVE), Line(Name(USN), s.usn)];
    var a, b := Optional(Name(SM_ID), "", s.smId), Optional(Name(DEV_TYPE), "", s.deviceType);
    var all := AliveTexts(s, address);
    LinesListed(s, address);
    ServiceLines(s, address);
    OptionalLines(s);
    hide Name, LocationText, Lines, Render, Concat, Optional, LineText;
    ListedText(StartLine(AliveMessage), fixed, all[1..8], a, b);
    assert all == [StartLine(AliveMessage)] + all[1..8] + [Render(a), Render(b), "\r\n"];
    assert Lines(s, AliveMessage, address) == fixed + a + b;
  }

  lemma ByeByeText(s: Service)
    ensures StartLine(ByeByeMessage) + Render(Lines(s, ByeByeMessage, "")) + "\r\n" == Concat(ByeByeTexts(s))
    ensures forall address :: Lines(s, ByeByeMessage, address) == Lines(s, ByeByeMessage, "")
  {
    var fixed := [Line(Name(HOST), s.host + ":" + s.port), Line(Name(NT), s.target), Line(Name(NTS), BYEBYE), Line(Name(USN), s.usn)];
    var all := ByeByeTexts(s);
    LinesListed(s, "");
    ServiceLines(s, "");
    assert Render([]) == "";
    assert forall address :: Lines(s, ByeByeMessage, address) == Before(s, ByeByeMessage) + [] + Behind(s, ByeByeMessage);
    hide Name, LocationText, Lines, Render, Concat, LineText;
    ListedText(StartLine(ByeByeMessage), fixed, all[1..5], [], []);
    assert all == [StartLine(ByeByeMessage)] + all[1..5] + ["", "", "\r\n"];
    assert fixed + [] + [] == fixed;
  }

  lemma ResponseText(s: Service, address: string)
    ensures StartLine(ResponseMessage) + Render(Lines(s, ResponseMessage, address)) + "\r\n" == Concat(ResponseTexts(s, address))
  {
    var fixed := [
      Line(Name(CACHE_CONTROL), "max-age=" + s.maxAge), Line(Name(DATE), ""), Line(Name(EXT), ""),
      Line(Name(LOCATION), LocationText(s, address)), Line(Name(SERVER), s.product),
      Line(Name(ST), s.target), Line(Name(USN), s.usn)];
    var a, b := Optional(Name(SM_ID), " ", s.smId), Optional(Name(DEV_TYPE), " ", s.deviceType);
    var all := ResponseTexts(s, address);
    LinesListed(s, address);
    ServiceLines(s, address);
    OptionalLines(s);
    hide Name, LocationText, Lines, Render, Concat, Optional, LineText;
    ListedText(StartLine(ResponseMessage), fixed, all[1..8], a, b);
    assert all == [StartLine(ResponseMessage)] + all[1..8] + [Render(a), Render(b), "\r\n"];
    assert Lines(s, ResponseMessage, address) == fixed + a + b;
  }

  lemma ServiceLines(s: Service, address: string)
    ensures LineText(Line(Name(HOST), s.host + ":" + s.port)) == "HOST:" + s.host + ":" + s.port + "\r\n"
    ensures LineText(Line(Name(CACHE_CONTROL), "max-age=" + s.maxAge)) == "CACHE-CONTROL:max-age=" + s.maxAge + "\r\n"
    ensures LineText(Line(Name(LOCATION), LocationText(s, address)))
      == "LOCATION:" + s.scheme + "://" + address + ":" + s.locationPort + "\r\n"
    ensures LineText(Line(Name(SERVER), s.product)) == "SERVER:" + s.product + "\r\n"
    ensures LineText(Line(Name(NT), s.target)) == "NT:" + s.target + "\r\n"
    ensures LineText(Line(Name(ST), s.target)) == "ST:" + s.target + "\r\n"
    ensures LineText(Line(Name(USN), s.usn)) == "USN:" + s.usn + "\r\n"
    ensures LineText(Line(Name(NTS), ALIVE)) == "NTS:ssdp:alive\r\n"
    ensures LineText(Line(Name(NTS), BYEBYE)) == "NTS:ssdp:byebye\r\n"
    ensures LineText(Line(Name(DATE), "")) == "DATE:\r\n" && LineText(Line(Name(EXT), "")) == "EXT:\r\n"
  {
    HostLine(s);
    AgeLine(s);
    LocationLine(s, address);
    FieldLines(s);
    FixedLines();
    hide LineText, Name;
  }

  /** What a finder sends: a search for its target, or for everything. */
  lemma SentSearchText(f: Finder)
    ensures SentSearch(f) == Concat(SearchTexts(f))
  {
    var fixed := SearchLines(f);
    var all := SearchTexts(f);
    SearchLineTexts(f);
    assert Render([]) == "";
    hide Name, Render, Concat, LineText;
    ListedText(HEADER_MSEARCH, fixed, all[1..6], [], []);
    assert all == [HEADER_MSEARCH] + all[1..6] + ["", "", "\r\n"];
    assert fixed + [] + [] == fixed;
  }

  lemma SearchFixedLines()
    ensures LineText(Line(Name(MAN), "\"ssdp:discover\"")) == "MAN:\"ssdp:discover\"\r\n"
    ensures LineText(Line(Name(MX), "5")) == "MX:5\r\n"
    ensures LineText(Line(Name(ST), "ssdp:all")) == "ST:ssdp:all\r\n"
  {
  }

  lemma SearchLineTexts(f: Finder)
    ensures LineText(Line(Name(HOST), f.host + ":" + f.port)) == "HOST:" + f.host + ":" + f.port + "\r\n"
    ensures LineText(Line(Name(MAN), "\"ssdp:discover\"")) == "MAN:\"ssdp:discover\"\r\n"
    ensures LineText(Line(Name(MX), "5")) == "MX:5\r\n"
    ensures LineText(Line(Name(ST), SearchTarget(f))) == if f.target == "" then "ST:ssdp:all\r\n" else "ST:" + f.target + "\r\n"
    ensures LineText(Line(Name(USER_AGENT), f.product)) == "USER-AGENT:" + f.product + "\r\n"
  {
    SearchFixedLines();
    assert "HOST" + ":" == "HOST:" && "ST" + ":" == "ST:" && "USER-AGENT" + ":" == "USER-AGENT:";
    hide LineText;
    NamedLine(HOST, "HOST:", f.host + ":" + f.port);
    NamedLine(ST, "ST:", f.target);
    NamedLine(USER_AGENT, "USER-AGENT:", f.product);
    assert "HOST:" + (f.host + ":" + f.port) + "\r\n" == "HOST:" + f.host + ":" + f.port + "\r\n";
  }
}
