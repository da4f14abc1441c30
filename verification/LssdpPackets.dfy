/** The text of SSDP packets: its lines, its header fields, and the buffers they are stored in. */
module LssdpPackets {
  import opened Wrappers
  import opened UrlChars

  const HEADER_MSEARCH := "M-SEARCH * HTTP/1.1\r\n"
  const HEADER_NOTIFY := "NOTIFY * HTTP/1.1\r\n"
  const HEADER_RESPONSE := "HTTP/1.1 200 OK\r\n"
  const ALIVE := "ssdp:alive"
  const BYEBYE := "ssdp:byebye"
  const ALL := "ssdp:all"
  const FIELD_LEN := 128
  const LOCATION_LEN := 256

  datatype Method = MSearch | Notify | Response

  /** The fields of a packet that have a buffer. */
  datatype Field = St | Usn | Location | Nts | SmId | DevType

  function BufferLength(f: Field): nat {
    if f == Location then LOCATION_LEN else FIELD_LEN
  }

  /** The buffers; before parsing they hold zeros. */
  type Buffers = map<Field, string>

  const FIELDS := {St, Usn, Location, Nts, SmId, DevType}

  predicate Sized(b: Buffers) {
    b.Keys == FIELDS && forall f | f in b :: |b[f]| == BufferLength(f)
  }

  function Zeros(n: nat): (z: string)
    ensures |z| == n && forall i | 0 <= i < n :: z[i] == '\0'
  {
    seq(n, i => '\0')
  }

  function Cleared(): Buffers {
    map f | f in FIELDS :: Zeros(BufferLength(f))
  }

  /** The C string in a buffer. */
  function Text(buffer: string): string {
    buffer[..IndexOfAny(buffer, {'\0'})]
  }

  /** Copies the value over the start of the buffer, leaving its last byte alone. */
  function Store(buffer: string, value: string): string
    requires |buffer| > 0
  {
    var n := if |value| < |buffer| then |value| else |buffer| - 1;
    value[..n] + buffer[n..]
  }

  predicate Visible(c: char) {
    '!' <= c <= '~'
  }

  function TrimLeft(s: string): (r: string)
    ensures |r| <= |s| && r == s[|s| - |r|..]
    ensures forall i | 0 <= i < |s| - |r| :: !Visible(s[i])
    ensures r != "" ==> Visible(r[0])
  {
    if s == "" || Visible(s[0]) then s else TrimLeft(s[1..])
  }

  function TrimRight(s: string): (r: string)
    ensures |r| <= |s| && r == s[..|r|]
    ensures forall i | |r| <= i < |s| :: !Visible(s[i])
    ensures r != "" ==> Visible(r[|r| - 1])
  {
    if s == "" || Visible(s[|s| - 1]) then s else TrimRight(s[..|s| - 1])
  }

  function Trim(s: string): string {
    TrimRight(TrimLeft(s))
  }

  /** Name and value of a header line, or nothing if either is missing. */
  function ParseLine(line: string): Option<(string, string)>
    requires line != ""
  {
    var colon := 1 + IndexOfAny(line[1..], {':'});
    if line[0] == ':' || colon == |line| || Trim(line[..colon]) == "" || Trim(line[colon + 1..]) == "" then None
    else Some((Trim(line[..colon]), Trim(line[colon + 1..])))
  }

  // What a line is read as.

  predicate Blank(t: string) {
    forall i | 0 <= i < |t| :: !('!' <= t[i] <= '~')
  }

  /** Text that begins and ends with a visible character. */
  predicate Core(t: string) {
    t != "" && '!' <= t[0] <= '~' && '!' <= t[|t| - 1] <= '~'
  }

  /** The text with blanks around it, or none. */
  ghost predicate Around(s: string, t: string) {
    exists p, q :: Blank(p) && Blank(q) && s == p + t + q
  }

  lemma TrimIsAround(s: string)
    ensures Around(s, Trim(s)) && (Trim(s) == "" || Core(Trim(s)))
  {
    var l := TrimLeft(s);
    var r := TrimRight(l);
    hide TrimLeft, TrimRight;
    var p, q := s[..|s| - |l|], l[|r|..];
    assert forall i | 0 <= i < |q| :: q[i] == l[|r| + i];
    assert Blank(p) && Blank(q);
    hide Blank;
    assert s == p + r + q;
    assert r != "" ==> r[0] == l[0];
  }

  /** A text trimmed to something is that text with blanks around it, and the other way round. */
  lemma TrimExact(s: string, t: string)
    requires Core(t)
    ensures Trim(s) == t <==> Around(s, t)
  {
    TrimIsAround(s);
    hide Trim, Blank;
    if p, q :| Blank(p) && Blank(q) && s == p + t + q {
      TrimCore(p, t, q);
    }
  }

  lemma TrimCore(p: string, t: string, q: string)
    requires Blank(p) && Core(t) && Blank(q)
    ensures Trim(p + t + q) == t
  {
    hide TrimLeft, TrimRight;
    CutLeft(p, t + q);
    CutRight(t, q);
    assert p + t + q == p + (t + q);
  }

  lemma {:induction false} CutLeft(p: string, s: string)
    requires Blank(p) && s != "" && Visible(s[0])
    ensures TrimLeft(p + s) == s
  {
    var t := p + s;
    if p == "" {
      assert t == s;
      assert TrimLeft(s) == s;
    } else {
      assert t[1..] == p[1..] + s && t[0] == p[0];
      assert TrimLeft(t) == TrimLeft(t[1..]);
      hide TrimLeft, Visible;
      CutLeft(p[1..], s);
    }
  }

  lemma {:induction false} CutRight(s: string, q: string)
    requires Blank(q) && s != "" && Visible(s[|s| - 1])
    ensures TrimRight(s + q) == s
  {
    if q == "" {
      assert s + q == s;
    } else {
      CutRight(s, q[..|q| - 1]);
      assert (s + q)[..|s + q| - 1] == s + q[..|q| - 1];
    }
  }

  /** A header line: name and value with blanks around them, and the first colon between them. */
  ghost predicate HeaderLine(line: string, name: string, value: string) {
    Core(name) && Core(value)
    && exists a, b :: Around(a, name) && Around(b, value) && ':' !in a && line == a + ":" + b
  }

  /** Exactly the header lines are parsed, to their names and values. */
  lemma ParseLineExact(line: string, name: string, value: string)
    requires line != ""
    ensures ParseLine(line) == Some((name, value)) <==> HeaderLine(line, name, value)
  {
    hide Trim, IndexOfAny, Blank, Core, Around;
    if ParseLine(line) == Some((name, value)) {
      LineIsHeader(line, name, value);
    }
    if HeaderLine(line, name, value) {
      var a, b :| Around(a, name) && Around(b, value) && ':' !in a && line == a + ":" + b;
      CoreNotEmpty(name, a);
      CoreNotEmpty(value, b);
      TrimExact(a, name);
      TrimExact(b, value);
      FirstColon(a, b);
    }
  }

  lemma CoreNotEmpty(t: string, s: string)
    requires Core(t) && Around(s, t)
    ensures t != "" && s != ""
  {
  }

  lemma LineIsHeader(line: string, name: string, value: string)
    requires line != "" && ParseLine(line) == Some((name, value))
    ensures HeaderLine(line, name, value)
  {
    hide Trim, IndexOfAny, Around, Core;
    var colon := 1 + IndexOfAny(line[1..], {':'});
    var a, b := line[..colon], line[colon + 1..];
    assert line == a + ":" + b;
    assert forall i | 1 <= i < |a| :: a[i] == line[1..][i - 1];
    TrimIsAround(a);
    TrimIsAround(b);
  }

  lemma FirstColon(a: string, b: string)
    requires a != "" && ':' !in a
    ensures var line := a + ":" + b;
      line[0] != ':' && 1 + IndexOfAny(line[1..], {':'}) == |a| && line[..|a|] == a && line[|a| + 1..] == b
  {
    hide IndexOfAny;
    var line := a + ":" + b;
    assert line[0] == a[0] && a[0] in a;
    assert forall i | 0 <= i < |a| - 1 :: line[1..][i] == a[i + 1] && a[i + 1] in a;
    IndexOfAnyIs(line[1..], {':'}, |a| - 1);
  }

  predicate EqualsIgnoreCase(name: string, lower: string) {
    |name| == |lower| && forall i | 0 <= i < |name| :: LowerChar(name[i]) == lower[i]
  }

  function FieldOf(name: string): Option<Field> {
    if EqualsIgnoreCase(name, "st") || EqualsIgnoreCase(name, "nt") then Some(St)
    else if EqualsIgnoreCase(name, "usn") then Some(Usn)
    else if EqualsIgnoreCase(name, "location") then Some(Location)
    else if EqualsIgnoreCase(name, "sm_id") then Some(SmId)
    else if EqualsIgnoreCase(name, "dev_type") then Some(DevType)
    else if EqualsIgnoreCase(name, "nts") then Some(Nts)
    else None
  }

  /** The seven names that have a buffer, in any mixture of upper and lower case; no other name has one. */
  lemma FieldOfExact(name: string)
    ensures FieldOf(name) == Some(St) <==> ToLower(name) in {"st", "nt"}
    ensures FieldOf(name) == Some(Usn) <==> ToLower(name) == "usn"
    ensures FieldOf(name) == Some(Location) <==> ToLower(name) == "location"
    ensures FieldOf(name) == Some(SmId) <==> ToLower(name) == "sm_id"
    ensures FieldOf(name) == Some(DevType) <==> ToLower(name) == "dev_type"
    ensures FieldOf(name) == Some(Nts) <==> ToLower(name) == "nts"
  {
    hide ToLower, LowerChar;
    assert forall lower :: EqualsIgnoreCase(name, lower) <==> ToLower(name) == lower;
    hide EqualsIgnoreCase;
  }

  /** Stores the value of a line in the buffer of its field, if it has one. */
  function StoreLine(b: Buffers, name: string, value: string): (r: Buffers)
    requires Sized(b)
    ensures Sized(r)
  {
    match FieldOf(name)
    case None => b
    case Some(f) => b[f := Store(b[f], value)]
  }

  function StoreParsed(b: Buffers, line: string): (r: Buffers)
    requires Sized(b) && line != ""
    ensures Sized(r)
  {
    var parsed := ParseLine(line);
    if parsed.None? then b else StoreLine(b, parsed.value.0, parsed.value.1)
  }

  /** The position of the newline that ends the line s starts with; a line is not empty. */
  predicate EndsLine(s: string, i: nat) {
    2 <= i < |s| && s[i] == '\n' && s[i - 1] == '\r'
  }

  function LineEnd(s: string, from: nat): (end: nat)
    requires from <= |s|
    ensures from <= end <= |s|
    ensures end < |s| ==> EndsLine(s, end)
    ensures forall i: nat | from <= i < end :: !EndsLine(s, i)
    decreases |s| - from
  {
    if from == |s| || EndsLine(s, from) then from else LineEnd(s, from + 1)
  }

  function ParseFields(s: string, b: Buffers): (r: Buffers)
    requires Sized(b)
    ensures Sized(r)
    decreases |s|
  {
    var end := LineEnd(s, 0);
    if end == |s| then b else ParseFields(s[end + 1..], StoreParsed(b, s[..end - 1]))
  }

  datatype Packet = Packet(kind: Method, buffers: Buffers) {
    predicate Valid() {
      Sized(buffers)
    }

    /** The text of a field, as strcmp and the string constructor see it. */
    function Field(f: Field): string
      requires Valid()
    {
      assert f == St || f == Usn || f == Location || f == Nts || f == SmId || f == DevType;
      Text(buffers[f])
    }
  }

  predicate StartsWith(s: string, header: string) {
    |header| < |s| && s[..|header|] == header
  }

  function ParseKind(data: string): Option<(Method, nat)> {
    if StartsWith(data, HEADER_MSEARCH) then Some((MSearch, |HEADER_MSEARCH|))
    else if StartsWith(data, HEADER_NOTIFY) then Some((Notify, |HEADER_NOTIFY|))
    else if StartsWith(data, HEADER_RESPONSE) then Some((Response, |HEADER_RESPONSE|))
    else None
  }

  /** The packet a received text is parsed to. */
  function Parse(data: string): (r: Option<Packet>)
    ensures r.Some? ==> r.value.Valid()
  {
    if '\0' in data then None
    else match ParseKind(data)
      case None => None
      case Some((kind, start)) =>
        if start > |data| then None
        else Some(Packet(kind, ParseFields(data[start..], Cleared())))
  }

  /** A text that no line ends in: behind its first character there is no "\r\n" in it. */
  predicate Unbroken(t: string) {
    forall i | 2 <= i < |t| :: !(t[i - 1] == '\r' && t[i] == '\n')
  }

  /** Lines end at "\r\n" and nowhere else; what is not ended is not read. */
  lemma FieldsExact(line: string, more: string, b: Buffers)
    requires Sized(b) && line != "" && Unbroken(line)
    ensures ParseFields(line, b) == b
    ensures ParseFields(line + "\r\n" + more, b) == ParseFields(more, StoreParsed(b, line))
  {
    hide StoreParsed, LineEnd, Sized;
    FieldsUnfold(line, b);
    FieldsUnfold(line + "\r\n" + more, b);
    UnbrokenEnd(line, more);
  }

  lemma UnbrokenEnd(line: string, more: string)
    requires line != "" && Unbroken(line)
    ensures LineEnd(line, 0) == |line|
    ensures var s := line + "\r\n" + more;
      LineEnd(s, 0) == |line| + 1 && s[..|line|] == line && s[|line| + 2..] == more
  {
    var s := line + "\r\n" + more;
    var end := LineEnd(line, 0);
    assert EndsLine(s, |line| + 1);
    assert forall i: nat | i < |line| :: s[i] == line[i];
    assert s[|line|] == '\r';
    assert forall i: nat | i <= |line| :: !EndsLine(s, i);
  }

  /** A value is written over the start of the buffer; the rest, and always the last byte, stays. */
  lemma StoreExact(buffer: string, value: string)
    requires |buffer| > 0
    ensures |Store(buffer, value)| == |buffer|
    ensures forall i | 0 <= i < |buffer| :: Store(buffer, value)[i] == (if i < |value| && i < |buffer| - 1 then value[i] else buffer[i])
  {
  }

  /** The texts that are parsed: without a zero, and with one of three start lines and something behind it. */
  lemma ParseAccepts(data: string)
    ensures Parse(data).Some? ==> '\0' !in data
    ensures var start := "M-SEARCH * HTTP/1.1\r\n" < data || "NOTIFY * HTTP/1.1\r\n" < data || "HTTP/1.1 200 OK\r\n" < data;
      '\0' !in data ==> (Parse(data).Some? <==> start)
  {
    hide ParseFields, Cleared;
  }

  function StartLineOf(kind: Method): string {
    match kind
    case MSearch => "M-SEARCH * HTTP/1.1\r\n"
    case Notify => "NOTIFY * HTTP/1.1\r\n"
    case Response => "HTTP/1.1 200 OK\r\n"
  }

  /** What is behind the start line is read into buffers of zeros. */
  lemma ParsedPacket(kind: Method, rest: string)
    requires rest != "" && '\0' !in rest
    ensures Parse(StartLineOf(kind) + rest) == Some(Packet(kind, ParseFields(rest, Cleared())))
  {
    var start := StartLineOf(kind);
    NoZeroInStart(kind);
    StartIsParsed(start, rest);
    KindIsParsed(kind, rest);
    hide ParseFields, Cleared, StartLineOf, ParseKind;
  }

  lemma NoZeroInStart(kind: Method)
    ensures '\0' !in StartLineOf(kind)
  {
  }

  lemma StartIsParsed(start: string, rest: string)
    requires rest != "" && '\0' !in rest && '\0' !in start
    ensures '\0' !in start + rest && (start + rest)[..|start|] == start && (start + rest)[|start|..] == rest
  {
  }

  lemma KindIsParsed(kind: Method, rest: string)
    requires rest != ""
    ensures ParseKind(StartLineOf(kind) + rest) == Some((kind, |StartLineOf(kind)|))
  {
    var start := StartLineOf(kind);
    var data := start + rest;
    assert data[..|start|] == start;
    assert data[0] == start[0] && |data| > |start|;
    if kind != MSearch && |data| > |HEADER_MSEARCH| {
      assert data[..|HEADER_MSEARCH|][0] != 'M';
    }
    if kind == Response && |data| > |HEADER_NOTIFY| {
      assert data[..|HEADER_NOTIFY|][0] != 'N';
    }
  }

  // Parsing what lines were printed to.

  /** A header line before printing. */
  datatype Line = Line(name: string, value: string)

  function Render(lines: seq<Line>): string {
    if lines == [] then "" else lines[0].name + ":" + lines[0].value + "\r\n" + Render(lines[1..])
  }

  /** A name a line can have: visible characters, no colon. */
  predicate GoodName(name: string) {
    name != "" && forall i | 0 <= i < |name| :: Visible(name[i]) && name[i] != ':'
  }

  ghost predicate GoodLines(lines: seq<Line>) {
    forall i | 0 <= i < |lines| :: GoodName(lines[i].name) && '\n' !in lines[i].value && '\0' !in lines[i].value
  }

  function StoreLines(b: Buffers, lines: seq<Line>): (r: Buffers)
    requires Sized(b)
    ensures Sized(r)
  {
    if lines == [] then b
    else
      var value := Trim(lines[0].value);
      StoreLines(if value == "" then b else StoreLine(b, lines[0].name, value), lines[1..])
  }

  lemma TrimVisible(s: string)
    requires s == "" || (Visible(s[0]) && Visible(s[|s| - 1]))
    ensures Trim(s) == s
  {
  }

  lemma NoColonInName(l: Line)
    requires GoodName(l.name)
    ensures var text := l.name + ":" + l.value;
      l.name != "" && text[0] != ':' && IndexOfAny(text[1..], {':'}) == |l.name| - 1
  {
    hide IndexOfAny;
    var text := l.name + ":" + l.value;
    IndexOfAnyIs(text[1..], {':'}, |l.name| - 1);
  }

  lemma ParsePrintedLine(l: Line)
    requires GoodName(l.name)
    ensures var text := l.name + ":" + l.value;
      text != "" && ParseLine(text) == (if Trim(l.value) == "" then None else Some((l.name, Trim(l.value))))
  {
    hide TrimLeft, TrimRight, Trim, IndexOfAny;
    var text := l.name + ":" + l.value;
    TrimVisible(l.name);
    NoColonInName(l);
    hide GoodName, Visible;
    assert text[..|l.name|] == l.name && text[|l.name| + 1..] == l.value;
  }

  lemma PrintedLineEnd(l: Line, more: string)
    requires GoodName(l.name) && '\n' !in l.value
    ensures var text := l.name + ":" + l.value; var s := text + "\r\n" + more;
      LineEnd(s, 0) == |text| + 1 && s[..|text|] == text && s[|text| + 2..] == more
  {
    var text := l.name + ":" + l.value;
    var s := text + "\r\n" + more;
    var end := LineEnd(s, 0);
    assert EndsLine(s, |text| + 1);
    assert forall i | 0 <= i < |text| :: s[i] == text[i] != '\n';
    assert s[|text|] == '\r';
  }

  lemma NoLineEnd()
    ensures LineEnd("\r\n", 0) == 2
  {
  }

  lemma FieldsUnfold(s: string, b: Buffers)
    requires Sized(b)
    ensures var end := LineEnd(s, 0);
      ParseFields(s, b) == if end == |s| then b else ParseFields(s[end + 1..], StoreParsed(b, s[..end - 1]))
  {
    hide StoreParsed, LineEnd, EndsLine, Sized;
  }

  /** The lines of a message, closed by an empty one, are stored in order. */
  lemma {:induction false} ParsePrintedLines(lines: seq<Line>, b: Buffers)
    requires GoodLines(lines) && Sized(b)
    ensures ParseFields(Render(lines) + "\r\n", b) == StoreLines(b, lines)
  {
    hide LineEnd, ParseLine, Trim, StoreLine, ParseFields, Sized;
    FieldsUnfold(Render(lines) + "\r\n", b);
    if lines == [] {
      assert Render(lines) + "\r\n" == "\r\n";
      NoLineEnd();
    } else {
      var l := lines[0];
      var text := l.name + ":" + l.value;
      var more := Render(lines[1..]) + "\r\n";
      assert Render(lines) + "\r\n" == text + "\r\n" + more;
      PrintedLineEnd(l, more);
      ParsePrintedLine(l);
      ParsePrintedLines(lines[1..], StoreParsed(b, text));
    }
  }

  // What is found in the buffers.

  /** No two lines go to the same buffer. */
  ghost predicate OncePerField(lines: seq<Line>) {
    forall i, j | 0 <= i < j < |lines| && FieldOf(lines[i].name).Some? :: FieldOf(lines[i].name) != FieldOf(lines[j].name)
  }

  /** A value that is already trimmed. */
  predicate Clean(value: string) {
    && '\0' !in value
    && (value == "" || (Visible(value[0]) && Visible(value[|value| - 1])))
  }

  /** What the buffer of a field has room for, next to the closing zero. */
  function Cut(value: string, f: Field): (r: string)
    ensures r == value <==> |value| < BufferLength(f)
  {
    if |value| < BufferLength(f) then value else value[..BufferLength(f) - 1]
  }

  /** The location is cut to 255 characters, every other field to 127. */
  lemma CutExact(value: string, f: Field)
    ensures var room := if f == Location then 255 else 127;
      Cut(value, f) == if |value| <= room then value else value[..room]
  {
  }

  lemma StoreInZeros(f: Field, value: string)
    requires '\0' !in value
    ensures Text(Store(Zeros(BufferLength(f)), value)) == Cut(value, f)
  {
    var buffer := Store(Zeros(BufferLength(f)), value);
    var n := |Cut(value, f)|;
    assert buffer[..n] == Cut(value, f) && buffer[n] == '\0';
    IndexOfAnyIs(buffer, {'\0'}, n);
  }

  lemma {:induction false} OthersKeepField(b: Buffers, lines: seq<Line>, f: Field)
    requires Sized(b)
    requires forall i | 0 <= i < |lines| :: FieldOf(lines[i].name) != Some(f) || Trim(lines[i].value) == ""
    ensures StoreLines(b, lines)[f] == b[f]
  {
    hide FieldOf, Trim, Store;
    if lines != [] {
      var value := Trim(lines[0].value);
      OthersKeepField(if value == "" then b else StoreLine(b, lines[0].name, value), lines[1..], f);
    }
  }

  /** The field of the only line for it holds the trimmed value of that line, as far as there is room. */
  lemma {:induction false} FieldOfLine(b: Buffers, lines: seq<Line>, i: nat, f: Field)
    requires Sized(b) && b[f] == Zeros(BufferLength(f))
    requires OncePerField(lines) && i < |lines| && FieldOf(lines[i].name) == Some(f)
    requires '\0' !in Trim(lines[i].value)
    ensures Text(StoreLines(b, lines)[f]) == Cut(Trim(lines[i].value), f)
  {
    hide FieldOf, Trim, Store, Text;
    var value := Trim(lines[0].value);
    var b1 := if value == "" then b else StoreLine(b, lines[0].name, value);
    if i == 0 {
      assert forall j | 0 <= j < |lines[1..]| :: lines[1..][j] == lines[j + 1];
      OthersKeepField(b1, lines[1..], f);
      StoreInZeros(f, value);
      EmptyText(f);
    } else {
      assert lines[1..][i - 1] == lines[i];
      FieldOfLine(b1, lines[1..], i - 1, f);
    }
  }

  lemma EmptyText(f: Field)
    ensures Text(Zeros(BufferLength(f))) == ""
  {
  }

  /** The field of no line is empty. */
  lemma FieldOfNoLine(lines: seq<Line>, f: Field)
    requires forall i | 0 <= i < |lines| :: FieldOf(lines[i].name) != Some(f)
    ensures Text(StoreLines(Cleared(), lines)[f]) == ""
  {
    hide StoreLines, FieldOf, Trim;
    OthersKeepField(Cleared(), lines, f);
    EmptyText(f);
  }
}
