/** Packets as they are read in place: index loops over the received text, and buffers of fixed length. */
module LssdpReader {
  import opened Wrappers
  import opened UrlChars
  import opened LssdpPackets
  import opened LssdpMessages
  import opened LssdpDiscovery

  /** The first colon from start to end. */
  method GetColonIndex(s: string, start: nat, end: nat) returns (r: int)
    requires start <= end + 1 <= |s|
    ensures r == (if ':' in s[start..end + 1] then start + IndexOfAny(s[start..end + 1], {':'}) else -1)
  {
    var i := start;
    while i <= end
      invariant start <= i <= end + 1
      invariant forall k | start <= k < i :: s[k] != ':'
    {
      if s[i] == ':' {
        IndexOfAnyIs(s[start..end + 1], {':'}, i - start);
        assert s[start..end + 1][i - start] == ':';
        return i;
      }
      i := i + 1;
    }
    return -1;
  }

  lemma SubSlice(s: string, a: nat, b: nat, i: nat, j: nat)
    requires a <= i <= j <= b <= |s|
    ensures s[a..b][i - a..j - a] == s[i..j]
  {
    var t := s[a..b];
    assert forall k | i <= k < j :: t[k - a] == s[k];
  }

  lemma TrimLeftAt(t: string, i: nat)
    requires i <= |t| && (i < |t| ==> Visible(t[i]))
    requires forall k | 0 <= k < i :: !Visible(t[k])
    ensures TrimLeft(t) == t[i..]
  {
    var r := TrimLeft(t);
    var n := |t| - |r|;
    hide TrimLeft, Visible;
    assert n == i;
  }

  lemma TrimRightAt(t: string, j: nat)
    requires j <= |t| && (j > 0 ==> Visible(t[j - 1]))
    requires forall k | j <= k < |t| :: !Visible(t[k])
    ensures TrimRight(t) == t[..j]
  {
    var r := TrimRight(t);
    var n := |r|;
    hide TrimRight, Visible;
    assert n == j;
  }

  lemma TrimBounds(t: string, i: nat, j: nat)
    requires i <= |t| && j <= |t|
    requires forall k | 0 <= k < i :: !Visible(t[k])
    requires forall k | j <= k < |t| :: !Visible(t[k])
    requires i < |t| ==> Visible(t[i])
    requires j > 0 ==> Visible(t[j - 1])
    ensures Trim(t) == if i < j then t[i..j] else ""
  {
    hide TrimLeft, TrimRight, Visible;
    TrimLeftAt(t, i);
    var l := t[i..];
    if i < j {
      assert l[j - i - 1] == t[j - 1];
      TrimRightAt(l, j - i);
      assert l[..j - i] == t[i..j];
    } else {
      TrimRightAt(l, 0);
    }
  }

  /** The positions of the first and the last visible character from start to end. */
  method TrimSpaces(s: string, start: nat, end: nat) returns (ok: bool, first: nat, last: nat)
    requires start <= end < |s|
    ensures ok <==> Trim(s[start..end + 1]) != ""
    ensures ok ==> start <= first <= last <= end && s[first..last + 1] == Trim(s[start..end + 1])
  {
    hide Trim, Visible;
    var i: int, j: int := start, end;
    while i <= end && !Visible(s[i])
      invariant start <= i <= end + 1
      invariant forall k | start <= k < i :: !Visible(s[k])
    {
      i := i + 1;
    }
    while j >= start && !Visible(s[j])
      invariant start - 1 <= j <= end
      invariant forall k | j < k <= end :: !Visible(s[k])
    {
      j := j - 1;
    }
    TrimBounds(s[start..end + 1], i - start, j + 1 - start);
    if i > j {
      return false, start, end;
    }
    SubSlice(s, start, end + 1, i, j + 1);
    return true, i, j;
  }

  /** Copies the value over the start of the buffer; its last byte is not written to. */
  method CopyValue(buffer: array<char>, value: string)
    requires buffer.Length > 0
    modifies buffer
    ensures buffer[..] == Store(old(buffer[..]), value)
  {
    var n := if |value| < buffer.Length then |value| else buffer.Length - 1;
    forall i | 0 <= i < n {
      buffer[i] := value[i];
    }
    assert buffer[..n] == value[..n];
    assert buffer[n..] == old(buffer[n..]);
  }

  /** A line is known if its colon ends it, or if its value was stored. */
  predicate Known(line: string)
    requires line != ""
  {
    && line[0] != ':'
    && (|line| - 1 == 1 + IndexOfAny(line[1..], {':'})
        || (ParseLine(line).Some? && FieldOf(ParseLine(line).value.0).Some?))
  }

  class LssdpPacket {
    var kind: Option<Method>
    const st: array<char>
    const usn: array<char>
    const location: array<char>
    const nts: array<char>
    const smId: array<char>
    const devType: array<char>

    ghost const Repr: set<object> := {this, st, usn, location, nts, smId, devType}

    ghost predicate Valid() {
      && st.Length == FIELD_LEN && usn.Length == FIELD_LEN && location.Length == LOCATION_LEN
      && nts.Length == FIELD_LEN && smId.Length == FIELD_LEN && devType.Length == FIELD_LEN
      && |{st, usn, location, nts, smId, devType}| == 6
    }

    ghost function Contents(): (b: Buffers)
      requires Valid()
      reads Repr
      ensures Sized(b)
    {
      map[St := st[..], Usn := usn[..], Location := location[..], Nts := nts[..], SmId := smId[..], DevType := devType[..]]
    }

    constructor ()
      ensures Valid() && fresh(Repr)
      ensures kind == None && Contents() == Cleared()
    {
      kind := None;
      st := new char[FIELD_LEN](_ => '\0');
      usn := new char[FIELD_LEN](_ => '\0');
      location := new char[LOCATION_LEN](_ => '\0');
      nts := new char[FIELD_LEN](_ => '\0');
      smId := new char[FIELD_LEN](_ => '\0');
      devType := new char[FIELD_LEN](_ => '\0');
      new;
      assert st[..] == Zeros(FIELD_LEN) && usn[..] == Zeros(FIELD_LEN) && location[..] == Zeros(LOCATION_LEN);
      assert nts[..] == Zeros(FIELD_LEN) && smId[..] == Zeros(FIELD_LEN) && devType[..] == Zeros(FIELD_LEN);
    }

    /** Reads the line from start to end; known if its value is missing or was stored. */
    method ParseFieldLine(data: string, start: nat, end: nat) returns (known: bool)
      requires Valid() && start <= end < |data|
      modifies Repr - {this}
      ensures known == Known(data[start..end + 1])
      ensures Contents() == StoreParsed(old(Contents()), data[start..end + 1])
    {
      hide ParseLine, Trim, IndexOfAny, StoreLine;
      ghost var line := data[start..end + 1];
      if data[start] == ':' {
        ColonLine(line);
        return false;
      }
      var colon := GetColonIndex(data, start + 1, end);
      if colon == -1 {
        assert line[1..] == data[start + 1..end + 1];
        NoColon(line);
        return false;
      }
      LineAround(data, start, colon, end);
      assert line[1..] == data[start + 1..end + 1];
      TrimEmpty();
      if colon == end {
        assert data[colon + 1..end + 1] == "";
        return true;
      }
      var named, i, j := TrimSpaces(data, start, colon - 1);
      if !named {
        return false;
      }
      var name := data[i..j + 1];
      named, i, j := TrimSpaces(data, colon + 1, end);
      if !named {
        return false;
      }
      known := SetField(name, data[i..j + 1]);
    }

    /** Stores the value in the buffer of the field with the name, if there is one. */
    method SetField(name: string, value: string) returns (known: bool)
      requires Valid()
      modifies Repr - {this}
      ensures known == FieldOf(name).Some?
      ensures Contents() == StoreLine(old(Contents()), name, value)
    {
      hide EqualsIgnoreCase, Store;
      if EqualsIgnoreCase(name, "st") {
        CopyValue(st, value);
        return true;
      }
      if EqualsIgnoreCase(name, "nt") {
        CopyValue(st, value);
        return true;
      }
      if EqualsIgnoreCase(name, "usn") {
        CopyValue(usn, value);
        return true;
      }
      if EqualsIgnoreCase(name, "location") {
        CopyValue(location, value);
        return true;
      }
      if EqualsIgnoreCase(name, "sm_id") {
        CopyValue(smId, value);
        return true;
      }
      if EqualsIgnoreCase(name, "dev_type") {
        CopyValue(devType, value);
        return true;
      }
      if EqualsIgnoreCase(name, "nts") {
        CopyValue(nts, value);
        return true;
      }
      return false;
    }

    method Parse(data: string) returns (ok: bool)
      requires Valid()
      modifies Repr
      ensures ok <==> '\0' !in data && ParseKind(data).Some?
      ensures !ok ==> kind == old(kind) && Contents() == old(Contents())
      ensures ok ==> kind == Some(ParseKind(data).value.0)
      ensures ok ==> Contents() == ParseFields(data[ParseKind(data).value.1..], old(Contents()))
      ensures old(Contents()) == Cleared() ==>
        LssdpPackets.Parse(data) == if ok then Some(Packet(kind.value, Contents())) else None
    {
      hide ParseFields, IndexOfAny, Cleared;
      if IndexOfAny(data, {'\0'}) != |data| {
        return false;
      }
      var start: nat;
      if |HEADER_MSEARCH| < |data| && data[..|HEADER_MSEARCH|] == HEADER_MSEARCH {
        start := |HEADER_MSEARCH|;
        kind := Some(MSearch);
      } else if |HEADER_NOTIFY| < |data| && data[..|HEADER_NOTIFY|] == HEADER_NOTIFY {
        start := |HEADER_NOTIFY|;
        kind := Some(Notify);
      } else if |HEADER_RESPONSE| < |data| && data[..|HEADER_RESPONSE|] == HEADER_RESPONSE {
        start := |HEADER_RESPONSE|;
        kind := Some(Response);
      } else {
        return false;
      }
      ParseLines(data, start);
      return true;
    }

    method ParseLines(data: string, header: nat)
      requires Valid() && 2 <= header <= |data|
      modifies Repr - {this}
      ensures Contents() == ParseFields(data[header..], old(Contents()))
    {
      hide StoreParsed, ParseFields, LineEnd, EndsLine, Known;
      var start := header;
      var i := start;
      while i < |data|
        invariant header <= start <= i <= |data|
        invariant ParseFields(data[header..], old(Contents())) == ParseFields(data[start..], Contents())
        invariant forall k: nat | k < i - start :: !EndsLine(data[start..], k)
      {
        NewlineAt(data, start, i);
        if data[i] == '\n' && i - 1 > start && data[i - 1] == '\r' {
          FirstLineEnd(data[start..], i - start);
          FieldsStep(data, start, i, Contents());
          var _ := ParseFieldLine(data, start, i - 2);
          start := i + 1;
        }
        i := i + 1;
      }
      FieldsEnd(data[start..], Contents());
    }
  }

  /** The first line that ends is stored, and what is behind it is read next. */
  lemma FieldsStep(data: string, start: nat, i: nat, b: Buffers)
    requires Sized(b) && start + 2 <= i < |data| && LineEnd(data[start..], 0) == i - start
    ensures ParseFields(data[start..], b) == ParseFields(data[i + 1..], StoreParsed(b, data[start..i - 1]))
  {
    hide StoreParsed, LineEnd, ParseFields, EndsLine, Sized;
    AroundNewline(data, start, i);
    FieldsUnfold(data[start..], b);
  }

  lemma NewlineAt(data: string, start: nat, i: nat)
    requires start <= i < |data|
    ensures EndsLine(data[start..], i - start) <==> i - start >= 2 && data[i] == '\n' && data[i - 1] == '\r'
  {
  }

  lemma AroundNewline(data: string, start: nat, i: nat)
    requires start + 2 <= i < |data|
    ensures data[start..][i - start + 1..] == data[i + 1..]
    ensures data[start..][..i - start - 1] == data[start..i - 1]
  {
  }

  lemma FirstLineEnd(s: string, end: nat)
    requires EndsLine(s, end) && forall k: nat | k < end :: !EndsLine(s, k)
    ensures LineEnd(s, 0) == end
  {
  }

  lemma FieldsEnd(s: string, b: Buffers)
    requires Sized(b) && forall k: nat | k < |s| :: !EndsLine(s, k)
    ensures ParseFields(s, b) == b
  {
  }

  lemma ColonLine(line: string)
    requires line != "" && line[0] == ':'
    ensures ParseLine(line).None?
  {
  }

  lemma NoColon(line: string)
    requires line != "" && ':' !in line[1..]
    ensures ParseLine(line).None?
  {
  }

  /** A line is read from the texts around its colon. */
  lemma LineAround(data: string, start: nat, colon: nat, end: nat)
    requires start < colon <= end < |data| && data[start] != ':'
    requires colon == start + 1 + IndexOfAny(data[start + 1..end + 1], {':'})
    ensures var name := Trim(data[start..colon]); var value := Trim(data[colon + 1..end + 1]);
      ParseLine(data[start..end + 1]) == if name == "" || value == "" then None else Some((name, value))
  {
    hide Trim, IndexOfAny;
    var line := data[start..end + 1];
    assert line[1..] == data[start + 1..end + 1];
    assert line[..colon - start] == data[start..colon];
    assert line[colon - start + 1..] == data[colon + 1..end + 1];
  }

  lemma TrimEmpty()
    ensures Trim("") == ""
  {
  }

  // The receiving loops; the texts are those that arrive before a loop is left.

  /** What strcmp sees of a buffer. */
  function CText(buffer: array<char>): string
    reads buffer
  {
    Text(buffer[..])
  }

  /** The callbacks of a finder, one packet after the other. */
  method CheckForServices(f: Finder, received: seq<string>) returns (events: seq<Event>)
    ensures events == Events(f, received)
  {
    hide Observe, Sized;
    events := [];
    for n := 0 to |received|
      invariant events + Events(f, received[n..]) == Events(f, received)
    {
      var event := ReceiveUpdate(f, received[n]);
      assert received[n..][1..] == received[n + 1..];
      if event.Some? {
        assert events + ([event.value] + Events(f, received[n + 1..])) == events + [event.value] + Events(f, received[n + 1..]);
        events := events + [event.value];
      } else {
        assert [] + Events(f, received[n + 1..]) == Events(f, received[n + 1..]);
      }
    }
    assert received[|received|..] == [];
  }

  method ReceiveUpdate(f: Finder, data: string) returns (event: Option<Event>)
    ensures event == Observe(f, data)
  {
    hide Parse, Text, Cleared, FieldOf;
    var packet := new LssdpPacket();
    var valid := packet.Parse(data);
    if !valid {
      return None;
    }
    ghost var content := ContentOf(Parse(data).value);
    var interest := true;
    if f.filter != "" {
      if CText(packet.devType) != Text(f.filter) {
        interest := false;
      }
    }
    if SearchTarget(f) != "" && SearchTarget(f) != ALL {
      if CText(packet.st) != Text(SearchTarget(f)) {
        interest := false;
      }
    }
    assert interest == Interested(f, content);
    if !interest {
      return None;
    }
    var description := Description(CText(packet.location), CText(packet.usn), CText(packet.st), "", "",
      CText(packet.smId), CText(packet.devType));
    if packet.kind == Some(Notify) {
      var id := NotifyAlive;
      if CText(packet.nts) == ALIVE {
        id := NotifyAlive;
      } else if CText(packet.nts) == BYEBYE {
        id := NotifyByeBye;
      }
      return Some(Event(id, description));
    } else if packet.kind == Some(Response) {
      return Some(Event(ResponseReceived, description));
    }
    return None;
  }

  /** The searches that a service answers, one packet after the other. */
  method CheckForMSearch(s: Service, received: seq<string>) returns (answered: seq<string>)
    ensures answered == Answered(s, received)
  {
    hide Answers;
    answered := [];
    for n := 0 to |received|
      invariant answered + Answered(s, received[n..]) == Answered(s, received)
    {
      var answer := ReceiveSearch(s, received[n]);
      assert received[n..][1..] == received[n + 1..];
      if answer {
        assert answered + ([received[n]] + Answered(s, received[n + 1..])) == answered + [received[n]] + Answered(s, received[n + 1..]);
        answered := answered + [received[n]];
      } else {
        assert [] + Answered(s, received[n + 1..]) == Answered(s, received[n + 1..]);
      }
    }
    assert received[|received|..] == [];
  }

  method ReceiveSearch(s: Service, data: string) returns (answer: bool)
    ensures answer == Answers(s, data)
  {
    hide Parse, Text, Cleared;
    var packet := new LssdpPacket();
    var valid := packet.Parse(data);
    answer := false;
    if valid {
      if packet.kind == Some(MSearch) {
        if CText(packet.st) == ALL || CText(packet.st) == Text(s.target) {
          answer := true;
        }
      }
    }
  }
}
