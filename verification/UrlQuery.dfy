/** The query list: key and value pairs, printed with '=' and '&' and scanned back. */
module UrlQuery {
  import opened Wrappers
  import opened UrlChars
  import opened UrlPercent

  datatype KeyVal = KeyVal(key: string, val: string)

  datatype QueryError = BadKey | BadValue | BadQueryPercent

  ghost predicate AsciiPairs(q: seq<KeyVal>) {
    forall i | 0 <= i < |q| :: IsAscii(q[i].key) && IsAscii(q[i].val)
  }

  ghost predicate NamedPairs(q: seq<KeyVal>) {
    forall i | 0 <= i < |q| :: q[i].key != ""
  }

  function PrintPair(kv: KeyVal): string
    requires IsAscii(kv.key) && IsAscii(kv.val)
  {
    Encode(kv.key, KEY_ENCODING) + if kv.val == "" then "" else "=" + Encode(kv.val, VALUE_ENCODING)
  }

  function PrintQuery(q: seq<KeyVal>): string
    requires AsciiPairs(q)
  {
    if |q| == 0 then ""
    else if |q| == 1 then PrintPair(q[0])
    else PrintPair(q[0]) + "&" + PrintQuery(q[1..])
  }

  function CheckedDecode(s: string, error: QueryError): Result<string, QueryError> {
    if !IsChars(s, RAW_QUERY) then Failure(error)
    else if Decode(s, true).Failure? then Failure(BadQueryPercent)
    else Success(Decode(s, true).value)
  }

  /** The pair s starts with, and where it ends: keys at one of "=;&", values at one of ";&". */
  function ScanPair(s: string): (r: Result<(KeyVal, nat), QueryError>)
    ensures r.Success? ==> r.value.1 <= |s|
  {
    var p := IndexOfAny(s, {'=', ';', '&'});
    var key :- CheckedDecode(s[..p], BadKey);
    if p < |s| && s[p] == '=' then
      var v := IndexOfAny(s[p + 1..], {';', '&'});
      var val :- CheckedDecode(s[p + 1..][..v], BadValue);
      Success((KeyVal(key, val), p + 1 + v))
    else Success((KeyVal(key, ""), p))
  }

  /** All pairs; a separator is always followed by one more. */
  function ScanPairs(s: string): Result<seq<KeyVal>, QueryError>
    decreases |s|
  {
    var first :- ScanPair(s);
    if first.1 == |s| then Success([first.0])
    else
      var rest :- ScanPairs(s[first.1 + 1..]);
      Success([first.0] + rest)
  }

  function ScanQuery(s: string): Result<seq<KeyVal>, QueryError> {
    if s == "" then Success([]) else ScanPairs(s)
  }

  // What a scanned text stands for.

  ghost function PrependPairs(a: seq<KeyVal>, r: Result<seq<KeyVal>, QueryError>): Result<seq<KeyVal>, QueryError> {
    if r.Success? then Success(a + r.value) else r
  }

  /** What is scanned from the rest behind a pair: nothing is left, or a separator and more pairs. */
  ghost function Behind(kv: KeyVal, more: string): Result<seq<KeyVal>, QueryError> {
    if more == "" then Success([kv]) else PrependPairs([kv], ScanPairs(more[1..]))
  }

  ghost predicate FreeOf(s: string, q: set<char>) {
    forall i | 0 <= i < |s| :: s[i] !in q
  }

  ghost predicate Readable(raw: string) {
    IsChars(raw, RAW_QUERY) && Decode(raw, true).Success?
  }

  lemma KeyStops(k: string, more: string)
    requires FreeOf(k, {'=', ';', '&'}) && (more == "" || more[0] in {'&', ';'}) && Readable(k)
    ensures ScanPair(k + more) == Success((KeyVal(Decode(k, true).value, ""), |k|))
  {
    hide IndexOfAny, Decode;
    IndexAfter(k, more, {'=', ';', '&'});
  }

  lemma ValueStops(k: string, v: string, more: string)
    requires FreeOf(k, {'=', ';', '&'}) && FreeOf(v, {';', '&'}) && (more == "" || more[0] in {'&', ';'})
    requires Readable(k) && Readable(v)
    ensures ScanPair(k + ("=" + v + more)) == Success((KeyVal(Decode(k, true).value, Decode(v, true).value), |k| + 1 + |v|))
  {
    hide ScanPair, IndexOfAny, Decode, FreeOf, Readable;
    var tail := "=" + v + more;
    var s := k + tail;
    FreeEnds(k, tail, {'=', ';', '&'});
    FreeEnds(v, more, {';', '&'});
    AroundEqual(k, v, more);
    DividedPair(s, |k|, |v|);
  }

  lemma AroundEqual(k: string, v: string, more: string)
    ensures var s := k + ("=" + v + more); |k| < |s| && s[|k|] == '=' && s[|k| + 1..] == v + more
  {
  }

  lemma DividedPair(s: string, p: nat, n: nat)
    requires p < |s| && s[p] == '=' && IndexOfAny(s, {'=', ';', '&'}) == p
    requires IndexOfAny(s[p + 1..], {';', '&'}) == n
    requires Readable(s[..p]) && Readable(s[p + 1..][..n])
    ensures ScanPair(s) == Success((KeyVal(Decode(s[..p], true).value, Decode(s[p + 1..][..n], true).value), p + 1 + n))
  {
    hide IndexOfAny, Decode, IsChars;
  }

  lemma FreeEnds(a: string, b: string, q: set<char>)
    requires FreeOf(a, q) && (b == "" || b[0] in q)
    ensures IndexOfAny(a + b, q) == |a| && (a + b)[..|a|] == a
  {
    IndexAfter(a, b, q);
  }

  /** A key alone, up to the end or to one of the separators '&' and ';', has an empty value. */
  lemma KeyScanned(k: string, more: string)
    requires FreeOf(k, {'=', ';', '&'}) && (more == "" || more[0] in {'&', ';'}) && Readable(k)
    ensures ScanPairs(k + more) == Behind(KeyVal(Decode(k, true).value, ""), more)
    ensures ScanQuery(k + more) == if k + more == "" then Success([]) else Behind(KeyVal(Decode(k, true).value, ""), more)
  {
    hide ScanPair, Decode, IsChars, FreeOf;
    KeyStops(k, more);
    assert more != "" ==> (k + more)[|k| + 1..] == more[1..];
  }

  /** The first '=' divides a pair; the value may hold more of them. */
  lemma PairScanned(k: string, v: string, more: string)
    requires FreeOf(k, {'=', ';', '&'}) && FreeOf(v, {';', '&'}) && (more == "" || more[0] in {'&', ';'})
    requires Readable(k) && Readable(v)
    ensures ScanPairs(k + ("=" + v + more)) == Behind(KeyVal(Decode(k, true).value, Decode(v, true).value), more)
    ensures ScanQuery(k + ("=" + v + more)) == Behind(KeyVal(Decode(k, true).value, Decode(v, true).value), more)
  {
    hide ScanPair, Decode, IsChars, FreeOf;
    ValueStops(k, v, more);
    assert more != "" ==> (k + ("=" + v + more))[|k| + 1 + |v| + 1..] == more[1..];
  }

  /** Exactly the texts of query characters with complete percent triples are accepted. */
  lemma QueryAccepts(s: string)
    ensures ScanQuery(s).Success? <==> IsChars(s, RAW_QUERY) && Triples(s)
  {
    if s != "" {
      PairsAccept(s);
    }
  }

  lemma {:induction false} PairsAccept(s: string)
    ensures ScanPairs(s).Success? <==> IsChars(s, RAW_QUERY) && Triples(s)
    decreases |s|
  {
    hide ScanPair, IsChars, Triples;
    PairAccepts(s);
    assert s[..|s|] == s;
    if ScanPair(s).Success? {
      var p := ScanPair(s).value.1;
      if p < |s| {
        PairsAccept(s[p + 1..]);
        Divided(s, p);
      } else {
        assert s[..p] == s;
      }
    }
  }

  /** The end of the first pair of a text. */
  function PairEnd(s: string): (p: nat)
    ensures p <= |s| && (p < |s| ==> s[p] in {';', '&'})
  {
    var p := IndexOfAny(s, {'=', ';', '&'});
    if p < |s| && s[p] == '=' then p + 1 + IndexOfAny(s[p + 1..], {';', '&'}) else p
  }

  lemma PairAccepts(s: string)
    ensures ScanPair(s).Success? <==> IsChars(s[..PairEnd(s)], RAW_QUERY) && Triples(s[..PairEnd(s)])
    ensures ScanPair(s).Success? ==> ScanPair(s).value.1 == PairEnd(s)
    ensures PairEnd(s) < |s| ==>
      (IsChars(s, RAW_QUERY) && Triples(s) ==> IsChars(s[..PairEnd(s)], RAW_QUERY) && Triples(s[..PairEnd(s)]))
  {
    hide Decode, IndexOfAny, IsChars, Triples;
    var p := IndexOfAny(s, {'=', ';', '&'});
    var end := PairEnd(s);
    DecodeAccepts(s[..p], true);
    if p < |s| && s[p] == '=' {
      var v := s[p + 1..][..end - p - 1];
      DecodeAccepts(v, true);
      assert s[..end][..p] == s[..p] && s[..end][p + 1..] == v;
      Divided(s[..end], p);
    }
    if end < |s| {
      Divided(s, end);
    }
  }

  /** A character that is neither '%' nor a digit divides a text into two that are fine on their own. */
  lemma Divided(s: string, p: nat)
    requires p < |s| && s[p] in {'=', ';', '&'}
    ensures IsChars(s, RAW_QUERY) && Triples(s)
      <==> IsChars(s[..p], RAW_QUERY) && Triples(s[..p]) && IsChars(s[p + 1..], RAW_QUERY) && Triples(s[p + 1..])
  {
    var a, b := s[..p], s[p + 1..];
    assert IsChar(s[p], RAW_QUERY) && s[p] != '%' && !IsHexDigit(s[p]);
    assert forall i | p < i < |s| :: s[i] == b[i - p - 1];
    assert forall i | 0 <= i < p :: s[i] == a[i];
    if IsChars(s, RAW_QUERY) && Triples(s) {
      forall i | 0 <= i < |a| && a[i] == '%' ensures i + 2 < |a| && IsHexDigit(a[i + 1]) && IsHexDigit(a[i + 2]) {
        assert s[i] == '%';
      }
      forall i | 0 <= i < |b| && b[i] == '%' ensures i + 2 < |b| && IsHexDigit(b[i + 1]) && IsHexDigit(b[i + 2]) {
        assert s[i + p + 1] == '%';
      }
    }
    if IsChars(a, RAW_QUERY) && Triples(a) && IsChars(b, RAW_QUERY) && Triples(b) {
      forall i | 0 <= i < |s| ensures IsChar(s[i], RAW_QUERY) {
        assert i < p ==> IsChar(a[i], RAW_QUERY);
        assert i > p ==> IsChar(b[i - p - 1], RAW_QUERY);
      }
      forall i | 0 <= i < |s| && s[i] == '%' ensures i + 2 < |s| && IsHexDigit(s[i + 1]) && IsHexDigit(s[i + 2]) {
        if i < p {
          assert a[i] == '%';
        } else {
          assert b[i - p - 1] == '%';
        }
      }
    }
  }

  /** The characters of a printed key or value end neither it nor the query. */
  predicate Inside(c: char, e: Encoding) {
    IsChar(c, RAW_QUERY) && c != ';' && c != '&' && c != '#' && (c == '=' ==> e == VALUE_ENCODING)
  }

  lemma PrintedInside(c: char, e: Encoding)
    requires e == KEY_ENCODING || e == VALUE_ENCODING
    requires Printed(c, e)
    ensures Inside(c, e)
  {
  }

  lemma EncodedPiece(s: string, e: Encoding)
    requires e == KEY_ENCODING || e == VALUE_ENCODING
    requires IsAscii(s)
    ensures forall i | 0 <= i < |Encode(s, e)| :: Inside(Encode(s, e)[i], e)
    ensures Decode(Encode(s, e), true) == Success(s)
  {
    EncodePrints(s, e);
    DecodeEncode(s, e);
    var t := Encode(s, e);
    forall i | 0 <= i < |t| ensures Inside(t[i], e) {
      PrintedInside(t[i], e);
    }
  }

  ghost predicate Coded(raw: string, text: string, e: Encoding) {
    (forall i | 0 <= i < |raw| :: Inside(raw[i], e)) && Decode(raw, true) == Success(text)
  }

  lemma ScanKey(k: string, key: string, more: string)
    requires Coded(k, key, KEY_ENCODING)
    requires more == "" || more[0] == '&'
    ensures ScanPair(k + more) == Success((KeyVal(key, ""), |k|))
  {
    hide ScanPair, Decode;
    KeyStops(k, more);
  }

  lemma ScanKeyVal(k: string, key: string, v: string, val: string, more: string)
    requires Coded(k, key, KEY_ENCODING) && Coded(v, val, VALUE_ENCODING)
    requires more == "" || more[0] == '&'
    ensures ScanPair(k + ("=" + v + more)) == Success((KeyVal(key, val), |k| + 1 + |v|))
  {
    hide ScanPair, Decode;
    ValueStops(k, v, more);
  }

  lemma FirstPrintedPair(kv: KeyVal, more: string)
    requires IsAscii(kv.key) && IsAscii(kv.val)
    requires more == "" || more[0] == '&'
    ensures ScanPair(PrintPair(kv) + more) == Success((kv, |PrintPair(kv)|))
  {
    hide ScanPair, Encode, Decode, Inside;
    EncodedPiece(kv.key, KEY_ENCODING);
    var k := Encode(kv.key, KEY_ENCODING);
    if kv.val == "" {
      ScanKey(k, kv.key, more);
      assert PrintPair(kv) + more == k + more;
    } else {
      EncodedPiece(kv.val, VALUE_ENCODING);
      var v := Encode(kv.val, VALUE_ENCODING);
      ScanKeyVal(k, kv.key, v, kv.val, more);
      assert PrintPair(kv) + more == k + ("=" + v + more);
    }
  }

  /** One printed pair in front of nothing, or of '&' and more pairs, is scanned back. */
  lemma ScanPrintedPair(kv: KeyVal, more: string)
    requires IsAscii(kv.key) && IsAscii(kv.val)
    requires more == "" || more[0] == '&'
    ensures ScanPairs(PrintPair(kv) + more) == Behind(kv, more)
  {
    hide ScanPair, PrintPair;
    var s := PrintPair(kv) + more;
    FirstPrintedPair(kv, more);
    assert more != "" ==> s[|PrintPair(kv)| + 1..] == more[1..];
  }

  /** Every list of named ASCII pairs is what its printed form is scanned to. */
  lemma {:induction false} QueryRoundTrip(q: seq<KeyVal>)
    requires AsciiPairs(q) && NamedPairs(q)
    ensures ScanQuery(PrintQuery(q)) == Success(q)
    ensures q != [] ==> PrintQuery(q) != ""
  {
    hide ScanPairs, Encode;
    if q != [] {
      EncodeNonEmpty(q[0].key, KEY_ENCODING);
      var more := if |q| == 1 then "" else "&" + PrintQuery(q[1..]);
      if |q| > 1 {
        QueryRoundTrip(q[1..]);
        assert more[1..] == PrintQuery(q[1..]);
      }
      ScanPrintedPair(q[0], more);
      assert PrintQuery(q) == PrintPair(q[0]) + more;
      assert q == [q[0]] + q[1..];
      assert |q| == 1 ==> q == [q[0]];
    }
  }

  lemma EncodeNonEmpty(s: string, e: Encoding)
    requires IsAscii(s) && s != ""
    ensures Encode(s, e) != ""
  {
  }

  /** The printed list is scanned characters without '#', so that it is read as one query. */
  lemma {:induction false} PrintedQueryChars(q: seq<KeyVal>)
    requires AsciiPairs(q)
    ensures '#' !in PrintQuery(q)
  {
    hide Encode, Decode;
    if q != [] {
      EncodedPiece(q[0].key, KEY_ENCODING);
      EncodedPiece(q[0].val, VALUE_ENCODING);
      if |q| > 1 {
        PrintedQueryChars(q[1..]);
      }
    }
  }

  /** Scanning and printing again never makes the query longer. */
  lemma {:induction false} QueryNoLonger(s: string)
    requires ScanPairs(s).Success? && AsciiPairs(ScanPairs(s).value) && NamedPairs(ScanPairs(s).value)
    ensures ScanPairs(s).value != []
    ensures |PrintQuery(ScanPairs(s).value)| <= |s|
    decreases |s|
  {
    hide ScanPair, PrintPair;
    var q := ScanPairs(s).value;
    var (kv, p) := ScanPair(s).value;
    assert q[0] == kv;
    PairNoLonger(s);
    if p < |s| {
      assert q[1..] == ScanPairs(s[p + 1..]).value;
      QueryNoLonger(s[p + 1..]);
    }
  }

  lemma PairNoLonger(s: string)
    requires ScanPair(s).Success?
    requires IsAscii(ScanPair(s).value.0.key) && IsAscii(ScanPair(s).value.0.val)
    ensures |PrintPair(ScanPair(s).value.0)| <= ScanPair(s).value.1
  {
    var p := IndexOfAny(s, {'=', ';', '&'});
    PieceNoLonger(s[..p], KEY_ENCODING);
    if p < |s| && s[p] == '=' {
      var v := IndexOfAny(s[p + 1..], {';', '&'});
      PieceNoLonger(s[p + 1..][..v], VALUE_ENCODING);
    }
  }

  lemma PieceNoLonger(raw: string, e: Encoding)
    requires e == KEY_ENCODING || e == VALUE_ENCODING
    requires IsChars(raw, RAW_QUERY)
    requires forall i | 0 <= i < |raw| :: raw[i] == '+' || raw[i] !in e.escapes
    requires Decode(raw, true).Success? && IsAscii(Decode(raw, true).value)
    ensures |Encode(Decode(raw, true).value, e)| <= |raw|
  {
    forall i | 0 <= i < |raw| ensures Raw(raw[i], e) {
      assert IsChar(raw[i], RAW_QUERY);
    }
    RecodeNoLonger(raw, e);
    EncodeCost(Decode(raw, true).value, e);
  }

  method DecodePiece(s: string, b: nat, e: nat, error: QueryError) returns (r: Result<string, QueryError>)
    requires b <= e <= |s|
    ensures r == CheckedDecode(s[b..e], error)
  {
    var ok := CheckChars(s, b, e, RAW_QUERY);
    if !ok {
      return Failure(error);
    }
    var text := DecodeText(s, b, e, true);
    r := if text.Success? then Success(text.value) else Failure(BadQueryPercent);
  }

  /** One round of the scanning loop: the pair that starts at b, and the position where it stopped. */
  method ReadPair(s: string, b: nat, to: nat) returns (r: Result<(KeyVal, nat), QueryError>)
    requires b <= to <= |s|
    ensures r == Shift(ScanPair(s[b..to]), b)
  {
    hide CheckedDecode, IndexOfAny;
    ghost var text := s[b..to];
    var p := FindFirstOf(s, b, to, {'=', ';', '&'});
    assert text[..p - b] == s[b..p];
    var key :- DecodePiece(s, b, p, BadKey);
    var val := "";
    if p != to && s[p] == '=' {
      var from := p + 1;
      assert text[from - b..] == s[from..to];
      p := FindFirstOf(s, from, to, {';', '&'});
      assert s[from..to][..p - from] == s[from..p];
      val :- DecodePiece(s, from, p, BadValue);
    }
    return Success((KeyVal(key, val), p));
  }

  ghost function Shift(r: Result<(KeyVal, nat), QueryError>, b: nat): Result<(KeyVal, nat), QueryError> {
    if r.Success? then Success((r.value.0, b + r.value.1)) else r
  }

  /** The scanning loop over the query between two positions of the URL. */
  method ReadQuery(s: string, from: nat, to: nat) returns (r: Result<seq<KeyVal>, QueryError>)
    requires from <= to <= |s|
    ensures r == ScanQuery(s[from..to])
  {
    hide ScanPair;
    var out: seq<KeyVal> := [];
    var b, p := from, from;
    assert forall v: seq<KeyVal> :: [] + v == v;
    while p != to
      invariant from <= p <= to && (p != to ==> from <= b <= to)
      invariant p != to ==> ScanPairs(s[from..to]) == PrependPairs(out, ScanPairs(s[b..to]))
      invariant p == to ==> ScanQuery(s[from..to]) == Success(out)
      invariant p != to ==> b == if out == [] then p else p + 1
      decreases if out == [] then 1 else 0, to - p
    {
      var step :- ReadPair(s, b, to);
      if step.1 < to {
        ghost var rest := ScanPairs(s[step.1 + 1..to]);
        assert s[b..to][step.1 + 1 - b..] == s[step.1 + 1..to];
        assert rest.Success? ==> out + ([step.0] + rest.value) == (out + [step.0]) + rest.value;
      }
      p := step.1;
      b := p + 1;
      out := out + [step.0];
    }
    return Success(out);
  }
}
