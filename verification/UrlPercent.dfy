/** Percent-coding, with the extra rules of query keys and values. */
module UrlPercent {
  import opened Wrappers
  import opened UrlChars

  /** A '%' that is not followed by two hexadecimal digits. */
  datatype DecodeError = BadPercent

  function HexDigit(c: char): int {
    if '0' <= c <= '9' then c as int - '0' as int
    else if 'A' <= c <= 'F' then c as int - 'A' as int + 10
    else if 'a' <= c <= 'f' then c as int - 'a' as int + 10
    else -1
  }

  function HexChar(n: nat): char
    requires n < 16
  {
    "0123456789ABCDEF"[n]
  }

  /** The text a percent-coded string stands for; plus says that '+' stands for a space. */
  function Decode(s: string, plus: bool): Result<string, DecodeError> {
    if s == "" then Success("")
    else if s[0] == '%' then
      if |s| < 3 || HexDigit(s[1]) < 0 || HexDigit(s[2]) < 0 then Failure(BadPercent)
      else
        var rest :- Decode(s[3..], plus);
        Success([(HexDigit(s[1]) * 16 + HexDigit(s[2])) as char] + rest)
    else
      var rest :- Decode(s[1..], plus);
      Success([if plus && s[0] == '+' then ' ' else s[0]] + rest)
  }

  /** The three printers differ in their mask, in spaces, and in what they escape besides. */
  datatype Encoding = Encoding(mask: Mask, plus: bool, escapes: set<char>) {

    /** What makes the printer's output readable: '%' is never printed for itself. */
    predicate Invertible() {
      !mask.percent && (plus ==> '+' in escapes)
    }
  }

  const USER_ENCODING := Encoding(USER_INFO, false, {})
  const PATH_ENCODING := Encoding(PATH, false, {})
  const FRAGMENT_ENCODING := Encoding(QUERY, false, {})
  const KEY_ENCODING := Encoding(QUERY, true, {'+', '=', '&', ';'})
  const VALUE_ENCODING := Encoding(QUERY, true, {'+', '&', ';'})

  function EncodeChar(c: char, e: Encoding): string
    requires c as int < 128
  {
    if e.plus && c == ' ' then "+"
    else if c in e.escapes || !IsChar(c, e.mask) then ['%', HexChar(c as int / 16), HexChar(c as int % 16)]
    else [c]
  }

  function Encode(s: string, e: Encoding): string
    requires IsAscii(s)
  {
    if s == "" then "" else EncodeChar(s[0], e) + Encode(s[1..], e)
  }

  ghost function Prepend(a: string, r: Result<string, DecodeError>): Result<string, DecodeError> {
    if r.Success? then Success(a + r.value) else r
  }

  /** Decoding is a left inverse of each of the printers. */
  lemma {:induction false} DecodeEncode(s: string, e: Encoding)
    requires IsAscii(s) && e.Invertible()
    ensures Decode(Encode(s, e), e.plus) == Success(s)
  {
    if s != "" {
      DecodeEncode(s[1..], e);
      DecodeEncodedChar(s[0], e, Encode(s[1..], e));
      assert s == [s[0]] + s[1..];
    }
  }

  lemma DecodeEncodedChar(c: char, e: Encoding, rest: string)
    requires c as int < 128 && e.Invertible()
    ensures Decode(EncodeChar(c, e) + rest, e.plus) == Prepend([c], Decode(rest, e.plus))
  {
    var coded := EncodeChar(c, e) + rest;
    assert coded[|EncodeChar(c, e)|..] == rest;
    if |EncodeChar(c, e)| == 3 {
      HexPair(c);
      assert coded[0] == '%' && coded[1] == HexChar(c as int / 16) && coded[2] == HexChar(c as int % 16);
    } else {
      assert coded[0] == EncodeChar(c, e)[0] != '%';
    }
  }

  lemma HexPair(c: char)
    requires c as int < 128
    ensures HexDigit(HexChar(c as int / 16)) == c as int / 16
    ensures HexDigit(HexChar(c as int % 16)) == c as int % 16
  {
  }

  // What a triple stands for.

  const UPPER_DIGITS := "0123456789ABCDEF"
  const LOWER_DIGITS := "0123456789abcdef"

  predicate HexText(digits: string) {
    digits == UPPER_DIGITS || digits == LOWER_DIGITS
  }

  lemma HexValue(i: nat, digits: string)
    requires i < 16 && HexText(digits)
    ensures HexDigit(digits[i]) == i
  {
    assert UPPER_DIGITS[i] as int == if i < 10 then 48 + i else 55 + i;
    assert LOWER_DIGITS[i] as int == if i < 10 then 48 + i else 87 + i;
  }

  /** A '%' and two digits of either case are the character with that hexadecimal code, high digit first. */
  lemma TripleDecoded(h: nat, high: string, l: nat, low: string, rest: string, plus: bool)
    requires h < 16 && l < 16 && HexText(high) && HexText(low)
    ensures Decode(['%', high[h], low[l]] + rest, plus) == Prepend([(16 * h + l) as char], Decode(rest, plus))
  {
    HexValue(h, high);
    HexValue(l, low);
    var s := ['%', high[h], low[l]] + rest;
    assert s[3..] == rest && s[1] == high[h] && s[2] == low[l];
  }

  /** Any other character stands for itself, but '+' for a space in queries. */
  lemma CharDecoded(c: char, rest: string, plus: bool)
    requires c != '%'
    ensures Decode([c] + rest, plus) == Prepend([if plus && c == '+' then ' ' else c], Decode(rest, plus))
  {
    assert ([c] + rest)[1..] == rest;
  }

  /** Every '%' has two hexadecimal digits behind it. */
  ghost predicate Triples(s: string) {
    forall i | 0 <= i < |s| && s[i] == '%' :: i + 2 < |s| && IsHexDigit(s[i + 1]) && IsHexDigit(s[i + 2])
  }

  /** Exactly these texts can be decoded. */
  lemma {:induction false} DecodeAccepts(s: string, plus: bool)
    ensures Decode(s, plus).Success? <==> Triples(s)
  {
    if s != "" {
      var k := if s[0] == '%' then 3 else 1;
      if k <= |s| {
        DecodeAccepts(s[k..], plus);
        assert forall i | 0 <= i < |s| - k :: s[k..][i] == s[k + i];
        if Triples(s[k..]) && (k == 3 ==> IsHexDigit(s[1]) && IsHexDigit(s[2])) {
          forall i | 0 <= i < |s| && s[i] == '%' ensures i + 2 < |s| && IsHexDigit(s[i + 1]) && IsHexDigit(s[i + 2]) {
            if i >= k {
              assert s[k..][i - k] == '%';
            }
          }
        }
        if Triples(s) {
          forall i | 0 <= i < |s[k..]| && s[k..][i] == '%'
            ensures i + 2 < |s[k..]| && IsHexDigit(s[k..][i + 1]) && IsHexDigit(s[k..][i + 2])
          {
            assert s[k + i] == '%';
          }
        }
      }
    }
  }

  /** The characters that the encoders print for themselves. */
  predicate Kept(c: char, e: Encoding) {
    if e == USER_ENCODING then NameChar(c) || c == ':'
    else if e == PATH_ENCODING then NameChar(c) || c in {':', '@', '/'}
    else if e == FRAGMENT_ENCODING then NameChar(c) || c in {':', '@', '/', '?'}
    else if e == KEY_ENCODING then (NameChar(c) || c in {':', '@', '/', '?'}) && c !in {'+', '=', '&', ';'}
    else (NameChar(c) || c in {':', '@', '/', '?'}) && c !in {'+', '&', ';'}
  }

  predicate OfUrl(e: Encoding) {
    e in {USER_ENCODING, PATH_ENCODING, FRAGMENT_ENCODING, KEY_ENCODING, VALUE_ENCODING}
  }

  /** Every other character is printed as '%' and its two upper-case digits, but a space as '+' in queries. */
  lemma EncodedExact(c: char, e: Encoding)
    requires c as int < 128 && OfUrl(e)
    ensures Kept(c, e) ==> EncodeChar(c, e) == [c]
    ensures c == ' ' && e in {KEY_ENCODING, VALUE_ENCODING} ==> EncodeChar(c, e) == "+"
    ensures !Kept(c, e) && !(c == ' ' && e in {KEY_ENCODING, VALUE_ENCODING}) ==>
      exists h: nat, l: nat | h < 16 && l < 16 && c as int == 16 * h + l ::
        EncodeChar(c, e) == ['%', UPPER_DIGITS[h], UPPER_DIGITS[l]]
  {
    ClassesExact(c);
    var h, l := c as int / 16, c as int % 16;
    assert c as int == 16 * h + l;
    assert ['%', HexChar(h), HexChar(l)] == ['%', UPPER_DIGITS[h], UPPER_DIGITS[l]];
  }

  /** A text is printed character by character. */
  lemma EncodedFirst(c: char, rest: string, e: Encoding)
    requires c as int < 128 && IsAscii(rest)
    ensures IsAscii([c] + rest) && Encode([c] + rest, e) == EncodeChar(c, e) + Encode(rest, e)
  {
    assert ([c] + rest)[1..] == rest;
  }

  /** The characters a printer can put out: none of its escapes, and nothing outside its mask but '%'. */
  predicate Printed(c: char, e: Encoding) {
    c == '%' || IsHexDigit(c) || (e.plus && c == '+') || (IsChar(c, e.mask) && c !in e.escapes)
  }

  lemma {:induction false} EncodePrints(s: string, e: Encoding)
    requires IsAscii(s)
    ensures forall i | 0 <= i < |Encode(s, e)| :: Printed(Encode(s, e)[i], e)
  {
    if s != "" {
      EncodePrints(s[1..], e);
      assert forall i | 0 <= i < |EncodeChar(s[0], e)| :: Printed(EncodeChar(s[0], e)[i], e);
    }
  }

  lemma {:induction false} EncodeConcat(a: string, b: string, e: Encoding)
    requires IsAscii(a) && IsAscii(b)
    ensures Encode(a + b, e) == Encode(a, e) + Encode(b, e)
  {
    hide EncodeChar;
    if a == "" {
      assert a + b == b;
    } else {
      EncodeConcat(a[1..], b, e);
      assert (a + b)[1..] == a[1..] + b;
    }
  }

  /** Text of characters that need no coding is its own code. */
  lemma {:induction false} EncodeIdentity(s: string, e: Encoding)
    requires IsAscii(s)
    requires forall i | 0 <= i < |s| :: IsChar(s[i], e.mask) && s[i] !in e.escapes && !(e.plus && s[i] == ' ')
    ensures Encode(s, e) == s
  {
    if s != "" {
      EncodeIdentity(s[1..], e);
    }
  }

  lemma {:induction false} DecodeIdentity(s: string)
    requires '%' !in s
    ensures Decode(s, false) == Success(s)
  {
    if s != "" {
      DecodeIdentity(s[1..]);
      assert s[0] in s && s == [s[0]] + s[1..];
    }
  }

  /** The length of the printed form, for bytes of any value. */
  function Cost(s: string, e: Encoding): nat {
    if s == "" then 0
    else (if (e.plus && s[0] == ' ') || (s[0] !in e.escapes && IsChar(s[0], e.mask)) then 1 else 3) + Cost(s[1..], e)
  }

  lemma {:induction false} EncodeCost(s: string, e: Encoding)
    requires IsAscii(s)
    ensures |Encode(s, e)| == Cost(s, e)
  {
    if s != "" {
      EncodeCost(s[1..], e);
    }
  }

  lemma {:induction false} CostConcat(a: string, b: string, e: Encoding)
    ensures Cost(a + b, e) == Cost(a, e) + Cost(b, e)
  {
    if a == "" {
      assert a + b == b;
    } else {
      CostConcat(a[1..], b, e);
      assert (a + b)[1..] == a[1..] + b;
    }
  }

  /** The characters a scanned piece may hold: '%', '+' for a space, and the mask without the escapes. */
  predicate Raw(c: char, e: Encoding) {
    c == '%' || (e.plus && c == '+') || (IsChar(c, e.mask) && c !in e.escapes)
  }

  /** Printing what was read from a scanned piece never makes it longer. */
  lemma {:induction false} RecodeNoLonger(raw: string, e: Encoding)
    requires e.Invertible()
    requires forall i | 0 <= i < |raw| :: Raw(raw[i], e)
    requires Decode(raw, e.plus).Success?
    ensures Cost(Decode(raw, e.plus).value, e) <= |raw|
  {
    if raw != "" {
      var k := if raw[0] == '%' then 3 else 1;
      var rest := raw[k..];
      var text := Decode(raw, e.plus).value;
      assert text[1..] == Decode(rest, e.plus).value;
      RecodeNoLonger(rest, e);
    }
  }

  /** Reads the percent-coded text between two positions, as the two decoding loops do. */
  method DecodeText(s: string, b: nat, e: nat, plus: bool) returns (o: Result<string, DecodeError>)
    requires b <= e <= |s|
    ensures o == Decode(s[b..e], plus)
  {
    var out := "";
    var p := b;
    assert forall v: string :: "" + v == v;
    while p != e
      invariant b <= p <= e
      invariant Decode(s[b..e], plus) == Prepend(out, Decode(s[p..e], plus))
    {
      assert s[p..e][1..] == s[p + 1..e];
      var c := s[p];
      p := p + 1;
      if plus && c == '+' {
        c := ' ';
      } else if c == '%' {
        if p == e || HexDigit(s[p]) < 0 || p + 1 == e || HexDigit(s[p + 1]) < 0 {
          return Failure(BadPercent);
        }
        assert s[p - 1..e][3..] == s[p + 2..e];
        c := (HexDigit(s[p]) * 16 + HexDigit(s[p + 1])) as char;
        p := p + 2;
      }
      ghost var rest := Decode(s[p..e], plus);
      assert rest.Success? ==> out + ([c] + rest.value) == (out + [c]) + rest.value;
      out := out + [c];
    }
    assert s[e..e] == "" && out + "" == out;
    return Success(out);
  }

  /** Prints a text, as the loops of the three encoders do. */
  method EncodeText(s: string, e: Encoding) returns (o: string)
    requires IsAscii(s)
    ensures o == Encode(s, e)
  {
    o := "";
    for i := 0 to |s|
      invariant o == Encode(s[..i], e)
    {
      assert s[..i + 1] == s[..i] + [s[i]];
      EncodeConcat(s[..i], [s[i]], e);
      assert Encode([s[i]], e) == EncodeChar(s[i], e) + Encode("", e);
      if e.plus && s[i] == ' ' {
        o := o + "+";
      } else if s[i] in e.escapes || !IsChar(s[i], e.mask) {
        o := o + ['%', "0123456789ABCDEF"[s[i] as int / 16], "0123456789ABCDEF"[s[i] as int % 16]];
      } else {
        o := o + [s[i]];
      }
    }
    assert s[..|s|] == s;
  }
}
