/** Character classes and the delimiter searches of the URL scanner. */
module UrlChars {

  /** The six non-zero entries of the class table, from bit 0x01 to bit 0x20, and Illegal for its zeros. */
  datatype CharClass = Plain | At | Colon | Slash | Question | Percent | Illegal

  function Table(c: char): CharClass {
    if '0' <= c <= '9' || 'A' <= c <= 'Z' || 'a' <= c <= 'z' then Plain
    else if c == '@' then At
    else if c == ':' then Colon
    else if c == '/' then Slash
    else if c == '?' then Question
    else if c == '%' then Percent
    else if c == '!' || c == '$' || '&' <= c <= '.' || c == ';' || c == '=' || c == '_' || c == '~' then Plain
    else Illegal
  }

  /** A set of classes; the lowest bit, Plain, is in every mask the scanner uses. */
  datatype Mask = Mask(at: bool, colon: bool, slash: bool, question: bool, percent: bool)

  const REG_NAME := Mask(false, false, false, false, false) // 0x01
  const USER_INFO := Mask(false, true, false, false, false) // 0x05
  const PATH := Mask(true, true, true, false, false)        // 0x0F
  const RAW_PATH := Mask(true, true, true, false, true)     // 0x2F
  const QUERY := Mask(true, true, true, true, false)        // 0x1F
  const RAW_QUERY := Mask(true, true, true, true, true)     // 0x3F

  predicate IsChar(c: char, mask: Mask) {
    match Table(c)
    case Plain => true
    case At => mask.at
    case Colon => mask.colon
    case Slash => mask.slash
    case Question => mask.question
    case Percent => mask.percent
    case Illegal => false
  }

  /** The unreserved characters and the sub-delims of section 2 of RFC 3986. */
  predicate NameChar(c: char) {
    'A' <= c <= 'Z' || 'a' <= c <= 'z' || '0' <= c <= '9'
    || c in {'-', '.', '_', '~'} || c in {'!', '$', '&', '\'', '(', ')', '*', '+', ',', ';', '='}
  }

  /** What the masks let pass, in the terms of the grammar of RFC 3986. */
  lemma ClassesExact(c: char)
    ensures IsChar(c, REG_NAME) <==> NameChar(c)
    ensures IsChar(c, USER_INFO) <==> NameChar(c) || c == ':'
    ensures IsChar(c, PATH) <==> NameChar(c) || c in {':', '@', '/'}
    ensures IsChar(c, RAW_PATH) <==> NameChar(c) || c in {':', '@', '/', '%'}
    ensures IsChar(c, QUERY) <==> NameChar(c) || c in {':', '@', '/', '?'}
    ensures IsChar(c, RAW_QUERY) <==> NameChar(c) || c in {':', '@', '/', '?', '%'}
  {
    assert '&' <= c <= '.' <==> c in {'&', '\'', '(', ')', '*', '+', ',', '-', '.'} by {
      if '&' <= c <= '.' {
        assert c as int in {38, 39, 40, 41, 42, 43, 44, 45, 46};
      }
    }
  }

  predicate IsChars(s: string, mask: Mask) {
    forall i | 0 <= i < |s| :: IsChar(s[i], mask)
  }

  method CheckChars(s: string, b: nat, e: nat, mask: Mask) returns (ok: bool)
    requires b <= e <= |s|
    ensures ok == IsChars(s[b..e], mask)
  {
    var p := b;
    while p != e
      invariant b <= p <= e
      invariant forall i | b <= i < p :: IsChar(s[i], mask)
    {
      if !IsChar(s[p], mask) {
        assert s[b..e][p - b] == s[p];
        return false;
      }
      p := p + 1;
    }
    return true;
  }

  predicate IsAlpha(c: char) {
    'A' <= c <= 'Z' || 'a' <= c <= 'z'
  }

  predicate IsNum(c: char) {
    '0' <= c <= '9'
  }

  predicate IsAlnum(c: char) {
    IsAlpha(c) || IsNum(c)
  }

  predicate IsHexDigit(c: char) {
    IsNum(c) || 'A' <= c <= 'F' || 'a' <= c <= 'f'
  }

  const UPPER := "ABCDEFGHIJKLMNOPQRSTUVWXYZ"
  const LOWER := "abcdefghijklmnopqrstuvwxyz"

  lemma LetterCodes()
    ensures forall i | 0 <= i < 26 :: UPPER[i] as int == 65 + i && LOWER[i] as int == 97 + i
    ensures |UPPER| == |LOWER| == 26
  {
  }

  lemma LettersExact(c: char)
    ensures IsAlpha(c) <==> exists i | 0 <= i < 26 :: UPPER[i] == c || LOWER[i] == c
  {
    LetterCodes();
    hide UPPER, LOWER;
    if 'A' <= c <= 'Z' {
      assert UPPER[c as int - 65] == c;
    } else if 'a' <= c <= 'z' {
      assert LOWER[c as int - 97] == c;
    }
  }

  lemma DigitsExact(c: char)
    ensures IsNum(c) <==> exists i | 0 <= i < 10 :: "0123456789"[i] == c
    ensures IsHexDigit(c) <==> exists i | 0 <= i < 22 :: "0123456789ABCDEFabcdef"[i] == c
  {
    if IsNum(c) {
      assert "0123456789"[c as int - 48] == c;
      assert "0123456789ABCDEFabcdef"[c as int - 48] == c;
    } else if 'A' <= c <= 'F' {
      assert "0123456789ABCDEFabcdef"[c as int - 55] == c;
    } else if 'a' <= c <= 'f' {
      assert "0123456789ABCDEFabcdef"[c as int - 81] == c;
    }
  }

  /** Every byte is below 0x80, the range in which the encoders are defined. */
  predicate IsAscii(s: string) {
    forall i | 0 <= i < |s| :: s[i] as int < 128
  }

  function LowerChar(c: char): char {
    if 'A' <= c <= 'Z' then (c as int + 32) as char else c
  }

  function ToLower(s: string): (o: string)
    ensures |o| == |s|
    ensures forall i | 0 <= i < |s| :: o[i] == LowerChar(s[i])
  {
    if s == "" then "" else [LowerChar(s[0])] + ToLower(s[1..])
  }

  /** The letters go to their counterparts, and nothing else is touched. */
  lemma LowerLetters(i: nat)
    requires i < 26
    ensures LowerChar("ABCDEFGHIJKLMNOPQRSTUVWXYZ"[i]) == "abcdefghijklmnopqrstuvwxyz"[i]
    ensures forall c | !('A' <= c <= 'Z') :: LowerChar(c) == c
  {
    assert "ABCDEFGHIJKLMNOPQRSTUVWXYZ"[i] as int == 65 + i && "abcdefghijklmnopqrstuvwxyz"[i] as int == 97 + i;
  }

  /** Lower-casing a second time changes nothing. */
  lemma LowerTwice(s: string)
    ensures ToLower(ToLower(s)) == ToLower(s)
  {
    assert forall i | 0 <= i < |s| :: ToLower(ToLower(s))[i] == ToLower(s)[i];
  }

  method LowerCase(s: string) returns (o: string)
    ensures o == ToLower(s)
  {
    o := s;
    var i := 0;
    while i < |o|
      invariant 0 <= i <= |o| == |s|
      invariant forall k | 0 <= k < i :: o[k] == LowerChar(s[k])
      invariant forall k | i <= k < |s| :: o[k] == s[k]
    {
      if 'A' <= o[i] <= 'Z' {
        o := o[i := (o[i] as int + 32) as char];
      }
      i := i + 1;
    }
  }

  /** The position of the first character of s that is one of q, or the end of s. */
  function IndexOfAny(s: string, q: set<char>): (p: nat)
    ensures p <= |s|
    ensures forall i | 0 <= i < p :: s[i] !in q
    ensures p < |s| ==> s[p] in q
  {
    if s == "" || s[0] in q then 0 else 1 + IndexOfAny(s[1..], q)
  }

  lemma IndexOfAnyIs(s: string, q: set<char>, p: nat)
    requires p <= |s|
    requires forall i | 0 <= i < p :: s[i] !in q
    requires p < |s| ==> s[p] in q
    ensures IndexOfAny(s, q) == p
  {
    var r := IndexOfAny(s, q);
    assert r < |s| ==> s[r] in q;
    assert p < |s| ==> s[p] in q;
  }

  /** A prefix free of the delimiters, followed by nothing or by a delimiter, ends at its length. */
  lemma IndexAfter(a: string, b: string, q: set<char>)
    requires forall i | 0 <= i < |a| :: a[i] !in q
    requires b == "" || b[0] in q
    ensures IndexOfAny(a + b, q) == |a|
    ensures (a + b)[..|a|] == a && (a + b)[|a|..] == b
  {
    IndexOfAnyIs(a + b, q, |a|);
  }

  method FindFirstOf(s: string, b: nat, e: nat, q: set<char>) returns (p: nat)
    requires b <= e <= |s|
    ensures p == b + IndexOfAny(s[b..e], q)
  {
    p := b;
    while p != e
      invariant b <= p <= e
      invariant forall i | b <= i < p :: s[i] !in q
    {
      if s[p] in q {
        break;
      }
      p := p + 1;
    }
    IndexOfAnyIs(s[b..e], q, p - b);
  }

  method FindChar(s: string, b: nat, e: nat, c: char) returns (p: nat)
    requires b <= e <= |s|
    ensures p == b + IndexOfAny(s[b..e], {c})
  {
    p := b;
    while p != e && s[p] != c
      invariant b <= p <= e
      invariant forall i | b <= i < p :: s[i] != c
    {
      p := p + 1;
    }
    IndexOfAnyIs(s[b..e], {c}, p - b);
  }
}
