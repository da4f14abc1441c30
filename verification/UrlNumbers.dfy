/** Decimal numbers as the scanner reads them: ports and dotted IPv4 addresses. */
module UrlNumbers {
  import opened Wrappers
  import opened UrlChars
  import opened Strings

  /** The reader keeps its value in 32 bits and lets it wrap around. */
  const WRAP := 0x1_0000_0000

  predicate Digits(d: string) {
    forall i | 0 <= i < |d| :: IsNum(d[i])
  }

  /** Decimal digits without a leading zero. */
  predicate Canonical(d: string) {
    d != "" && Digits(d) && (d[0] == '0' ==> |d| == 1)
  }

  function Value(d: string): nat
    requires Digits(d)
  {
    if d == "" then 0 else Value(d[..|d| - 1]) * 10 + (d[|d| - 1] as int - '0' as int)
  }

  /** The decimal notation of n. */
  function Print(n: nat): (d: string)
    ensures Canonical(d) && Value(d) == n
  {
    var last := ('0' as int + n % 10) as char;
    if n < 10 then [last]
    else
      var front := Print(n / 10);
      assert (front + [last])[..|front|] == front;
      front + [last]
  }

  lemma PrintLonger(v: nat, digit: nat)
    requires v > 0 && digit < 10
    ensures Print(v * 10 + digit) == Print(v) + [('0' as int + digit) as char]
  {
    assert (v * 10 + digit) / 10 == v && (v * 10 + digit) % 10 == digit;
  }

  /** Canonical digits are the decimal notation of their value. */
  lemma {:induction false} CanonicalIsPrint(d: string)
    requires Canonical(d)
    ensures d == Print(Value(d))
  {
    if |d| > 1 {
      hide Print;
      var front, last := d[..|d| - 1], d[|d| - 1];
      CanonicalIsPrint(front);
      CanonicalPositive(front);
      PrintLonger(Value(front), last as int - '0' as int);
      assert d == front + [last];
    } else {
      assert d[..0] == "";
    }
  }

  lemma {:induction false} CanonicalPositive(d: string)
    requires Canonical(d) && d[0] != '0'
    ensures Value(d) > 0
  {
    if |d| > 1 {
      CanonicalPositive(d[..|d| - 1]);
    }
  }

  function Pow10(n: nat): nat {
    if n == 0 then 1 else 10 * Pow10(n - 1)
  }

  lemma {:induction false} ValueBound(d: string)
    requires Digits(d)
    ensures Value(d) < Pow10(|d|)
  {
    if d != "" {
      ValueBound(d[..|d| - 1]);
    }
  }

  /** Runs of at most nine digits do not wrap. */
  lemma ShortValue(d: string)
    requires Digits(d) && |d| <= 9
    ensures Value(d) < WRAP
  {
    ValueBound(d);
    Pow10Monotone(|d|, 9);
    assert Pow10(9) == 1_000_000_000 by {
      assert Pow10(3) == 1000;
      assert Pow10(6) == 1000 * Pow10(3);
    }
  }

  lemma {:induction false} Pow10Monotone(m: nat, n: nat)
    requires m <= n
    ensures Pow10(m) <= Pow10(n)
    decreases n
  {
    if m < n {
      Pow10Monotone(m, n - 1);
    }
  }

  /** The length of the longest canonical number s starts with, or 0. */
  function UintEnd(s: string): (n: nat)
    ensures n <= |s|
    ensures n == 0 || Canonical(s[..n])
  {
    if s == "" || !IsNum(s[0]) then 0
    else if s[0] == '0' then 1
    else DigitsEnd(s)
  }

  function DigitsEnd(s: string): (n: nat)
    ensures n <= |s| && Digits(s[..n])
    ensures n < |s| ==> !IsNum(s[n])
  {
    if s == "" || !IsNum(s[0]) then 0 else 1 + DigitsEnd(s[1..])
  }

  /** The number s starts with, when its wrapped value is at most max: the length read. */
  function TakeUint(s: string, max: nat): (r: Option<nat>)
    ensures r.Some? ==> 0 < r.value <= |s|
  {
    var n := UintEnd(s);
    if n == 0 || Value(s[..n]) % WRAP > max then None else Some(n)
  }

  /** A canonical number followed by something else than a digit is read whole. */
  lemma UintEndOf(d: string, rest: string)
    requires Canonical(d) && (rest == "" || !IsNum(rest[0]))
    ensures UintEnd(d + rest) == |d| && (d + rest)[..|d|] == d
  {
    DigitsEndOf(d, rest);
  }

  lemma {:induction false} DigitsEndOf(d: string, rest: string)
    requires Digits(d) && (rest == "" || !IsNum(rest[0]))
    ensures DigitsEnd(d + rest) == |d|
  {
    if d != "" {
      DigitsEndOf(d[1..], rest);
      assert (d + rest)[1..] == d[1..] + rest;
    } else {
      assert d + rest == rest;
    }
  }

  lemma TakeUintOf(d: string, rest: string, max: nat)
    requires Canonical(d) && (rest == "" || !IsNum(rest[0]))
    ensures TakeUint(d + rest, max) == if Value(d) % WRAP <= max then Some(|d|) else None
  {
    UintEndOf(d, rest);
  }

  lemma NoUint(text: string)
    requires text == "" || !IsNum(text[0])
    ensures UintEnd(text) == 0
  {
  }

  lemma OneDigit(text: string)
    requires text != "" && IsNum(text[0])
    ensures Digits(text[..1]) && Value(text[..1]) == text[0] as int - '0' as int
  {
    assert text[..1][..0] == "";
  }

  lemma OneMoreDigit(text: string, n: nat)
    requires n < |text| && Digits(text[..n]) && IsNum(text[n])
    ensures Digits(text[..n + 1]) && Value(text[..n + 1]) == Value(text[..n]) * 10 + (text[n] as int - '0' as int)
  {
    assert text[..n + 1][..n] == text[..n];
  }

  lemma WrapStep(v: nat, digit: int)
    ensures (v % WRAP * 10 + digit) % WRAP == (v * 10 + digit) % WRAP
  {
    var q := v / WRAP;
    assert v == q * WRAP + v % WRAP;
    assert v * 10 + digit == v % WRAP * 10 + digit + WRAP * (q * 10);
    WrapMultiple(v % WRAP * 10 + digit, q * 10);
  }

  lemma WrapMultiple(a: int, k: nat)
    ensures (a + WRAP * k) % WRAP == a % WRAP
  {
    if k > 0 {
      WrapMultiple(a, k - 1);
    }
  }

  /** A run of digits that cannot go on; behind a leading zero nothing goes on. */
  lemma DigitRun(text: string, n: nat)
    requires 0 < n <= |text| && Digits(text[..n])
    requires if text[0] == '0' then n == 1 else n == |text| || !IsNum(text[n])
    ensures UintEnd(text) == n
  {
    assert text == text[..n] + text[n..];
    if text[0] != '0' {
      UintEndOf(text[..n], text[n..]);
    }
  }

  /** Reads a number from position b, as the scanner's loop does; p is where it ends. */
  method IsUint(s: string, b: nat, e: nat, max: nat) returns (ok: bool, p: nat)
    requires b <= e <= |s|
    ensures ok == TakeUint(s[b..e], max).Some?
    ensures p == b + if ok then TakeUint(s[b..e], max).value else 0
  {
    hide Value, Digits, DigitsEnd, UintEnd;
    ghost var text := s[b..e];
    if b == e || !IsNum(s[b]) {
      NoUint(text);
      return false, b;
    }
    var t := b + 1;
    var val := s[b] as int - '0' as int;
    OneDigit(text);
    if val != 0 {
      while t != e && IsNum(s[t])
        invariant b < t <= e
        invariant Digits(text[..t - b])
        invariant val == Value(text[..t - b]) % WRAP
      {
        OneMoreDigit(text, t - b);
        WrapStep(Value(text[..t - b]), s[t] as int - '0' as int);
        val := (val * 10 + (s[t] as int - '0' as int)) % WRAP;
        t := t + 1;
      }
    }
    DigitRun(text, t - b);
    if val > max {
      return false, b;
    }
    return true, t;
  }

  /** n numbers below 256 (after wrapping) with dots between them and nothing behind. */
  predicate Octets(s: string, n: nat)
    requires n > 0
  {
    match TakeUint(s, 255)
    case None => false
    case Some(k) => if n == 1 then k == |s| else k < |s| && s[k] == '.' && Octets(s[k + 1..], n - 1)
  }

  predicate IsValidIpv4(s: string) {
    Octets(s, 4)
  }

  method CheckIpv4(s: string, b: nat, e: nat) returns (ok: bool)
    requires b <= e <= |s|
    ensures ok == IsValidIpv4(s[b..e])
  {
    var p := b;
    ok, p := OctetAndDot(s, p, e, 4);
    if ok {
      ok, p := OctetAndDot(s, p, e, 3);
    }
    if ok {
      ok, p := OctetAndDot(s, p, e, 2);
    }
    if ok {
      ok, p := IsUint(s, p, e, 255);
      ok := ok && p == e;
    }
  }

  /** One number and the dot behind it; the rest must then hold one number less. */
  method OctetAndDot(s: string, b: nat, e: nat, n: nat) returns (ok: bool, p: nat)
    requires b <= e <= |s| && n > 1
    ensures b <= p <= e
    ensures Octets(s[b..e], n) == (ok && Octets(s[p..e], n - 1))
  {
    hide UintEnd, Value;
    ok, p := IsUint(s, b, e, 255);
    if ok {
      ok := p != e && s[p] == '.';
      if ok {
        assert s[b..e][p - b + 1..] == s[p + 1..e];
        p := p + 1;
      }
    }
  }

  /** The wrapped values are what counts: any canonical numbers that wrap to 255 or less pass. */
  ghost predicate WrappedOctet(d: string) {
    Canonical(d) && Value(d) % WRAP <= 255
  }

  ghost predicate WrappedOctets(s: string, n: nat, ds: seq<string>) {
    |ds| == n && s == Join(ds, '.') && forall i | 0 <= i < n :: WrappedOctet(ds[i])
  }

  lemma {:induction false} OctetsRead(s: string, n: nat) returns (ds: seq<string>)
    requires n > 0 && Octets(s, n)
    ensures WrappedOctets(s, n, ds)
  {
    var k := UintEnd(s);
    var d := s[..k];
    if n == 1 {
      ds := [d];
    } else {
      var rest := OctetsRead(s[k + 1..], n - 1);
      ds := [d] + rest;
      assert s == d + ['.'] + s[k + 1..];
    }
  }

  lemma {:induction false} OctetsPrinted(s: string, n: nat, ds: seq<string>)
    requires n > 0 && WrappedOctets(s, n, ds)
    ensures Octets(s, n)
    decreases n
  {
    if n == 1 {
      assert s == ds[0] + "";
      TakeUintOf(ds[0], "", 255);
    } else {
      OctetsPrinted(Join(ds[1..], '.'), n - 1, ds[1..]);
      OctetsStep(ds[0], Join(ds[1..], '.'), n);
    }
  }

  lemma OctetsStep(d: string, rest: string, n: nat)
    requires n > 1 && WrappedOctet(d)
    ensures Octets(d + ['.'] + rest, n) == Octets(rest, n - 1)
  {
    var s := d + ['.'] + rest;
    assert s == d + (['.'] + rest);
    TakeUintOf(d, ['.'] + rest, 255);
    assert s[|d| + 1..] == rest;
  }

  ghost predicate DottedDecimal(s: string) {
    exists a: nat, b: nat, c: nat, d: nat | a <= 255 && b <= 255 && c <= 255 && d <= 255 ::
      s == Dotted(a, b, c, d)
  }

  function Dotted(a: nat, b: nat, c: nat, d: nat): string {
    Print(a) + "." + Print(b) + "." + Print(c) + "." + Print(d)
  }

  /**
   * The recogniser accepts exactly the four-octet notation, except that longer
   * digit runs pass when they wrap to an octet; within 15 characters none can.
   */
  lemma Ipv4Exact(s: string)
    ensures DottedDecimal(s) <==> IsValidIpv4(s) && |s| <= 15
  {
    if DottedDecimal(s) {
      var a: nat, b: nat, c: nat, d: nat :| a <= 255 && b <= 255 && c <= 255 && d <= 255 && s == Dotted(a, b, c, d);
      DottedIsValid(a, b, c, d);
    }
    if IsValidIpv4(s) && |s| <= 15 {
      ShortIsDotted(s);
    }
  }

  lemma DottedIsValid(a: nat, b: nat, c: nat, d: nat)
    requires a <= 255 && b <= 255 && c <= 255 && d <= 255
    ensures IsValidIpv4(Dotted(a, b, c, d)) && |Dotted(a, b, c, d)| <= 15
  {
    var ds := [Print(a), Print(b), Print(c), Print(d)];
    JoinFour(ds);
    SmallPrint(a);
    SmallPrint(b);
    SmallPrint(c);
    SmallPrint(d);
    assert forall i | 0 <= i < 4 :: WrappedOctet(ds[i]);
    OctetsPrinted(Dotted(a, b, c, d), 4, ds);
  }

  lemma ShortIsDotted(s: string)
    requires IsValidIpv4(s) && |s| <= 15
    ensures DottedDecimal(s)
  {
    var ds := OctetsRead(s, 4);
    JoinFour(ds);
    assert WrappedOctet(ds[0]) && WrappedOctet(ds[1]) && WrappedOctet(ds[2]) && WrappedOctet(ds[3]);
    ShortOctet(ds[0]);
    ShortOctet(ds[1]);
    ShortOctet(ds[2]);
    ShortOctet(ds[3]);
    assert s == Dotted(Value(ds[0]), Value(ds[1]), Value(ds[2]), Value(ds[3]));
  }

  lemma ShortOctet(d: string)
    requires WrappedOctet(d) && |d| <= 9
    ensures d == Print(Value(d)) && Value(d) <= 255
  {
    CanonicalIsPrint(d);
    ShortValue(d);
  }

  lemma JoinFour(ds: seq<string>)
    requires |ds| == 4
    ensures Join(ds, '.') == ds[0] + "." + ds[1] + "." + ds[2] + "." + ds[3]
  {
    assert ds[1..][1..] == ds[2..] && ds[2..][1..] == ds[3..];
    assert Join(ds[3..], '.') == ds[3];
    assert Join(ds[2..], '.') == ds[2] + ['.'] + ds[3];
    assert Join(ds[1..], '.') == ds[1] + ['.'] + (ds[2] + ['.'] + ds[3]);
  }

  lemma {:induction false} PrintLength(n: nat, k: nat)
    requires n < Pow10(k) && k > 0
    ensures |Print(n)| <= k
  {
    if n >= 10 {
      PrintLength(n / 10, k - 1);
    }
  }

  /** Beyond that length a number that wraps is taken for an octet. */
  lemma Ipv4Wraps()
    ensures IsValidIpv4("4294967296.0.0.0") && !DottedDecimal("4294967296.0.0.0")
  {
    var s := "4294967296.0.0.0";
    var ds := ["4294967296", "0", "0", "0"];
    JoinFour(ds);
    BigValue();
    assert Value("0") == 0 by { assert "0"[..0] == ""; }
    OctetsPrinted(s, 4, ds);
    Ipv4Exact(s);
  }

  lemma BigValue()
    ensures Value("4294967296") == WRAP
  {
    assert "4294967296"[..9] == "429496729" && "429496729"[..8] == "42949672" && "42949672"[..7] == "4294967";
    assert "4294967"[..6] == "429496" && "429496"[..5] == "42949" && "42949"[..4] == "4294";
    assert "4294"[..3] == "429" && "429"[..2] == "42" && "42"[..1] == "4" && "4"[..0] == "";
    assert Value("4294") == 4294;
    assert Value("4294967") == 4294967;
  }

  /** The shape test of the host scanner: 7 to 254 characters, all digits and dots. */
  predicate IsIpv4(s: string) {
    7 <= |s| <= 254 && forall i | 0 <= i < |s| :: s[i] == '.' || IsNum(s[i])
  }

  method LooksIpv4(s: string, b: nat, e: nat) returns (ok: bool)
    requires b <= e <= |s|
    ensures ok == IsIpv4(s[b..e])
  {
    if e - b < 7 || e - b > 254 {
      return false;
    }
    var p := b;
    while p != e
      invariant b <= p <= e
      invariant forall i | b <= i < p :: s[i] == '.' || IsNum(s[i])
    {
      if s[p] != '.' && !IsNum(s[p]) {
        assert s[b..e][p - b] == s[p];
        return false;
      }
      p := p + 1;
    }
    return true;
  }

  lemma {:induction false} OctetsShape(s: string, n: nat)
    requires n > 0 && Octets(s, n)
    ensures |s| >= 2 * n - 1 && forall i | 0 <= i < |s| :: s[i] == '.' || IsNum(s[i])
  {
    hide Value;
    var k := UintEnd(s);
    if n > 1 {
      OctetsShape(s[k + 1..], n - 1);
      assert s == s[..k] + ['.'] + s[k + 1..];
    } else {
      assert s == s[..k];
    }
  }

  /** Every four-octet notation has the shape; of the texts the recogniser accepts only those over 254 characters do not. */
  lemma Ipv4HasShape(s: string)
    ensures IsValidIpv4(s) ==> (IsIpv4(s) <==> |s| <= 254)
    ensures DottedDecimal(s) ==> IsIpv4(s)
  {
    Ipv4Exact(s);
    if IsValidIpv4(s) {
      OctetsShape(s, 4);
    }
  }

  predicate IsPort(s: string) {
    TakeUint(s, 65535) == Some(|s|)
  }

  method CheckPort(s: string, b: nat, e: nat) returns (ok: bool)
    requires b <= e <= |s|
    ensures ok == IsPort(s[b..e])
  {
    var p;
    ok, p := IsUint(s, b, e, 65535);
    ok := ok && p == e;
  }

  ghost predicate PortNumber(s: string) {
    exists n: nat | n <= 65535 :: s == Print(n)
  }

  /** A port is a canonical number that wraps to 16 bits. */
  lemma PortWrapped(s: string)
    ensures IsPort(s) <==> Canonical(s) && Value(s) % WRAP <= 65535
  {
    assert s[..|s|] == s && s + "" == s;
    if Canonical(s) {
      TakeUintOf(s, "", 65535);
    }
  }

  /** The ports accepted are 0 to 65535 in decimal notation, and longer runs that wrap. */
  lemma PortExact(s: string)
    ensures PortNumber(s) <==> IsPort(s) && |s| <= 9
  {
    if IsPort(s) && |s| <= 9 {
      PortWrapped(s);
      CanonicalIsPrint(s);
      ShortValue(s);
      assert s == Print(Value(s));
    }
    if PortNumber(s) {
      var n: nat :| n <= 65535 && s == Print(n);
      SmallPrint(n);
      PortWrapped(s);
    }
  }

  lemma SmallPrint(n: nat)
    requires n <= 65535
    ensures |Print(n)| <= 5 && Value(Print(n)) % WRAP == n
    ensures n <= 255 ==> |Print(n)| <= 3
  {
    assert Pow10(3) == 1000;
    assert Pow10(5) == 100 * Pow10(3);
    PrintLength(n, 5);
    if n <= 255 {
      PrintLength(n, 3);
    }
  }

  /** Beyond nine digits a number that wraps is taken for a port. */
  lemma PortWraps()
    ensures IsPort("4294967296")
  {
    hide IsPort, Value;
    BigValue();
    PortWrapped("4294967296");
  }
}
