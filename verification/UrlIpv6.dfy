/** The single-pass recogniser of IPv6 addresses and the grammar it accepts. */
module UrlIpv6 {
  import opened UrlChars
  import opened UrlNumbers
  import opened Strings

  /** The shape test: 2 to 254 hexadecimal digits, colons and dots. */
  predicate IsIpv6(s: string) {
    2 <= |s| <= 254 && forall i | 0 <= i < |s| :: s[i] == ':' || s[i] == '.' || IsHexDigit(s[i])
  }

  method LooksIpv6(s: string, b: nat, e: nat) returns (ok: bool)
    requires b <= e <= |s|
    ensures ok == IsIpv6(s[b..e])
  {
    if e - b < 2 || e - b > 254 {
      return false;
    }
    var p := b;
    while p != e
      invariant b <= p <= e
      invariant forall i | b <= i < p :: s[i] == ':' || s[i] == '.' || IsHexDigit(s[i])
    {
      if s[p] != ':' && s[p] != '.' && !IsHexDigit(s[p]) {
        assert s[b..e][p - b] == s[p];
        return false;
      }
      p := p + 1;
    }
    return true;
  }

  /**
   * What the recogniser answers when it stands at p: compressed after a "::", with that many
   * complete groups and that many digits of the group that began at b.
   */
  function Accepts(s: string, p: nat, b: nat, compressed: bool, groups: nat, digits: nat): bool
    requires b <= p <= |s| && |s| >= 2
    decreases |s| - p
  {
    if p == |s| then
      if digits > 0 then (!compressed && groups + 1 == 8) || (compressed && groups + 1 < 8)
      else if s[|s| - 1] == ':' then s[|s| - 2] == ':' && groups < 8
      else (!compressed && groups == 8) || (compressed && groups < 8)
    else if s[p] == '.' then
      ((!compressed && groups == 6) || (compressed && groups < 7)) && IsValidIpv4(s[b..])
    else if s[p] == ':' then
      if digits == 0 then !compressed && Accepts(s, p + 1, p + 1, true, groups, 0)
      else Accepts(s, p + 1, p + 1, compressed, groups + 1, 0)
    else digits < 4 && IsHexDigit(s[p]) && Accepts(s, p + 1, b, compressed, groups, digits + 1)
  }

  predicate IsValidIpv6(s: string) {
    && 2 <= |s| <= 39
    && if s[0] != ':' then Accepts(s, 0, 0, false, 0, 0)
       else s[1] == ':' && (|s| == 2 || Accepts(s, 2, 2, true, 0, 0))
  }

  method CheckIpv6(s: string) returns (ok: bool)
    ensures ok == IsValidIpv6(s)
  {
    if |s| > 39 || |s| < 2 {
      return false;
    }
    var nullField := false;
    var b, p := 0, 0;
    var nfields, ndigits := 0, 0;
    if s[0] == ':' {
      if s[1] != ':' {
        return false;
      }
      nullField := true;
      p := p + 2;
      b := p;
      if p == |s| {
        return true;
      }
    }
    while p != |s|
      invariant b <= p <= |s| && nfields >= 0 && ndigits >= 0
      invariant IsValidIpv6(s) == Accepts(s, p, b, nullField, nfields, ndigits)
    {
      if s[p] == '.' {
        var v4 := CheckIpv4(s, b, |s|);
        assert s[b..] == s[b..|s|];
        return ((!nullField && nfields == 6) || (nullField && nfields < 7)) && v4;
      } else if s[p] == ':' {
        if ndigits == 0 {
          if nullField {
            return false;
          }
          nullField := true;
        } else {
          nfields := nfields + 1;
          ndigits := 0;
        }
        p := p + 1;
        b := p;
      } else {
        ndigits := ndigits + 1;
        if ndigits > 4 || !IsHexDigit(s[p]) {
          return false;
        }
        p := p + 1;
      }
    }
    if ndigits > 0 {
      nfields := nfields + 1;
    } else if s[|s| - 1] == ':' {
      return s[|s| - 2] == ':' && nfields < 8;
    }
    return (!nullField && nfields == 8) || (nullField && nfields < 8);
  }

  // The grammar of section 2.2 of RFC 4291 without an embedded IPv4 address.

  predicate Group(g: string) {
    1 <= |g| <= 4 && forall i | 0 <= i < |g| :: IsHexDigit(g[i])
  }

  ghost predicate Groups(gs: seq<string>) {
    forall i | 0 <= i < |gs| :: Group(gs[i])
  }

  ghost predicate Full(s: string, gs: seq<string>) {
    Groups(gs) && |gs| == 8 && s == Join(gs, ':')
  }

  ghost predicate Compressed(s: string, l: seq<string>, r: seq<string>) {
    Groups(l) && Groups(r) && |l| + |r| <= 7 && s == Join(l, ':') + "::" + Join(r, ':')
  }

  /** Eight groups, or at most seven with exactly one "::" between or around them. */
  ghost predicate Ipv6Grammar(s: string) {
    (exists gs :: Full(s, gs)) || (exists l, r :: Compressed(s, l, r))
  }

  // Soundness: what is accepted has a derivation.

  /** Groups, each with the colon behind it. */
  function Closed(gs: seq<string>): string {
    if gs == [] then "" else Closed(gs[..|gs| - 1]) + gs[|gs| - 1] + ":"
  }

  lemma {:induction false} JoinClosed(gs: seq<string>, last: string)
    ensures Join(gs + [last], ':') == Closed(gs) + last
  {
    if gs == [] {
      assert gs + [last] == [last];
    } else {
      var front := gs[..|gs| - 1];
      var g := gs[|gs| - 1];
      JoinClosed(front, g);
      assert front + [g] == gs;
      JoinAppend(gs, last, ':');
      assert Closed(gs) + last == Closed(front) + g + [':'] + last;
    }
  }

  lemma ClosedEnd(gs: seq<string>)
    requires Groups(gs) && gs != []
    ensures |Closed(gs)| >= 2 && Closed(gs)[|Closed(gs)| - 1] == ':'
    ensures IsHexDigit(Closed(gs)[|Closed(gs)| - 2])
    ensures Closed(gs) == Join(gs, ':') + ":"
  {
    var front := gs[..|gs| - 1];
    var g := gs[|gs| - 1];
    assert Group(g);
    JoinClosed(front, g);
    assert front + [g] == gs;
    assert IsHexDigit(g[|g| - 1]);
  }

  /** What was read so far: the groups left of "::", those right of it, and the open group. */
  function Read(compressed: bool, l: seq<string>, r: seq<string>, open: string): string {
    if !compressed then Closed(l) + open
    else (if l == [] then ":" else Closed(l)) + ":" + Closed(r) + open
  }

  lemma ReadDigit(compressed: bool, l: seq<string>, r: seq<string>, open: string, c: char)
    ensures Read(compressed, l, r, open + [c]) == Read(compressed, l, r, open) + [c]
  {
  }

  lemma ReadColon(compressed: bool, l: seq<string>, r: seq<string>, open: string)
    ensures compressed ==> Read(true, l, r + [open], "") == Read(true, l, r, open) + ":"
    ensures !compressed ==> Read(false, l + [open], r, "") == Read(false, l, r, open) + ":"
    ensures l != [] ==> Read(true, l, [], "") == Read(false, l, r, "") + ":"
  {
    assert (r + [open])[..|r|] == r && (l + [open])[..|l|] == l;
  }

  /** The state of the recogniser at p, with what it has read. */
  ghost predicate At(s: string, p: nat, compressed: bool, l: seq<string>, r: seq<string>, open: string) {
    && p <= |s|
    && Groups(l) && Groups(r) && (open == "" || Group(open))
    && (!compressed ==> r == [])
    && s[..p] == Read(compressed, l, r, open)
  }

  lemma {:induction false} AcceptsSound(s: string, p: nat, b: nat, compressed: bool,
    l: seq<string>, r: seq<string>, open: string)
    requires b <= p <= |s| && |s| >= 2 && '.' !in s && (p == 0 ==> s[0] != ':')
    requires At(s, p, compressed, l, r, open)
    requires Accepts(s, p, b, compressed, |l| + |r|, |open|)
    ensures Ipv6Grammar(s)
    decreases |s| - p
  {
    hide Read, Ipv6Grammar, Groups;
    if p == |s| {
      assert s[..p] == s;
      if open == "" {
        AcceptsClosedEnd(s, compressed, l, r);
      } else {
        AcceptsOpenEnd(s, compressed, l, r, open);
      }
    } else {
      assert s[p] in s;
      assert s[..p + 1] == s[..p] + [s[p]];
      ReadColon(compressed, l, r, open);
      ReadDigit(compressed, l, r, open, s[p]);
      GroupsGrow(l, r, open);
      if s[p] == ':' {
        if open == "" {
          ReadNothing(s, p, l, r);
          AcceptsSound(s, p + 1, p + 1, true, l, [], "");
        } else if compressed {
          AcceptsSound(s, p + 1, p + 1, true, l, r + [open], "");
        } else {
          AcceptsSound(s, p + 1, p + 1, false, l + [open], [], "");
        }
      } else {
        AcceptsSound(s, p + 1, b, compressed, l, r, open + [s[p]]);
      }
    }
  }

  lemma GroupsGrow(l: seq<string>, r: seq<string>, open: string)
    requires Groups(l) && Groups(r)
    ensures Groups([])
    ensures Group(open) ==> Groups(l + [open]) && Groups(r + [open])
  {
  }

  /** At the start nothing was read; a colon there cannot begin a "::". */
  lemma ReadNothing(s: string, p: nat, l: seq<string>, r: seq<string>)
    requires p < |s| && s[p] == ':' && (p == 0 ==> s[0] != ':')
    requires At(s, p, false, l, r, "")
    ensures l != []
  {
  }

  /** At the end of the text the number of groups decides. */
  lemma AcceptsEnd(s: string, b: nat, compressed: bool, groups: nat, digits: nat)
    requires b <= |s| && |s| >= 2 && digits > 0
    ensures Accepts(s, |s|, b, compressed, groups, digits) == (if compressed then groups + 1 < 8 else groups + 1 == 8)
  {
  }

  lemma AcceptsOpenEnd(s: string, compressed: bool, l: seq<string>, r: seq<string>, open: string)
    requires |s| >= 2 && At(s, |s|, compressed, l, r, open) && open != ""
    requires Accepts(s, |s|, |s|, compressed, |l| + |r|, |open|)
    ensures Ipv6Grammar(s)
  {
    AcceptsEnd(s, |s|, compressed, |l| + |r|, |open|);
    hide Accepts;
    assert s[..|s|] == s;
    if l != [] {
      ClosedEnd(l);
    }
    JoinClosed(l, open);
    JoinClosed(r, open);
    if compressed {
      assert s == Join(l, ':') + "::" + Join(r + [open], ':');
      assert Compressed(s, l, r + [open]);
    } else {
      assert Full(s, l + [open]);
    }
  }

  lemma AcceptsClosedEnd(s: string, compressed: bool, l: seq<string>, r: seq<string>)
    requires |s| >= 2 && At(s, |s|, compressed, l, r, "")
    requires Accepts(s, |s|, |s|, compressed, |l| + |r|, 0)
    ensures Ipv6Grammar(s)
  {
    assert s[..|s|] == s;
    EndsWithColons(s, compressed, l, r);
    if l != [] {
      ClosedEnd(l);
    }
    assert s == Join(l, ':') + "::" + Join([], ':');
    assert Compressed(s, l, []);
  }

  lemma EndsWithColons(s: string, compressed: bool, l: seq<string>, r: seq<string>)
    requires |s| >= 2 && At(s, |s|, compressed, l, r, "") && (s[|s| - 1] == ':' ==> s[|s| - 2] == ':')
    ensures compressed && r == []
  {
    assert s[..|s|] == s;
    if r != [] {
      ClosedEnd(r);
    } else if l != [] {
      ClosedEnd(l);
    }
  }

  // Completeness: every derivation is accepted.

  lemma {:induction false} FeedDigits(s: string, p: nat, b: nat, q: nat, compressed: bool, groups: nat, digits: nat)
    requires b <= p <= q <= |s| && |s| >= 2
    requires forall i | p <= i < q :: IsHexDigit(s[i])
    requires digits + (q - p) <= 4
    ensures Accepts(s, p, b, compressed, groups, digits) == Accepts(s, q, b, compressed, groups, digits + (q - p))
    decreases q - p
  {
    if p < q {
      FeedDigits(s, p + 1, b, q, compressed, groups, digits + 1);
    }
  }

  /** Groups and their colons are read one by one. */
  lemma {:induction false} FeedClosed(s: string, p: nat, gs: seq<string>, compressed: bool, groups: nat)
    requires |s| >= 2 && Groups(gs)
    requires p + |Closed(gs)| <= |s| && s[p..p + |Closed(gs)|] == Closed(gs)
    ensures var q := p + |Closed(gs)|;
      Accepts(s, p, p, compressed, groups, 0) == Accepts(s, q, q, compressed, groups + |gs|, 0)
    decreases |gs|
  {
    if gs != [] {
      var front := gs[..|gs| - 1];
      var g := gs[|gs| - 1];
      var m := p + |Closed(front)|;
      var q := p + |Closed(gs)|;
      assert s[p..m] == s[p..q][..|Closed(front)|];
      FeedClosed(s, p, front, compressed, groups);
      FeedGroup(s, m, q - 1, g, compressed, groups + |front|) by {
        assert forall i | p <= i < q :: s[i] == Closed(gs)[i - p];
      }
      assert s[q - 1] == Closed(gs)[q - 1 - p];
    }
  }

  lemma FeedGroup(s: string, p: nat, q: nat, g: string, compressed: bool, groups: nat)
    requires |s| >= 2 && Group(g) && p <= q == p + |g| <= |s| && s[p..q] == g
    ensures Accepts(s, p, p, compressed, groups, 0) == Accepts(s, q, p, compressed, groups, |g|)
  {
    forall i | p <= i < q ensures IsHexDigit(s[i]) {
      assert s[i] == g[i - p];
    }
    FeedDigits(s, p, p, q, compressed, groups, 0);
  }

  lemma TwoPieces(s: string, p: nat, a: string, b: string)
    requires p <= |s| && s[p..] == a + b
    ensures p + |a| + |b| == |s| && s[p..p + |a|] == a && s[p + |a|..|s|] == b
  {
    assert s[p..p + |a|] == s[p..][..|a|];
    assert s[p + |a|..] == s[p..][|a|..];
  }

  lemma FeedAll(s: string, p: nat, front: seq<string>, g: string, compressed: bool, groups: nat)
    requires |s| >= 2 && Groups(front) && Group(g) && p + |Closed(front)| + |g| == |s|
    requires s[p..p + |Closed(front)|] == Closed(front) && s[p + |Closed(front)|..|s|] == g
    ensures Accepts(s, p, p, compressed, groups, 0)
      == (if compressed then groups + |front| + 1 < 8 else groups + |front| + 1 == 8)
  {
    assert |g| > 0;
    hide Accepts, Closed, Group, Groups;
    var m := p + |Closed(front)|;
    FeedClosed(s, p, front, compressed, groups);
    FeedGroup(s, m, |s|, g, compressed, groups + |front|);
    AcceptsEnd(s, m, compressed, groups + |front|, |g|);
  }

  /** Groups to the end of the text: their number decides. */
  lemma FeedLast(s: string, p: nat, gs: seq<string>, compressed: bool, groups: nat)
    requires |s| >= 2 && Groups(gs) && gs != [] && p <= |s| && s[p..] == Join(gs, ':')
    ensures Accepts(s, p, p, compressed, groups, 0)
      == ((!compressed && groups + |gs| == 8) || (compressed && groups + |gs| < 8))
  {
    var front := gs[..|gs| - 1];
    var g := gs[|gs| - 1];
    assert Groups(front) && Group(g);
    assert front + [g] == gs;
    hide Accepts, Closed, Join, Group, Groups;
    JoinClosed(front, g);
    TwoPieces(s, p, Closed(front), g);
    FeedAll(s, p, front, g, compressed, groups);
  }

  lemma {:induction false} JoinBounds(gs: seq<string>)
    requires Groups(gs)
    ensures |Join(gs, ':')| <= 5 * |gs|
    ensures gs != [] ==> 2 * |gs| - 1 <= |Join(gs, ':')| <= 5 * |gs| - 1 && IsHexDigit(Join(gs, ':')[0])
  {
    if |gs| == 1 {
      assert Group(gs[0]);
    } else if gs != [] {
      assert Group(gs[0]);
      JoinBounds(gs[1..]);
    }
  }

  lemma FullIsValid(s: string, gs: seq<string>)
    requires Full(s, gs)
    ensures IsValidIpv6(s)
  {
    JoinBounds(gs);
    assert s[0..] == s;
    FeedLast(s, 0, gs, false, 0);
  }

  lemma CompressedIsValid(s: string, l: seq<string>, r: seq<string>)
    requires Compressed(s, l, r)
    ensures IsValidIpv6(s)
  {
    JoinBounds(l);
    JoinBounds(r);
    var m := |Join(l, ':')|;
    assert s[m] == ':' && s[m + 1] == ':' && s[m + 2..] == Join(r, ':');
    if l != [] {
      ClosedEnd(l);
      assert s[0..m + 1] == Closed(l);
      FeedClosed(s, 0, l, false, 0);
      assert s[0] == Join(l, ':')[0];
    }
    if r != [] {
      FeedLast(s, m + 2, r, true, |l|);
    }
  }

  /** On texts without '.', the recogniser accepts the grammar and nothing else. */
  lemma Ipv6Exact(s: string)
    requires '.' !in s
    ensures IsValidIpv6(s) <==> Ipv6Grammar(s)
  {
    if IsValidIpv6(s) {
      if s[0] != ':' {
        AcceptsSound(s, 0, 0, false, [], [], "");
      } else if |s| > 2 {
        assert s[..2] == "::";
        AcceptsSound(s, 2, 2, true, [], [], "");
      } else {
        assert s == Join([], ':') + "::" + Join([], ':');
        assert Compressed(s, [], []);
      }
    }
    if gs :| Full(s, gs) {
      FullIsValid(s, gs);
    }
    if l, r :| Compressed(s, l, r) {
      CompressedIsValid(s, l, r);
    }
  }

  // Addresses that end in an IPv4 address.

  /** The recogniser takes the digits in front of the first dot for an open group of at most four. */
  ghost predicate Ipv4Tail(t: string) {
    IsValidIpv4(t) && IndexOfAny(t, {'.'}) <= 4
  }

  ghost predicate FullMixed(s: string, gs: seq<string>, t: string) {
    Groups(gs) && |gs| == 6 && Ipv4Tail(t) && s == Closed(gs) + t
  }

  ghost predicate CompressedMixed(s: string, l: seq<string>, r: seq<string>, t: string) {
    Groups(l) && Groups(r) && |l| + |r| <= 6 && Ipv4Tail(t) && s == Join(l, ':') + "::" + Closed(r) + t
  }

  /** Six groups and an IPv4 address, or at most six of them with one "::" in front of, between or behind them. */
  ghost predicate MixedGrammar(s: string) {
    (exists gs, t :: FullMixed(s, gs, t)) || (exists l, r, t :: CompressedMixed(s, l, r, t))
  }

  /** The dot ends the digits of the first octet. */
  lemma FirstDot(t: string)
    requires IsValidIpv4(t)
    ensures var k := IndexOfAny(t, {'.'});
      0 < k < |t| && t[k] == '.' && forall i | 0 <= i < k :: IsNum(t[i])
    ensures |t| >= 7
  {
    hide Value;
    OctetsShape(t, 4);
    var k := UintEnd(t);
    assert Digits(t[..k]);
    assert forall i | 0 <= i < k :: IsNum(t[..k][i]) && t[i] == t[..k][i];
    IndexOfAnyIs(t, {'.'}, k);
  }

  lemma {:induction false} MixedSound(s: string, p: nat, b: nat, compressed: bool,
    l: seq<string>, r: seq<string>, open: string)
    requires b <= p <= |s| && |s| >= 2 && '.' in s[p..] && (p == 0 ==> s[0] != ':')
    requires At(s, p, compressed, l, r, open) && b + |open| == p && s[b..p] == open
    requires Accepts(s, p, b, compressed, |l| + |r|, |open|)
    ensures MixedGrammar(s)
    decreases |s| - p
  {
    hide Read, MixedGrammar, Groups, Closed, Join, IsValidIpv4, Ipv4Tail;
    assert s[..p + 1] == s[..p] + [s[p]];
    assert s[p..] == [s[p]] + s[p + 1..];
    ReadColon(compressed, l, r, open);
    ReadDigit(compressed, l, r, open, s[p]);
    GroupsGrow(l, r, open);
    if s[p] == '.' {
      MixedEnd(s, p, b, compressed, l, r, open);
    } else if s[p] == ':' {
      assert s[p + 1..p + 1] == "";
      if open == "" {
        ReadNothing(s, p, l, r);
        MixedSound(s, p + 1, p + 1, true, l, [], "");
      } else if compressed {
        MixedSound(s, p + 1, p + 1, true, l, r + [open], "");
      } else {
        MixedSound(s, p + 1, p + 1, false, l + [open], [], "");
      }
    } else {
      assert s[b..p + 1] == open + [s[p]];
      MixedSound(s, p + 1, b, compressed, l, r, open + [s[p]]);
    }
  }

  /** What was read in front of the open group. */
  lemma MixedText(compressed: bool, l: seq<string>, r: seq<string>, t: string)
    requires Groups(l) && Groups(r)
    ensures compressed ==> Read(true, l, r, "") + t == Join(l, ':') + "::" + Closed(r) + t
    ensures !compressed ==> Read(false, l, r, "") + t == Closed(l) + t
  {
    if l != [] {
      ClosedEnd(l);
      assert Closed(l) + ":" == Join(l, ':') + "::";
    } else {
      assert Join(l, ':') + "::" == ":" + ":";
    }
    assert Closed(r) + "" == Closed(r) && Closed(l) + "" == Closed(l);
  }

  lemma MixedParts(s: string, p: nat, b: nat, compressed: bool, l: seq<string>, r: seq<string>, open: string)
    requires b <= p <= |s| && b + |open| == p && s[b..p] == open && s[..p] == Read(compressed, l, r, open)
    ensures s == Read(compressed, l, r, "") + s[b..]
  {
    hide Closed;
    assert Read(compressed, l, r, open) == Read(compressed, l, r, "") + open;
    assert s[..b] == s[..p][..b] == Read(compressed, l, r, "");
  }

  lemma MixedTail(s: string, p: nat, b: nat, open: string)
    requires b <= p < |s| && s[p] == '.' && b + |open| == p && s[b..p] == open
    requires (open == "" || Group(open)) && IsValidIpv4(s[b..])
    ensures Ipv4Tail(s[b..])
  {
    hide IsValidIpv4;
    var t := s[b..];
    assert forall i | 0 <= i < |open| :: t[i] == open[i] && IsHexDigit(open[i]);
    IndexOfAnyIs(t, {'.'}, |open|);
  }

  lemma MixedEnd(s: string, p: nat, b: nat, compressed: bool, l: seq<string>, r: seq<string>, open: string)
    requires b <= p < |s| && |s| >= 2 && s[p] == '.'
    requires At(s, p, compressed, l, r, open) && b + |open| == p && s[b..p] == open
    requires Accepts(s, p, b, compressed, |l| + |r|, |open|)
    ensures MixedGrammar(s)
  {
    hide IsValidIpv4, Ipv4Tail, Read, Closed, Join, Groups, Group;
    MixedTail(s, p, b, open);
    MixedParts(s, p, b, compressed, l, r, open);
    MixedText(compressed, l, r, s[b..]);
    if compressed {
      assert CompressedMixed(s, l, r, s[b..]);
    } else {
      assert FullMixed(s, l, s[b..]);
    }
  }

  lemma FeedTail(s: string, p: nat, t: string, compressed: bool, groups: nat)
    requires p <= |s| && |s| >= 2 && s[p..] == t && Ipv4Tail(t)
    ensures Accepts(s, p, p, compressed, groups, 0) == (if compressed then groups < 7 else groups == 6)
  {
    FirstDot(t);
    hide IsValidIpv4, IndexOfAny;
    var k := IndexOfAny(t, {'.'});
    assert forall i | p <= i < p + k :: s[i] == t[i - p];
    FeedDigits(s, p, p, p + k, compressed, groups, 0);
    assert s[p + k] == t[k];
  }

  lemma ThreePieces(a: string, b: string, c: string)
    ensures var s := a + b + c;
      a <= s && s[|a|..|a| + |b|] == b && s[|a| + |b|..] == c
  {
  }

  lemma TailNotEmpty(t: string)
    requires Ipv4Tail(t)
    ensures t != ""
  {
    FirstDot(t);
  }

  /** Groups with their colons and the IPv4 address behind them. */
  lemma FeedMixed(s: string, p: nat, gs: seq<string>, t: string, compressed: bool, groups: nat)
    requires Groups(gs) && Ipv4Tail(t) && |s| >= 2
    requires p + |Closed(gs)| <= |s| && s[p..p + |Closed(gs)|] == Closed(gs) && s[p + |Closed(gs)|..] == t
    ensures Accepts(s, p, p, compressed, groups, 0) == (if compressed then groups + |gs| < 7 else groups + |gs| == 6)
  {
    hide Ipv4Tail, Accepts, Closed, Groups;
    FeedClosed(s, p, gs, compressed, groups);
    FeedTail(s, p + |Closed(gs)|, t, compressed, groups + |gs|);
  }

  lemma FullMixedIsValid(s: string, gs: seq<string>, t: string)
    requires FullMixed(s, gs, t) && |s| <= 39
    ensures IsValidIpv6(s)
  {
    ClosedEnd(gs);
    JoinBounds(gs);
    hide Accepts, Closed, Join, Groups, Ipv4Tail;
    assert s[..|Closed(gs)|] == s[0..0 + |Closed(gs)|] == Closed(gs);
    assert s[0] == Closed(gs)[0] == Join(gs, ':')[0];
    FeedMixed(s, 0, gs, t, false, 0);
  }

  /** The groups in front of "::" are read, and the recogniser stands behind it. */
  lemma FeedLeft(s: string, l: seq<string>)
    requires Groups(l) && Join(l, ':') + "::" <= s && 2 <= |s| <= 39
    ensures var m := |Join(l, ':') + "::"|;
      IsValidIpv6(s) <== |s| > m && Accepts(s, m, m, true, |l|, 0)
  {
    JoinBounds(l);
    var front := Join(l, ':') + "::";
    var m := |front|;
    assert s[..m] == front;
    assert s[m - 2] == front[m - 2] && s[m - 1] == front[m - 1];
    if l != [] {
      ClosedEnd(l);
      hide Join, Closed, Groups;
      assert front[..m - 1] == Join(l, ':') + ":";
      assert s[0..m - 1] == front[..m - 1];
      FeedClosed(s, 0, l, false, 0);
      assert s[0] == front[0];
    }
  }

  lemma CompressedMixedIsValid(s: string, l: seq<string>, r: seq<string>, t: string)
    requires CompressedMixed(s, l, r, t) && |s| <= 39
    ensures IsValidIpv6(s)
  {
    TailNotEmpty(t);
    hide Ipv4Tail, Accepts, Join, Closed, IsValidIpv6, Groups;
    var front := Join(l, ':') + "::";
    ThreePieces(front, Closed(r), t);
    FeedMixed(s, |front|, r, t, true, |l|);
    FeedLeft(s, l);
  }

  /**
   * On texts with '.', the recogniser accepts the mixed notation as far as it has at most 39
   * characters, and nothing else.
   */
  lemma MixedExact(s: string)
    requires '.' in s
    ensures IsValidIpv6(s) <==> |s| <= 39 && MixedGrammar(s)
  {
    hide IsValidIpv4, IndexOfAny;
    if IsValidIpv6(s) {
      if s[0] != ':' {
        assert s[0..] == s && s[0..0] == "";
        MixedSound(s, 0, 0, false, [], [], "");
      } else {
        assert s[..2] == "::" && s == s[..2] + s[2..] && s[2..2] == "";
        MixedSound(s, 2, 2, true, [], [], "");
      }
    }
    if |s| <= 39 {
      if gs, t :| FullMixed(s, gs, t) {
        FullMixedIsValid(s, gs, t);
      }
      if l, r, t :| CompressedMixed(s, l, r, t) {
        CompressedMixedIsValid(s, l, r, t);
      }
    }
  }

  lemma {:induction false} AcceptsShape(s: string, p: nat, b: nat, compressed: bool, groups: nat, digits: nat)
    requires b <= p <= |s| && |s| >= 2 && Accepts(s, p, b, compressed, groups, digits)
    ensures forall i | p <= i < |s| :: s[i] == ':' || s[i] == '.' || IsHexDigit(s[i])
    decreases |s| - p
  {
    hide Octets;
    if p == |s| {
    } else if s[p] == '.' {
      var t := s[b..];
      OctetsShape(t, 4);
      assert forall i | b <= i < |s| :: s[i] == t[i - b];
    } else if s[p] == ':' {
      if digits == 0 {
        AcceptsShape(s, p + 1, p + 1, true, groups, 0);
      } else {
        AcceptsShape(s, p + 1, p + 1, compressed, groups + 1, 0);
      }
    } else {
      AcceptsShape(s, p + 1, b, compressed, groups, digits + 1);
    }
  }

  /** Every address that the recogniser accepts passes the shape test in front of it. */
  lemma Ipv6HasShape(s: string)
    requires IsValidIpv6(s)
    ensures IsIpv6(s)
  {
    hide Accepts;
    if s[0] != ':' {
      AcceptsShape(s, 0, 0, false, 0, 0);
    } else if |s| > 2 {
      AcceptsShape(s, 2, 2, true, 0, 0);
    }
  }
}
