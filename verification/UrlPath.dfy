/** Removal of dot segments and repeated slashes from a path. */
module UrlPath {
  import opened UrlChars
  import opened UrlPercent
  import opened Strings

  /** What a segment that ends in a slash does to the stack of kept segments. */
  function Push(stack: seq<string>, elem: string): seq<string> {
    if elem == "" || elem == "." then stack
    else if elem == ".." then (if stack == [] then [] else stack[..|stack| - 1])
    else stack + [elem]
  }

  /** What the last segment does: it may be empty, and "." leaves an empty one behind. */
  function PushLast(stack: seq<string>, elem: string): seq<string> {
    if elem == "." then stack + [""]
    else if elem == ".." then (if stack == [] then [] else stack[..|stack| - 1])
    else stack + [elem]
  }

  function Reduce(segs: seq<string>, stack: seq<string>): seq<string>
    requires |segs| > 0
  {
    if |segs| == 1 then PushLast(stack, segs[0]) else Reduce(segs[1..], Push(stack, segs[0]))
  }

  function Root(s: string): string {
    if s != "" && s[0] == '/' then "/" else ""
  }

  function Body(s: string): string {
    s[|Root(s)|..]
  }

  function Normalize(s: string): string {
    if s == "" then "" else Root(s) + Join(Reduce(Split(s, '/'), []), '/')
  }

  ghost predicate Normal(elem: string) {
    elem != "" && elem != "." && elem != ".." && '/' !in elem
  }

  /** No dot segments, and no empty segment except perhaps the last. */
  ghost predicate Clean(segs: seq<string>) {
    (forall i | 0 <= i < |segs| - 1 :: Normal(segs[i]))
    && (|segs| > 0 ==> var last := segs[|segs| - 1]; last == "" || Normal(last))
  }

  /** A path whose segments, after the leading slash if there is one, are clean. */
  ghost predicate Normalized(s: string) {
    Clean(Split(Body(s), '/'))
  }

  lemma {:induction false} ReduceIsClean(segs: seq<string>, stack: seq<string>)
    requires |segs| > 0 && Free(segs, '/')
    requires forall i | 0 <= i < |stack| :: Normal(stack[i])
    ensures Clean(Reduce(segs, stack))
  {
    if |segs| > 1 {
      ReduceIsClean(segs[1..], Push(stack, segs[0]));
    }
  }

  lemma {:induction false} ReduceKeepsClean(segs: seq<string>, stack: seq<string>)
    requires |segs| > 0 && Clean(segs)
    ensures Reduce(segs, stack) == stack + segs
  {
    if |segs| > 1 {
      ReduceKeepsClean(segs[1..], Push(stack, segs[0]));
    }
  }

  lemma SplitRooted(s: string)
    requires Root(s) == "/"
    ensures Split(s, '/') == [""] + Split(Body(s), '/')
    ensures Reduce(Split(s, '/'), []) == Reduce(Split(Body(s), '/'), [])
  {
    assert s == "" + ['/'] + Body(s);
    SplitAfter("", Body(s), '/');
    assert Split(s, '/')[1..] == Split(Body(s), '/');
  }

  /** The stack machine sees the segments behind the leading slash only. */
  lemma NormalizeBody(s: string)
    requires s != ""
    ensures Normalize(s) == Root(s) + Join(Reduce(Split(Body(s), '/'), []), '/')
  {
    if Root(s) == "/" {
      SplitRooted(s);
    } else {
      assert Body(s) == s;
    }
  }

  /** The result has no dot or empty segments, and is absolute exactly when the input is. */
  lemma NormalizeShape(s: string)
    ensures Normalized(Normalize(s))
    ensures Root(Normalize(s)) == Root(s)
  {
    if s == "" {
      assert Split("", '/') == [""];
    } else {
      NormalizeBody(s);
      var elems := Reduce(Split(Body(s), '/'), []);
      SplitIsFree(Body(s), '/');
      ReduceIsClean(Split(Body(s), '/'), []);
      CleanJoin(elems);
      if Root(s) == "/" {
        assert Body(Normalize(s)) == Join(elems, '/');
      } else {
        assert Normalize(s) == Join(elems, '/');
      }
    }
  }

  lemma CleanJoin(elems: seq<string>)
    requires Clean(elems)
    ensures Root(Join(elems, '/')) == ""
    ensures Clean(Split(Join(elems, '/'), '/'))
    ensures |elems| > 0 ==> Split(Join(elems, '/'), '/') == elems
  {
    if |elems| > 0 {
      SplitJoin(elems, '/');
      var head := elems[0];
      assert head != "" ==> head[0] in head && Join(elems, '/')[0] == head[0];
    } else {
      assert Split("", '/') == [""];
    }
  }

  /** The normalised paths are exactly the paths that normalisation leaves alone. */
  lemma NormalizeFixes(s: string)
    ensures Normalize(s) == s <==> Normalized(s)
  {
    NormalizeShape(s);
    if Normalized(s) && s != "" {
      NormalizeBody(s);
      var segs := Split(Body(s), '/');
      ReduceKeepsClean(segs, []);
      assert [] + segs == segs;
      JoinSplit(Body(s), '/');
      assert s == Root(s) + Body(s);
    }
  }

  lemma NormalizeTwice(s: string)
    ensures Normalize(Normalize(s)) == Normalize(s)
  {
    NormalizeShape(s);
    NormalizeFixes(Normalize(s));
  }

  /** A normalised path cannot be mistaken for an authority. */
  lemma NormalizedNoDoubleSlash(s: string)
    requires |s| > 1 && s[0] == '/' && s[1] == '/'
    ensures !Normalized(s)
  {
    assert Root(Body(s)) == "/";
    SplitRooted(Body(s));
    assert !Normal(Split(Body(s), '/')[0]);
  }

  // Normalising never makes the printed path longer.

  /** The cost of the segments, each with a slash. */
  function SegmentCost(parts: seq<string>): nat {
    if parts == [] then 0 else Cost(parts[0], PATH_ENCODING) + 1 + SegmentCost(parts[1..])
  }

  lemma {:induction false} SegmentCostConcat(a: seq<string>, b: seq<string>)
    ensures SegmentCost(a + b) == SegmentCost(a) + SegmentCost(b)
  {
    if a == [] {
      assert a + b == b;
    } else {
      assert (a + b)[1..] == a[1..] + b;
      SegmentCostConcat(a[1..], b);
    }
  }

  lemma {:induction false} JoinCost(parts: seq<string>)
    requires |parts| > 0
    ensures Cost(Join(parts, '/'), PATH_ENCODING) == SegmentCost(parts) - 1
  {
    if |parts| > 1 {
      JoinCost(parts[1..]);
      CostConcat(parts[0] + ['/'], Join(parts[1..], '/'), PATH_ENCODING);
      CostConcat(parts[0], ['/'], PATH_ENCODING);
      SlashCost();
    } else {
      assert SegmentCost(parts[1..]) == 0;
    }
  }

  lemma SlashCost()
    ensures Cost("/", PATH_ENCODING) == 1
  {
    assert "/"[1..] == "";
  }

  lemma PushShrinks(stack: seq<string>, elem: string)
    ensures SegmentCost(Push(stack, elem)) <= SegmentCost(stack) + SegmentCost([elem])
    ensures SegmentCost(PushLast(stack, elem)) <= SegmentCost(stack) + SegmentCost([elem])
  {
    SegmentCostConcat(stack, [elem]);
    SegmentCostConcat(stack, [""]);
    assert [elem][1..] == [] && [""][1..] == [];
    if stack != [] {
      assert stack == stack[..|stack| - 1] + [stack[|stack| - 1]];
      SegmentCostConcat(stack[..|stack| - 1], [stack[|stack| - 1]]);
    }
  }

  lemma {:induction false} ReduceShrinks(segs: seq<string>, stack: seq<string>)
    requires |segs| > 0
    ensures SegmentCost(Reduce(segs, stack)) <= SegmentCost(stack) + SegmentCost(segs)
  {
    PushShrinks(stack, segs[0]);
    assert segs == [segs[0]] + segs[1..];
    SegmentCostConcat([segs[0]], segs[1..]);
    if |segs| > 1 {
      ReduceShrinks(segs[1..], Push(stack, segs[0]));
    } else {
      assert segs[1..] == [];
    }
  }

  lemma NormalizeNoLonger(s: string)
    ensures Cost(Normalize(s), PATH_ENCODING) <= Cost(s, PATH_ENCODING)
  {
    if s != "" {
      NormalizeBody(s);
      var segs := Split(Body(s), '/');
      var elems := Reduce(segs, []);
      ReduceShrinks(segs, []);
      JoinCost(segs);
      JoinSplit(Body(s), '/');
      assert s == Root(s) + Body(s);
      CostConcat(Root(s), Body(s), PATH_ENCODING);
      if elems != [] {
        JoinCost(elems);
        CostConcat(Root(s), Join(elems, '/'), PATH_ENCODING);
      } else {
        assert Normalize(s) == Root(s);
      }
    }
  }

  /** Reads one segment after the other onto a stack. */
  method ReadSegments(s: string) returns (elems: seq<string>)
    requires s != ""
    ensures elems == Reduce(Split(s, '/'), [])
  {
    hide Split;
    elems := [];
    var elem, p := "", 0;
    assert s[0..] == s;
    while true
      invariant 0 <= p <= |s|
      invariant Reduce(Split(s[p..], '/'), elems) == Reduce(Split(s, '/'), [])
      decreases |s| - p
    {
      var q := FindChar(s, p, |s|, '/');
      elem := s[p..q];
      assert s[p..|s|] == s[p..];
      if q == |s| {
        SplitWhole(elem, '/');
        break;
      }
      SplitSegment(s, p, q);
      p := q + 1;
      if elem == "" || elem == "." {
        continue;
      }
      if elem == ".." {
        if elems != [] {
          elems := elems[..|elems| - 1];
        }
        continue;
      }
      elems := elems + [elem];
    }
    if elem == "." {
      elems := elems + [""];
    } else if elem == ".." {
      if elems != [] {
        elems := elems[..|elems| - 1];
      }
    } else {
      elems := elems + [elem];
    }
  }

  lemma SplitSegment(s: string, p: nat, q: nat)
    requires p <= q < |s| && s[q] == '/' && '/' !in s[p..q]
    ensures Split(s[p..], '/') == [s[p..q]] + Split(s[q + 1..], '/')
    ensures Split(s[p..], '/')[1..] == Split(s[q + 1..], '/')
  {
    assert s[p..] == s[p..q] + ['/'] + s[q + 1..];
    SplitAfter(s[p..q], s[q + 1..], '/');
  }

  method NormalizePath(s: string) returns (o: string)
    ensures o == Normalize(s)
  {
    if s == "" {
      return s;
    }
    var elems := ReadSegments(s);
    o := "";
    if s[0] == '/' {
      o := "/";
    }
    if elems != [] {
      o := o + elems[0];
      var i := 1;
      assert elems[..1] == [elems[0]];
      while i != |elems|
        invariant 1 <= i <= |elems|
        invariant o == Root(s) + Join(elems[..i], '/')
      {
        JoinAppend(elems[..i], elems[i], '/');
        assert elems[..i + 1] == elems[..i] + [elems[i]];
        o := o + "/" + elems[i];
        i := i + 1;
      }
      assert elems[..|elems|] == elems;
    }
  }
}
