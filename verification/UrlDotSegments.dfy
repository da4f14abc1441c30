/** What dot segments and repeated slashes do to a path, said of the texts themselves. */
module UrlDotSegments {
  import opened UrlPath
  import opened Strings

  /** The kept segments in front of a slash. */
  function PushAll(stack: seq<string>, segs: seq<string>): seq<string>
    decreases |segs|
  {
    if segs == [] then stack else PushAll(Push(stack, segs[0]), segs[1..])
  }

  lemma {:induction false} PushAllConcat(stack: seq<string>, a: seq<string>, b: seq<string>)
    ensures PushAll(stack, a + b) == PushAll(PushAll(stack, a), b)
    decreases |a|
  {
    if a == [] {
      assert a + b == b;
    } else {
      assert (a + b)[1..] == a[1..] + b;
      PushAllConcat(Push(stack, a[0]), a[1..], b);
    }
  }

  lemma {:induction false} ReduceConcat(a: seq<string>, b: seq<string>, stack: seq<string>)
    requires |b| > 0
    ensures Reduce(a + b, stack) == Reduce(b, PushAll(stack, a))
  {
    if a == [] {
      assert a + b == b;
    } else {
      assert (a + b)[1..] == a[1..] + b;
      ReduceConcat(a[1..], b, Push(stack, a[0]));
    }
  }

  lemma SplitFirst(c: char, rest: string, sep: char)
    ensures var r := Split(rest, sep);
      Split([c] + rest, sep) == if c == sep then [""] + r else [[c] + r[0]] + r[1..]
  {
    assert ([c] + rest)[1..] == rest;
  }

  lemma FirstGrows(c: char, sep: char, r: seq<string>, more: seq<string>)
    requires |r| > 0
    ensures var all := r + more;
      (if c == sep then [""] + all else [[c] + all[0]] + all[1..])
        == (if c == sep then [""] + r else [[c] + r[0]] + r[1..]) + more
  {
    assert (r + more)[1..] == r[1..] + more;
  }

  lemma {:induction false} SplitConcat(a: string, b: string, sep: char)
    ensures Split(a + [sep] + b, sep) == Split(a, sep) + Split(b, sep)
  {
    hide Split;
    if a == "" {
      assert a + [sep] + b == [sep] + b;
      SplitFirst(sep, b, sep);
      SplitWhole("", sep);
    } else {
      var c, rest := a[0], a[1..];
      SplitConcat(rest, b, sep);
      assert a == [c] + rest && a + [sep] + b == [c] + (rest + [sep] + b);
      SplitFirst(c, rest, sep);
      SplitFirst(c, rest + [sep] + b, sep);
      FirstGrows(c, sep, Split(rest, sep), Split(b, sep));
    }
  }

  /** A path that goes on behind a slash: what was kept so far, and what the rest does to it. */
  lemma NormalizeOn(a: string, b: string)
    ensures Normalize(a + "/" + b) == Root(a + "/") + Join(Reduce(Split(b, '/'), PushAll([], Split(a, '/'))), '/')
  {
    var s := a + "/" + b;
    SplitConcat(a, b, '/');
    assert s == a + ['/'] + b;
    ReduceConcat(Split(a, '/'), Split(b, '/'), []);
    assert s[0] == (a + "/")[0];
  }

  lemma KeptOf(a: string, segs: seq<string>)
    requires |segs| > 0 && Free(segs, '/')
    ensures PushAll([], Split(a + "/" + Join(segs, '/'), '/')) == PushAll(PushAll([], Split(a, '/')), segs)
  {
    assert a + "/" + Join(segs, '/') == a + ['/'] + Join(segs, '/');
    SplitConcat(a, Join(segs, '/'), '/');
    SplitJoin(segs, '/');
    PushAllConcat([], Split(a, '/'), segs);
  }

  lemma Two(a: string, x: string, y: string)
    requires '/' !in x && '/' !in y
    ensures PushAll([], Split(a + "/" + x + "/" + y, '/')) == Push(Push(PushAll([], Split(a, '/')), x), y)
  {
    KeptOf(a, [x, y]);
    assert [x, y][1..] == [y] && [y][1..] == [];
    assert Join([x, y], '/') == x + ['/'] + y;
    assert a + "/" + x + "/" + y == a + "/" + Join([x, y], '/');
    hide Push;
    assert PushAll(PushAll([], Split(a, '/')), [x, y]) == PushAll(Push(PushAll([], Split(a, '/')), x), [y]);
  }

  lemma One(a: string, x: string)
    requires '/' !in x
    ensures PushAll([], Split(a + "/" + x, '/')) == Push(PushAll([], Split(a, '/')), x)
  {
    KeptOf(a, [x]);
    assert [x][1..] == [];
    hide Push;
  }

  lemma SameRoot(a: string, b: string)
    ensures Root(a + "/" + b + "/") == Root(a + "/")
  {
    assert (a + "/" + b + "/")[0] == (a + "/")[0];
  }

  lemma PushParent(stack: seq<string>, n: string)
    requires Normal(n)
    ensures Push(stack, n) == stack + [n] && Push(Push(stack, n), "..") == stack
  {
    assert (stack + [n])[..|stack|] == stack;
  }

  lemma ParentText(a: string, n: string, b: string)
    ensures a + "/" + n + "/../" + b == (a + "/" + n + "/" + "..") + "/" + b
    ensures a + "/" + n + "/" + ".." == a + "/" + (n + "/" + "..")
  {
    assert "/../" == "/" + ".." + "/";
  }

  /** ".." takes back the segment in front of it. */
  lemma ParentTakesBack(a: string, n: string, b: string)
    requires Normal(n)
    ensures Normalize(a + "/" + n + "/../" + b) == Normalize(a + "/" + b)
  {
    PushParent(PushAll([], Split(a, '/')), n);
    Two(a, n, "..");
    hide Push, PushAll, Split, Reduce, Join, Root, Normalize, Normal;
    ParentText(a, n, b);
    NormalizeOn(a + "/" + n + "/" + "..", b);
    NormalizeOn(a, b);
    SameRoot(a, n + "/" + "..");
  }

  /** "." and an empty segment change nothing. */
  lemma DotIsNothing(a: string, b: string)
    ensures Normalize(a + "/./" + b) == Normalize(a + "/" + b)
    ensures Normalize(a + "//" + b) == Normalize(a + "/" + b)
  {
    assert a + "/./" + b == (a + "/" + ".") + "/" + b by {
      assert "/./" == "/" + "." + "/";
    }
    assert a + "//" + b == (a + "/" + "") + "/" + b by {
      assert "//" == "/" + "" + "/";
    }
    One(a, ".");
    One(a, "");
    NormalizeOn(a + "/" + ".", b);
    NormalizeOn(a + "/" + "", b);
    NormalizeOn(a, b);
    SameRoot(a, ".");
    SameRoot(a, "");
  }

  lemma NothingKept()
    ensures PushAll([], Split("", '/')) == [] && Push([], "..") == [] && PushAll([], Split("..", '/')) == []
    ensures Split("", '/') == [""] && Root(".." + "/") == "" && Join(Reduce([""], []), '/') == ""
  {
    SplitWhole("", '/');
    SplitWhole("..", '/');
    assert [""][1..] == [] && [".."][1..] == [];
    assert PushAll([], [""]) == PushAll([], []) && PushAll([], [".."]) == PushAll([], []);
  }

  lemma ClimbingText(b: string)
    ensures "/../" + b == ("" + "/" + "..") + "/" + b && "" + "/" + b == "/" + b && "../" + b == ".." + "/" + b
  {
    assert "/../" == "/" + ".." + "/";
  }

  lemma RelativeIsReduced(b: string)
    requires b == "" || b[0] != '/'
    ensures Normalize(b) == Join(Reduce(Split(b, '/'), []), '/')
  {
    NothingKept();
  }

  /** ".." with nothing kept in front of it is dropped: the path does not climb above its start. */
  lemma ParentOfNothing(b: string)
    ensures Normalize("/../" + b) == Normalize("/" + b)
    ensures (b == "" || b[0] != '/') ==> Normalize("../" + b) == Normalize(b)
  {
    NothingKept();
    hide Push, PushAll, Split, Reduce, Join, Root, Normalize;
    ClimbingText(b);
    One("", "..");
    NormalizeOn("" + "/" + "..", b);
    NormalizeOn("", b);
    SameRoot("", "..");
    NormalizeOn("..", b);
    if b == "" || b[0] != '/' {
      RelativeIsReduced(b);
    }
  }

  /** What is kept in front of a slash, and what the end of the path does to it. */
  lemma KeptAtEnd(a: string, end: string)
    requires end in {"", ".", ".."}
    ensures Normalize(a + "/" + end) == Root(a + "/") + Join(PushLast(PushAll([], Split(a, '/')), end), '/')
  {
    hide Split, PushAll, PushLast, Root, Join, Normalize;
    NormalizeOn(a, end);
    SplitWhole(end, '/');
    assert |Split(end, '/')| == 1;
  }

  /** At the end, ".." takes back a segment and its slash, and "." only leaves the slash. */
  lemma TrailingDots(a: string, n: string)
    requires Normal(n)
    ensures var t := Normalize(a + "/" + n + "/..");
      Normalize(a + "/") == if t == "" || t == "/" then t else t + "/"
    ensures Normalize(a + "/.") == Normalize(a + "/")
  {
    var stack := PushAll([], Split(a, '/'));
    assert a + "/" + n + "/.." == (a + "/" + n) + "/" + ".." by {
      assert "/.." == "/" + "..";
    }
    assert a + "/." == a + "/" + "." && a + "/" == a + "/" + "";
    KeptAtEnd(a, "");
    KeptAtEnd(a, ".");
    KeptAtEnd(a + "/" + n, "..");
    One(a, n);
    SameRoot(a, n);
    PushParent(stack, n);
    SplitIsFree(a, '/');
    KeptIsNormal(Split(a, '/'), []);
    ClosedKept(Root(a + "/"), stack);
    hide Normalize, Split, PushAll, Root, Join, Push, Normal;
    assert PushLast(stack + [n], "..") == stack by {
      assert (stack + [n])[..|stack|] == stack;
    }
  }

  lemma ClosedKept(root: string, stack: seq<string>)
    requires root in {"", "/"} && forall i | 0 <= i < |stack| :: Normal(stack[i])
    ensures var t := root + Join(stack, '/');
      root + Join(stack + [""], '/') == if t == "" || t == "/" then t else t + "/"
  {
    if stack == [] {
      assert Join([""], '/') == "" && stack + [""] == [""];
    } else {
      JoinAppend(stack, "", '/');
      JoinNotEmpty(stack);
      hide Join, Normal;
      SlashBehind(root, Join(stack, '/'));
    }
  }

  lemma SlashBehind(root: string, joined: string)
    requires root in {"", "/"} && joined != "" && joined[0] != '/'
    ensures root + joined != "" && root + joined != "/" && root + (joined + ['/'] + "") == root + joined + "/"
  {
    assert (root + joined)[|root|] == joined[0];
  }

  lemma {:induction false} KeptIsNormal(segs: seq<string>, stack: seq<string>)
    requires Free(segs, '/') && forall i | 0 <= i < |stack| :: Normal(stack[i])
    ensures forall i | 0 <= i < |PushAll(stack, segs)| :: Normal(PushAll(stack, segs)[i])
    decreases |segs|
  {
    if segs != [] {
      KeptIsNormal(segs[1..], Push(stack, segs[0]));
    }
  }

  lemma JoinNotEmpty(segs: seq<string>)
    requires segs != [] && Normal(segs[0])
    ensures Join(segs, '/') != "" && Join(segs, '/')[0] != '/'
  {
    assert segs[0][0] in segs[0];
  }

  /** The shortest paths. */
  lemma ShortPaths()
    ensures Normalize("..") == "" && Normalize("/..") == "/" && Normalize(".") == "" && Normalize("/.") == "/"
  {
    SplitWhole("..", '/');
    SplitWhole(".", '/');
    NormalizeOn("", "..");
    NormalizeOn("", ".");
    assert "" + "/" + ".." == "/.." && "" + "/" + "." == "/.";
    assert Split("", '/') == [""] && [""][1..] == [];
  }
}
