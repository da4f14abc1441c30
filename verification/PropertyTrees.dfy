/** Property trees as values: equality, and the name-indexed unordered trees it stands for. */
module PropertyTrees {
  import opened Wrappers

  datatype Tree = Node(name: string, kind: string, value: string, children: seq<Tree>)

  /** The position of the first child with the name, or the number of children. */
  function FindName(children: seq<Tree>, name: string): (n: nat)
    ensures n <= |children|
    ensures n < |children| ==> children[n].name == name
    ensures forall i | 0 <= i < n :: children[i].name != name
  {
    if children == [] || children[0].name == name then 0 else 1 + FindName(children[1..], name)
  }

  /** The comparison of the source: every child of b has an equal partner among the first of their name in a. */
  predicate IsEqual(a: Tree, b: Tree)
    decreases b, 1
  {
    && a.name == b.name && a.value == b.value && a.kind == b.kind
    && |a.children| == |b.children|
    && forall i | 0 <= i < |b.children| :: Matched(a, b, i)
  }

  predicate Matched(a: Tree, b: Tree, i: nat)
    requires i < |b.children|
    decreases b, 0
  {
    var n := FindName(a.children, b.children[i].name);
    n < |a.children| && IsEqual(a.children[n], b.children[i])
  }

  /** No two siblings have the same name, anywhere in the tree. */
  ghost predicate Unique(t: Tree) {
    && UniqueNames(t.children)
    && forall i | 0 <= i < |t.children| :: Unique(t.children[i])
  }

  ghost predicate UniqueNames(children: seq<Tree>) {
    forall i, j | 0 <= i < j < |children| :: children[i].name != children[j].name
  }

  /** An unordered tree whose children are found by name. */
  datatype Index = Index(name: string, kind: string, value: string, children: map<string, Index>)

  function Names(children: seq<Tree>): set<string> {
    set i | 0 <= i < |children| :: children[i].name
  }

  function IndexOf(t: Tree): Index {
    Index(t.name, t.kind, t.value, IndexAll(t.children))
  }

  /** For a name that occurs twice, the first child counts, as it does for a search. */
  function IndexAll(children: seq<Tree>): (m: map<string, Index>)
    ensures m.Keys == Names(children)
  {
    if children == [] then map[]
    else
      var m := IndexAll(children[1..])[children[0].name := IndexOf(children[0])];
      assert children == [children[0]] + children[1..];
      assert forall i | 0 < i < |children| :: children[i] == children[1..][i - 1];
      m
  }

  lemma {:induction false} IndexAt(children: seq<Tree>, name: string)
    requires name in Names(children)
    ensures FindName(children, name) < |children|
    ensures IndexAll(children)[name] == IndexOf(children[FindName(children, name)])
  {
    if children[0].name != name {
      var i :| 0 <= i < |children| && children[i].name == name;
      assert children[1..][i - 1].name == name;
      IndexAt(children[1..], name);
    }
  }

  lemma FindUnique(children: seq<Tree>, i: nat)
    requires UniqueNames(children) && i < |children|
    ensures FindName(children, children[i].name) == i
  {
  }

  /** Without duplicates there are as many names as children. */
  lemma {:induction false} CountNames(children: seq<Tree>)
    requires UniqueNames(children)
    ensures |Names(children)| == |children|
  {
    if children != [] {
      var rest := children[1..];
      CountNames(rest);
      assert forall i | 0 < i < |children| :: children[i] == rest[i - 1];
      assert Names(children) == Names(rest) + {children[0].name};
      assert children[0].name !in Names(rest);
    } else {
      assert Names(children) == {};
    }
  }

  lemma SameSet(a: set<string>, b: set<string>)
    requires a <= b && |a| == |b|
    ensures a == b
  {
    assert |b - a| == |b| - |a|;
  }

  lemma ChildNamed(children: seq<Tree>, name: string) returns (i: nat)
    requires name in Names(children)
    ensures i < |children| && children[i].name == name
  {
    i :| 0 <= i < |children| && children[i].name == name;
  }

  lemma NameOf(children: seq<Tree>, i: nat)
    requires i < |children|
    ensures children[i].name in Names(children)
  {
  }

  lemma EqualNames(a: Tree, b: Tree)
    requires Unique(a) && Unique(b) && IsEqual(a, b)
    ensures Names(a.children) == Names(b.children)
  {
    hide Names, FindName, UniqueNames;
    CountNames(a.children);
    CountNames(b.children);
    forall name | name in Names(b.children) ensures name in Names(a.children) {
      var i := ChildNamed(b.children, name);
      assert Matched(a, b, i);
      NameOf(a.children, FindName(a.children, b.children[i].name));
    }
    SameSet(Names(b.children), Names(a.children));
  }

  /** The children found under a name in both trees, and their indexes. */
  lemma Partners(a: Tree, b: Tree, i: nat)
    requires Unique(a) && Unique(b) && i < |b.children| && Names(a.children) == Names(b.children)
    ensures var name := b.children[i].name; var n := FindName(a.children, name);
      && n < |a.children| && Unique(a.children[n]) && Unique(b.children[i])
      && name in Names(a.children)
      && IndexAll(a.children)[name] == IndexOf(a.children[n]) && IndexAll(b.children)[name] == IndexOf(b.children[i])
  {
    hide Names, FindName, IndexAll;
    NameOf(b.children, i);
    FindUnique(b.children, i);
    IndexAt(a.children, b.children[i].name);
    IndexAt(b.children, b.children[i].name);
  }

  lemma {:induction false} EqualGivesIndex(a: Tree, b: Tree)
    requires Unique(a) && Unique(b) && IsEqual(a, b)
    ensures IndexOf(a) == IndexOf(b)
    decreases b
  {
    hide Names, FindName, IndexAll, UniqueNames;
    EqualNames(a, b);
    forall name | name in Names(b.children) ensures IndexAll(a.children)[name] == IndexAll(b.children)[name] {
      var i := ChildNamed(b.children, name);
      assert Matched(a, b, i);
      Partners(a, b, i);
      EqualGivesIndex(a.children[FindName(a.children, name)], b.children[i]);
    }
    assert IndexAll(a.children) == IndexAll(b.children);
  }

  lemma {:induction false} IndexGivesEqual(a: Tree, b: Tree)
    requires Unique(a) && Unique(b) && IndexOf(a) == IndexOf(b)
    ensures IsEqual(a, b)
    decreases b
  {
    hide Names, FindName, IndexAll, UniqueNames;
    CountNames(a.children);
    CountNames(b.children);
    assert Names(a.children) == IndexAll(a.children).Keys == IndexAll(b.children).Keys == Names(b.children);
    forall i | 0 <= i < |b.children| ensures Matched(a, b, i) {
      Partners(a, b, i);
      IndexGivesEqual(a.children[FindName(a.children, b.children[i].name)], b.children[i]);
    }
  }

  /** Equality of trees with unique sibling names is equality of the name-indexed unordered trees. */
  lemma IsEqualExact(a: Tree, b: Tree)
    requires Unique(a) && Unique(b)
    ensures IsEqual(a, b) <==> IndexOf(a) == IndexOf(b)
  {
    if IsEqual(a, b) {
      EqualGivesIndex(a, b);
    }
    if IndexOf(a) == IndexOf(b) {
      IndexGivesEqual(a, b);
    }
  }

  lemma EqualityIsEquivalence(a: Tree, b: Tree, c: Tree)
    requires Unique(a) && Unique(b) && Unique(c)
    ensures IsEqual(a, a)
    ensures IsEqual(a, b) <==> IsEqual(b, a)
    ensures IsEqual(a, b) && IsEqual(b, c) ==> IsEqual(a, c)
  {
    IsEqualExact(a, a);
    IsEqualExact(a, b);
    IsEqualExact(b, a);
    IsEqualExact(b, c);
    IsEqualExact(a, c);
  }

  // Trees with any names.

  /** A position in a tree, by child numbers, and the names on the way to it. */
  predicate IsPath(t: Tree, p: seq<nat>)
    decreases |p|
  {
    p == [] || (p[0] < |t.children| && IsPath(t.children[p[0]], p[1..]))
  }

  function NodeAt(t: Tree, p: seq<nat>): Tree
    requires IsPath(t, p)
    decreases |p|
  {
    if p == [] then t else NodeAt(t.children[p[0]], p[1..])
  }

  function NamesTo(t: Tree, p: seq<nat>): seq<string>
    requires IsPath(t, p)
    decreases |p|
  {
    if p == [] then [] else [t.children[p[0]].name] + NamesTo(t.children[p[0]], p[1..])
  }

  /** The node that searching for one name after the other finds. */
  function Lookup(t: Tree, names: seq<string>): Option<Tree>
    decreases |names|
  {
    if names == [] then Some(t)
    else
      var n := FindName(t.children, names[0]);
      if n < |t.children| then Lookup(t.children[n], names[1..]) else None
  }

  /** The node itself: its own texts, and how many children it has. */
  predicate SameLabel(a: Tree, b: Tree) {
    a.name == b.name && a.kind == b.kind && a.value == b.value && |a.children| == |b.children|
  }

  /** Under the names on the way to a node of b, a node of the same label is found in a. */
  predicate AgreesAt(a: Tree, b: Tree, p: seq<nat>)
    requires IsPath(b, p)
  {
    var found := Lookup(a, NamesTo(b, p));
    found.Some? && SameLabel(found.value, NodeAt(b, p))
  }

  lemma {:induction false} EqualAgrees(a: Tree, b: Tree, p: seq<nat>)
    requires IsEqual(a, b) && IsPath(b, p)
    ensures AgreesAt(a, b, p)
    decreases |p|
  {
    hide FindName;
    if p != [] {
      assert Matched(a, b, p[0]);
      var n := FindName(a.children, b.children[p[0]].name);
      EqualAgrees(a.children[n], b.children[p[0]], p[1..]);
    }
  }

  lemma {:induction false} AgreeingIsEqual(a: Tree, b: Tree)
    requires forall p | IsPath(b, p) :: AgreesAt(a, b, p)
    ensures IsEqual(a, b)
    decreases b
  {
    hide FindName, IsPath, AgreesAt;
    RootAgrees(a, b);
    forall i | 0 <= i < |b.children| ensures Matched(a, b, i) {
      ChildAgrees(a, b, i, []);
      var n := FindName(a.children, b.children[i].name);
      forall p | IsPath(b.children[i], p) ensures AgreesAt(a.children[n], b.children[i], p) {
        ChildAgrees(a, b, i, p);
      }
      AgreeingIsEqual(a.children[n], b.children[i]);
    }
  }

  lemma RootAgrees(a: Tree, b: Tree)
    requires forall p | IsPath(b, p) :: AgreesAt(a, b, p)
    ensures SameLabel(a, b)
  {
    assert IsPath(b, []) && AgreesAt(a, b, []);
  }

  lemma ChildAgrees(a: Tree, b: Tree, i: nat, p: seq<nat>)
    requires forall p | IsPath(b, p) :: AgreesAt(a, b, p)
    requires i < |b.children|
    ensures IsPath(b.children[i], [])
    ensures var n := FindName(a.children, b.children[i].name);
      n < |a.children| && (IsPath(b.children[i], p) ==> AgreesAt(a.children[n], b.children[i], p))
  {
    hide FindName;
    assert [i][1..] == [] && IsPath(b, [i]) && AgreesAt(a, b, [i]);
    if IsPath(b.children[i], p) {
      var q := [i] + p;
      assert q[1..] == p && IsPath(b, q) && AgreesAt(a, b, q);
      var names := NamesTo(b, q);
      assert names[1..] == NamesTo(b.children[i], p);
    }
  }

  /**
   * What the comparison decides on any two trees, with whatever names: every node of b is found in
   * a under the names on the way to it, with the same texts and the same number of children.
   */
  lemma PathsExact(a: Tree, b: Tree)
    ensures IsEqual(a, b) <==> forall p | IsPath(b, p) :: AgreesAt(a, b, p)
  {
    hide IsEqual, IsPath, AgreesAt;
    if IsEqual(a, b) {
      forall p | IsPath(b, p) ensures AgreesAt(a, b, p) {
        EqualAgrees(a, b, p);
      }
    } else if forall p | IsPath(b, p) :: AgreesAt(a, b, p) {
      AgreeingIsEqual(a, b);
    }
  }

  /** What searching finds is at a position of the tree. */
  lemma {:induction false} FoundAt(t: Tree, names: seq<string>) returns (p: seq<nat>)
    requires Lookup(t, names).Some?
    ensures IsPath(t, p) && NamesTo(t, p) == names && NodeAt(t, p) == Lookup(t, names).value
    decreases |names|
  {
    hide FindName;
    p := [];
    if names != [] {
      var n := FindName(t.children, names[0]);
      var rest := FoundAt(t.children[n], names[1..]);
      p := [n] + rest;
      assert p[1..] == rest && names == [names[0]] + names[1..];
    }
  }

  /** The comparison is transitive on all trees. */
  lemma EqualityIsTransitive(a: Tree, b: Tree, c: Tree)
    requires IsEqual(a, b) && IsEqual(b, c)
    ensures IsEqual(a, c)
  {
    hide IsEqual, IsPath, NamesTo, NodeAt, Lookup;
    forall p | IsPath(c, p) ensures AgreesAt(a, c, p) {
      EqualAgrees(b, c, p);
      var q := FoundAt(b, NamesTo(c, p));
      EqualAgrees(a, b, q);
    }
    AgreeingIsEqual(a, c);
  }

  /** Every way of names in a can be gone in b as well. */
  ghost predicate NamesFoundIn(b: Tree, a: Tree) {
    forall p | IsPath(a, p) :: Lookup(b, NamesTo(a, p)).Some?
  }

  /**
   * When the comparison may be turned round: for trees a that are equal to themselves, exactly
   * when b has all names of a. In particular trees equal both ways are equal to themselves.
   */
  lemma SymmetryExact(a: Tree, b: Tree)
    requires IsEqual(a, b)
    ensures IsEqual(b, a) <==> IsEqual(a, a) && NamesFoundIn(b, a)
  {
    hide IsEqual, IsPath, NamesTo, NodeAt, Lookup;
    if IsEqual(b, a) {
      EqualityIsTransitive(a, b, a);
      forall p | IsPath(a, p) ensures Lookup(b, NamesTo(a, p)).Some? {
        EqualAgrees(b, a, p);
      }
    }
    if IsEqual(a, a) && NamesFoundIn(b, a) {
      forall p | IsPath(a, p) ensures AgreesAt(b, a, p) {
        EqualAgrees(a, a, p);
        var q := FoundAt(b, NamesTo(a, p));
        EqualAgrees(a, b, q);
      }
      AgreeingIsEqual(b, a);
    }
  }

  /**
   * When a tree is equal to itself: under the names on the way to any of its nodes, a node of the
   * same label is found. Unique names are enough for it, and not needed.
   */
  lemma ReflexivityExact(t: Tree)
    ensures IsEqual(t, t) <==> forall p | IsPath(t, p) :: AgreesAt(t, t, p)
    ensures Unique(t) ==> IsEqual(t, t)
  {
    PathsExact(t, t);
    if Unique(t) {
      IsEqualExact(t, t);
    }
  }

  /** Two siblings of one name that differ make a tree unequal to itself, and the comparison depend on its direction. */
  lemma DuplicatesAreNotEqual()
    ensures var x, y := Node("x", "", "1", []), Node("x", "", "2", []);
      var a, b := Node("r", "", "", [x, y]), Node("r", "", "", [x, x]);
      IsEqual(a, b) && !IsEqual(b, a) && !IsEqual(a, a) && IsEqual(b, b)
  {
    var x, y := Node("x", "", "1", []), Node("x", "", "2", []);
    var a, b := Node("r", "", "", [x, y]), Node("r", "", "", [x, x]);
    assert IsEqual(x, x) && !IsEqual(x, y);
    assert FindName(a.children, "x") == 0 && FindName(b.children, "x") == 0;
    assert Matched(a, b, 0) && Matched(a, b, 1) && !Matched(b, a, 1) && !Matched(a, a, 1);
    assert Matched(b, b, 0) && Matched(b, b, 1);
  }

  // Replacing and removing children.

  function Without(children: seq<Tree>, name: string): seq<Tree> {
    var n := FindName(children, name);
    if n < |children| then children[..n] + children[n + 1..] else children
  }

  function WithChild(children: seq<Tree>, child: Tree): seq<Tree> {
    Without(children, child.name) + [child]
  }

  /** The tree with a child set, and its index. */
  function SetIn(t: Tree, child: Tree): Tree {
    t.(children := WithChild(t.children, child))
  }

  function SetInIndex(m: Index, child: Index): Index {
    m.(children := m.children[child.name := child])
  }

  /** Only the first child of the name is removed, and a child that is set becomes the last one. */
  lemma WithChildExact(front: seq<Tree>, found: Tree, back: seq<Tree>, child: Tree)
    requires found.name == child.name && forall i | 0 <= i < |front| :: front[i].name != child.name
    ensures Without(front + [found] + back, child.name) == front + back
    ensures WithChild(front + [found] + back, child) == front + back + [child]
  {
    var all := front + [found] + back;
    assert all[|front|] == found && forall i | 0 <= i < |front| :: all[i] == front[i];
    assert FindName(all, child.name) == |front|;
    assert all[..|front|] == front && all[|front| + 1..] == back;
  }

  lemma WithNewChild(children: seq<Tree>, child: Tree)
    requires forall i | 0 <= i < |children| :: children[i].name != child.name
    ensures Without(children, child.name) == children && WithChild(children, child) == children + [child]
  {
  }

  lemma WithoutUnique(children: seq<Tree>, name: string)
    requires UniqueNames(children)
    ensures UniqueNames(Without(children, name)) && Names(Without(children, name)) == Names(children) - {name}
    ensures forall c | c in Without(children, name) :: c in children && c.name != name
  {
    var n := FindName(children, name);
    if n < |children| {
      CutOut(children, n);
      CutOutNames(children, n);
    }
  }

  lemma CutOut(children: seq<Tree>, n: nat)
    requires UniqueNames(children) && n < |children|
    ensures var r := children[..n] + children[n + 1..];
      UniqueNames(r) && forall c | c in r :: c in children && c.name != children[n].name
  {
    var r := children[..n] + children[n + 1..];
    assert forall i | 0 <= i < n :: r[i] == children[i];
    assert forall i | n <= i < |r| :: r[i] == children[i + 1];
  }

  lemma CutOutNames(children: seq<Tree>, n: nat)
    requires UniqueNames(children) && n < |children|
    ensures Names(children[..n] + children[n + 1..]) == Names(children) - {children[n].name}
  {
    var r := children[..n] + children[n + 1..];
    CutOut(children, n);
    forall x | x in Names(children) - {children[n].name} ensures x in Names(r) {
      var i := ChildNamed(children, x);
      assert r[if i < n then i else i - 1] == children[i];
    }
    forall x | x in Names(r) ensures x in Names(children) - {children[n].name} {
      var i := ChildNamed(r, x);
      assert r[i] in children;
    }
  }

  lemma IndexIn(children: seq<Tree>, c: Tree)
    requires UniqueNames(children) && c in children
    ensures c.name in Names(children) && IndexAll(children)[c.name] == IndexOf(c)
  {
    var i :| 0 <= i < |children| && children[i] == c;
    FindUnique(children, i);
    IndexAt(children, c.name);
  }

  /** Removing a child takes its name out of the index, and nothing else. */
  lemma RemoveExact(t: Tree, name: string)
    requires Unique(t)
    ensures var r := t.(children := Without(t.children, name));
      Unique(r) && IndexOf(r) == IndexOf(t).(children := IndexOf(t).children - {name})
  {
    hide Names, IndexAll, Without, UniqueNames;
    var r := Without(t.children, name);
    WithoutUnique(t.children, name);
    forall x | x in Names(r) ensures IndexAll(r)[x] == IndexAll(t.children)[x] {
      var i := ChildNamed(r, x);
      IndexIn(r, r[i]);
      IndexIn(t.children, r[i]);
    }
    assert IndexAll(r) == IndexAll(t.children) - {name};
  }

  /** Setting a child replaces the entry of its name in the index, or adds it. */
  lemma SetExact(t: Tree, child: Tree)
    requires Unique(t) && Unique(child)
    ensures Unique(SetIn(t, child)) && IndexOf(SetIn(t, child)) == SetInIndex(IndexOf(t), IndexOf(child))
  {
    hide Names, IndexAll, Without, UniqueNames;
    var rest := Without(t.children, child.name);
    var r := rest + [child];
    WithoutUnique(t.children, child.name);
    AppendUnique(rest, child);
    forall x | x in Names(r) ensures IndexAll(r)[x] == IndexAll(t.children)[child.name := IndexOf(child)][x] {
      var i := ChildNamed(r, x);
      IndexIn(r, r[i]);
      if i < |rest| {
        assert r[i] == rest[i];
        IndexIn(t.children, r[i]);
      }
    }
    assert IndexAll(r) == IndexAll(t.children)[child.name := IndexOf(child)];
    assert forall i | 0 <= i < |r| :: r[i] in rest || r[i] == child;
  }

  lemma AppendUnique(rest: seq<Tree>, child: Tree)
    requires UniqueNames(rest) && forall c | c in rest :: c.name != child.name
    ensures UniqueNames(rest + [child]) && Names(rest + [child]) == Names(rest) + {child.name}
  {
    var r := rest + [child];
    assert r[|rest|] == child;
    assert forall i | 0 <= i < |rest| :: r[i] == rest[i] && rest[i] in rest;
  }

  /** What was set is found again. */
  lemma SetIsFound(t: Tree, child: Tree)
    requires Unique(t)
    ensures var s := WithChild(t.children, child); var n := FindName(s, child.name); n < |s| && s[n] == child
  {
    hide Names, Without, UniqueNames, FindName;
    var rest := Without(t.children, child.name);
    WithoutUnique(t.children, child.name);
    AppendUnique(rest, child);
    FindUnique(rest + [child], |rest|);
  }

  lemma SetInIndexTwice(m: Index, first: Index, second: Index)
    requires first.name == second.name
    ensures SetInIndex(SetInIndex(m, first), second) == SetInIndex(m, second)
  {
    assert m.children[first.name := first][first.name := second] == m.children[first.name := second];
  }

  /** Of two children set under the same name the second one counts. */
  lemma SetTwice(t: Tree, first: Tree, second: Tree)
    requires Unique(t) && Unique(first) && Unique(second) && first.name == second.name
    ensures IsEqual(SetIn(SetIn(t, first), second), SetIn(t, second))
  {
    hide IndexAll, Unique, SetIn, SetInIndex, IsEqual;
    SetExact(t, first);
    SetExact(t, second);
    SetExact(SetIn(t, first), second);
    SetInIndexTwice(IndexOf(t), IndexOf(first), IndexOf(second));
    IsEqualExact(SetIn(SetIn(t, first), second), SetIn(t, second));
  }
}
