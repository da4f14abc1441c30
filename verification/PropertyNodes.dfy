/** Property nodes: trees whose nodes are changed in place. */
module PropertyNodes {
  import opened PropertyTrees

  class PropertyNode {
    var name: string
    var kind: string
    var value: string
    var children: seq<PropertyNode>
    ghost var Repr: set<object>

    /** The nodes form a tree: no node is reached twice. */
    ghost predicate Valid()
      reads this, Repr
      decreases Repr
    {
      && this in Repr
      && (forall c | c in children :: c in Repr && c.Repr <= Repr && this !in c.Repr && c.Valid())
      && (forall i, j | 0 <= i < j < |children| :: children[i].Repr !! children[j].Repr)
    }

    /** The tree below this node as a value. */
    ghost function View(): Tree
      requires Valid()
      reads this, Repr
      decreases Repr, 0
    {
      Node(name, kind, value, Views(children, Repr - {this}))
    }

    constructor (name: string, kind: string, value: string)
      ensures Valid() && Repr == {this}
      ensures View() == Node(name, kind, value, [])
    {
      this.name := name;
      this.kind := kind;
      this.value := value;
      this.children := [];
      this.Repr := {this};
    }

    /** A type that is given has to be the type of the node. */
    method SetValue(value: string, typeName: string) returns (ok: bool)
      requires Valid()
      modifies this`value
      ensures Valid()
      ensures ok == (typeName == "" || typeName == kind)
      ensures View() == if ok then old(View()).(value := value) else old(View())
    {
      hide Views;
      if typeName != "" && typeName != kind {
        return false;
      }
      this.value := value;
      return true;
    }

    /** The position of the first child with the name. */
    method Find(name: string) returns (n: nat)
      requires Valid()
      ensures n == FindName(View().children, name)
    {
      n := 0;
      while n < |children| && children[n].name != name
        invariant n <= |children|
        invariant forall i | 0 <= i < n :: children[i].name != name
      {
        n := n + 1;
      }
    }

    method GetChild(name: string) returns (child: PropertyNode?)
      requires Valid()
      ensures var n := FindName(View().children, name);
        child == if n < |children| then children[n] else null
    {
      var n := Find(name);
      child := if n < |children| then children[n] else null;
    }

    /** Compares this tree to another one, which may share nodes with it. */
    method IsEqualTo(other: PropertyNode) returns (equal: bool)
      requires Valid() && other.Valid()
      ensures equal == IsEqual(View(), other.View())
      decreases other.Repr, 1
    {
      hide Views, Matched;
      if !(name == other.name && value == other.value && kind == other.kind) || |other.children| != |children| {
        return false;
      }
      ghost var a, b := View(), other.View();
      for i := 0 to |other.children|
        invariant forall k | 0 <= k < i :: Matched(a, b, k)
      {
        var same := EqualChild(other, i);
        if !same {
          return false;
        }
      }
      return true;
    }

    /** Compares the child of the other tree to the first one of its name here. */
    method EqualChild(other: PropertyNode, i: nat) returns (same: bool)
      requires Valid() && other.Valid() && i < |other.children|
      ensures same == Matched(View(), other.View(), i)
      decreases other.Repr, 0
    {
      hide Views, FindName, PropertyTrees.IsEqual;
      var otherChild := other.children[i];
      var child := GetChild(otherChild.name);
      if child == null {
        return false;
      }
      same := child.IsEqualTo(otherChild);
    }

    /** Removes the first child with the name. */
    method RemoveChild(name: string)
      requires Valid()
      modifies this`children, this`Repr
      ensures Valid() && Repr <= old(Repr)
      ensures View() == old(View()).(children := Without(old(View()).children, name))
    {
      hide Views, FindName;
      var n := Find(name);
      if n < |children| {
        Repr := Repr - children[n].Repr;
        children := children[..n] + children[n + 1..];
      }
    }

    method PushBack(child: PropertyNode)
      requires Valid() && child.Valid() && Repr !! child.Repr
      modifies this`children, this`Repr
      ensures Valid() && Repr == old(Repr) + child.Repr
      ensures child.Valid() && child.Repr == old(child.Repr) && child.View() == old(child.View())
      ensures View() == old(View()).(children := old(View()).children + [child.View()])
    {
      hide Views;
      children := children + [child];
      Repr := Repr + child.Repr;
    }

    /** Replaces the first child with the same name by the new one, which becomes the last child. */
    method SetChild(child: PropertyNode) returns (r: PropertyNode)
      requires Valid() && child.Valid() && Repr !! child.Repr
      modifies this`children, this`Repr
      ensures Valid() && r == child && Repr <= old(Repr) + child.Repr
      ensures View() == old(View()).(children := WithChild(old(View()).children, old(child.View())))
    {
      hide Views, Without, FindName;
      RemoveChild(child.name);
      PushBack(child);
      return child;
    }

    /** Takes over name, type, value and copies of all children of a tree that this node is not part of. */
    method CopyDeepFrom(other: PropertyNode)
      requires other.Valid() && this !in other.Repr
      modifies this
      ensures Valid() && fresh(Repr - {this})
      ensures View() == old(other.View())
      decreases other.Repr, 0
    {
      hide Views, View;
      ghost var t := other.View();
      ghost var all := other.Repr;
      ChildViews(other);
      TakeFields(other);
      for i := 0 to |other.children|
        invariant Valid() && fresh(Repr - {this})
        invariant other.Valid() && other.Repr == all && other.View() == t
        invariant View() == t.(children := t.children[..i])
      {
        ChildViews(other);
        var newChild := CopyOf(other.children[i]);
        PushBack(newChild);
        assert t.children[..i] + [t.children[i]] == t.children[..i + 1];
      }
      assert t.children[..|other.children|] == t.children;
    }

    method TakeFields(other: PropertyNode)
      requires other.Valid() && this !in other.Repr
      modifies this
      ensures Valid() && Repr == {this} && View() == old(other.View()).(children := [])
    {
      hide Views;
      name := other.name;
      kind := other.kind;
      value := other.value;
      children := [];
      Repr := {this};
    }

    static method CopyOf(node: PropertyNode) returns (r: PropertyNode)
      requires node.Valid()
      ensures r.Valid() && fresh(r.Repr) && r.View() == node.View()
      decreases node.Repr, 1
    {
      hide Views;
      r := new PropertyNode("some_temp_name", "node", "");
      r.CopyDeepFrom(node);
    }
  }

  lemma ChildViews(node: PropertyNode)
    requires node.Valid()
    ensures |node.View().children| == |node.children|
    ensures forall i | 0 <= i < |node.children| :: node.View().children[i] == node.children[i].View()
  {
  }

  ghost function Views(nodes: seq<PropertyNode>, all: set<object>): (r: seq<Tree>)
    requires forall c | c in nodes :: c in all && c.Repr <= all && c.Valid()
    reads all
    ensures |r| == |nodes|
    ensures forall i | 0 <= i < |nodes| :: r[i] == nodes[i].View()
    decreases all, |nodes|
  {
    if nodes == [] then [] else [nodes[0].View()] + Views(nodes[1..], all)
  }
}
