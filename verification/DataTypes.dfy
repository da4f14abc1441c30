/** The stream types that samples are received under, and when an overflowing queue loses them. */
module DataTypes {
  import opened DataQueues
  import opened DataReception
  import opened DataRuns

  /** The samples among the items, each with the type in force when it is reached. */
  function Typed(items: seq<Item>, before: string): (r: seq<(Sample, string)>)
    ensures |r| == |Samples(items)|
  {
    if items == [] then []
    else match items[0]
      case SampleItem(sample, _) => [(sample, before)] + Typed(items[1..], before)
      case TypeItem(streamType, _) => Typed(items[1..], streamType)
  }

  lemma {:induction false} TypedConcat(a: seq<Item>, b: seq<Item>, before: string)
    ensures Typed(a + b, before) == Typed(a, before) + Typed(b, LastType(a, before))
  {
    if a == [] {
      assert a + b == b;
    } else {
      assert (a + b)[1..] == a[1..] + b;
      TypedConcat(a[1..], b, if a[0].TypeItem? then a[0].streamType else before);
    }
  }

  /** The types that the samples still queued, and those of more items to come, will be received under. */
  function Ahead(r: Reader, more: seq<Item>): seq<(Sample, string)> {
    Typed(r.incoming + more, r.kept.streamType)
  }

  /** The item that is overwritten when another one arrives. */
  predicate Full(room: nat, r: Reader) {
    0 < |r.incoming| == room
  }

  /** The item overwritten is a sample, or says what is in force anyway, or is followed by another type. */
  predicate Harmless(room: nat, r: Reader, item: Item) {
    Full(room, r) ==>
      var oldest := r.incoming[0];
      var next := if |r.incoming| > 1 then r.incoming[1] else item;
      oldest.SampleItem? || oldest.streamType == r.kept.streamType || next.TypeItem?
  }

  /** What the samples to come should be received under after an arrival: a sample that is overwritten is missing, no more. */
  function Wished(room: nat, r: Reader, item: Item, more: seq<Item>): seq<(Sample, string)> {
    var all := Ahead(r, [item] + more);
    if Full(room, r) && r.incoming[0].SampleItem? && all != [] then all[1..] else all
  }

  /**
   * An arrival leaves the types of all later samples as they are, whatever else arrives, if and
   * only if it overwrites nothing, or something harmless.
   */
  lemma ArriveTypesExact(due: Comparator, room: nat, r: Reader, item: Item)
    requires |r.incoming| <= room && room > 0
    ensures Harmless(room, r, item) <==>
      forall more :: Ahead(Do(due, room, r, Arrive(item)), more) == Wished(room, r, item, more)
  {
    if Full(room, r) {
      var rest := r.incoming[1..] + [item];
      assert Do(due, room, r, Arrive(item)).incoming == rest;
      forall more ensures
        Ahead(Do(due, room, r, Arrive(item)), more) == Typed(rest + more, r.kept.streamType) &&
        Wished(room, r, item, more) == Typed(rest + more, LastType([r.incoming[0]], r.kept.streamType))
      {
        assert r.incoming + ([item] + more) == [r.incoming[0]] + (rest + more);
        TypedFirst(r.incoming[0], rest + more, r.kept.streamType);
      }
      RetypedExact(rest, r.kept.streamType, LastType([r.incoming[0]], r.kept.streamType));
      assert rest[0] == if |r.incoming| > 1 then r.incoming[1] else item;
      assert LastType([r.incoming[0]], r.kept.streamType)
        == if r.incoming[0].TypeItem? then r.incoming[0].streamType else r.kept.streamType by {
        assert [r.incoming[0]][1..] == [];
      }
    } else {
      forall more ensures Ahead(Do(due, room, r, Arrive(item)), more) == Wished(room, r, item, more) {
        assert r.incoming + [item] + more == r.incoming + ([item] + more);
      }
    }
  }

  lemma TypedFirst(item: Item, rest: seq<Item>, before: string)
    ensures var all := Typed([item] + rest, before);
      && (item.SampleItem? ==> all != [] && all[1..] == Typed(rest, before))
      && (item.TypeItem? ==> all == Typed(rest, item.streamType))
    ensures LastType([item], before) == if item.TypeItem? then item.streamType else before
  {
    assert ([item] + rest)[1..] == rest && [item][1..] == [];
  }

  /** Starting from another type makes no difference, whatever comes, exactly if the types agree or a type comes first. */
  lemma RetypedExact(items: seq<Item>, a: string, b: string)
    requires items != []
    ensures a == b || items[0].TypeItem? <==> forall more :: Typed(items + more, a) == Typed(items + more, b)
  {
    assert forall more :: (items + more)[0] == items[0];
    if a != b && items[0].SampleItem? {
      assert items + [] == items;
      assert Typed(items, a)[0].1 == a && Typed(items, b)[0].1 == b;
      assert Typed(items + [], a) != Typed(items + [], b);
    }
  }

  /** The samples received so far, each with the type that was in force. */
  function Received(due: Comparator, room: nat, r: Reader, steps: seq<Step>): seq<(Sample, string)> {
    if steps == [] then []
    else
      var front := steps[..|steps| - 1];
      var s := Run(due, room, r, front);
      Received(due, room, r, front)
        + match steps[|steps| - 1]
          case Update(t) => Typed(s.incoming[..DueEnd(due, t, s.incoming)], s.kept.streamType)
          case _ => []
  }

  /** No arrival of the run overwrites a type that matters. */
  ghost predicate KeepsTypes(due: Comparator, room: nat, r: Reader, steps: seq<Step>) {
    if steps == [] then true
    else
      var front := steps[..|steps| - 1];
      && KeepsTypes(due, room, r, front)
      && (steps[|steps| - 1].Arrive? ==> Harmless(room, Run(due, room, r, front), steps[|steps| - 1].item))
  }

  ghost predicate AllOf(a: seq<(Sample, string)>, b: seq<(Sample, string)>) {
    forall x | x in a :: x in b
  }

  /**
   * Over every run in which no type that matters is overwritten, with overflowing queues and
   * samples taken out: each sample was received under the type that arrived last before it.
   */
  lemma ReceivedUnderItsType(due: Comparator, room: nat, streamType: string, capacity: nat, steps: seq<Step>)
    requires room > 0 && KeepsTypes(due, room, Reader([], Kept(streamType, []), capacity), steps)
    ensures AllOf(Received(due, room, Reader([], Kept(streamType, []), capacity), steps), Typed(Arrived(steps), streamType))
  {
    hide Received, Run;
    TypesSurvive(due, room, streamType, capacity, steps, []);
    assert Arrived(steps) + [] == Arrived(steps);
  }

  lemma {:induction false} TypesSurvive(
    due: Comparator, room: nat, streamType: string, capacity: nat, steps: seq<Step>, more: seq<Item>)
    requires room > 0 && KeepsTypes(due, room, Reader([], Kept(streamType, []), capacity), steps)
    ensures var start := Reader([], Kept(streamType, []), capacity); var r := Run(due, room, start, steps);
      && |r.incoming| <= room && |r.kept.samples| <= r.capacity
      && AllOf(Received(due, room, start, steps) + Ahead(r, more), Typed(Arrived(steps) + more, streamType))
    decreases |steps|
  {
    var start := Reader([], Kept(streamType, []), capacity);
    if steps == [] {
      assert [] + more == more;
      assert [] + Ahead(start, more) == Ahead(start, more);
    } else {
      var front, step := steps[..|steps| - 1], steps[|steps| - 1];
      var r := Run(due, room, start, front);
      var done := Received(due, room, start, front);
      hide Do, Typed, Harmless, DueEnd, AllOf, Ahead;
      match step {
        case Arrive(item) =>
          TypesSurvive(due, room, streamType, capacity, front, [item] + more);
          assert Arrived(front) + ([item] + more) == Arrived(steps) + more;
          ArriveSurvives(due, room, r, item, done, more, Typed(Arrived(steps) + more, streamType));
          assert done + [] == done;
        case Update(t) =>
          TypesSurvive(due, room, streamType, capacity, front, more);
          assert Arrived(front) + [] == Arrived(front);
          UpdateAhead(due, room, r, t, more);
          var taken := Typed(r.incoming[..DueEnd(due, t, r.incoming)], r.kept.streamType);
          assert done + (taken + Ahead(Do(due, room, r, step), more)) == done + taken + Ahead(Do(due, room, r, step), more);
        case _ =>
          TypesSurvive(due, room, streamType, capacity, front, more);
          assert Arrived(front) + [] == Arrived(front);
          assert done + [] == done;
          TakeSurvives(due, room, r, step, more);
      }
    }
  }

  lemma ArriveSurvives(
    due: Comparator, room: nat, r: Reader, item: Item, done: seq<(Sample, string)>, more: seq<Item>, all: seq<(Sample, string)>)
    requires |r.incoming| <= room && room > 0 && Harmless(room, r, item)
    requires AllOf(done + Ahead(r, [item] + more), all)
    ensures var s := Do(due, room, r, Arrive(item));
      AllOf(done + Ahead(s, more), all) && |s.incoming| <= room && s.kept == r.kept && s.capacity == r.capacity
  {
    ArriveTypesExact(due, room, r, item);
    hide Ahead, Harmless;
    var ahead := Ahead(Do(due, room, r, Arrive(item)), more);
    assert ahead == Wished(room, r, item, more);
    forall x | x in done + ahead ensures x in all {
      assert x in done + Ahead(r, [item] + more);
    }
  }

  lemma TakeSurvives(due: Comparator, room: nat, r: Reader, step: Step, more: seq<Item>)
    requires |r.kept.samples| <= r.capacity && !step.Arrive? && !step.Update?
    ensures var s := Do(due, room, r, step);
      Ahead(s, more) == Ahead(r, more) && s.incoming == r.incoming && |s.kept.samples| <= s.capacity
  {
  }

  /** What an update receives is taken off the samples ahead. */
  lemma UpdateAhead(due: Comparator, room: nat, r: Reader, t: int, more: seq<Item>)
    requires |r.kept.samples| <= r.capacity
    ensures var n := DueEnd(due, t, r.incoming); var s := Do(due, room, r, Update(t));
      && Ahead(r, more) == Typed(r.incoming[..n], r.kept.streamType) + Ahead(s, more)
      && |s.incoming| <= |r.incoming| && |s.kept.samples| <= s.capacity
  {
    hide Typed, DueEnd, Drain;
    var n := DueEnd(due, t, r.incoming);
    DrainExact(due, t, r.incoming, r.kept, r.capacity);
    assert r.incoming + more == r.incoming[..n] + (r.incoming[n..] + more);
    TypedConcat(r.incoming[..n], r.incoming[n..] + more, r.kept.streamType);
  }

  /** A full incoming queue drops types as well: a sample can then be read under the wrong one. */
  lemma OverflowLosesType()
    ensures var steps := [Arrive(TypeItem("new", 0)), Arrive(SampleItem(Sample(1, 7), 1)), Update(2)];
      var r := Run(Less(), 1, Reader([], Kept("old", []), 2), steps);
      r.kept == Kept("old", [Sample(1, 7)]) && LastType(Arrived(steps), "old") == "new"
  {
    var a, b := TypeItem("new", 0), SampleItem(Sample(1, 7), 1);
    var steps := [Arrive(a), Arrive(b), Update(2)];
    assert steps[..2] == [Arrive(a), Arrive(b)] && [Arrive(a), Arrive(b)][..1] == [Arrive(a)] && [Arrive(a)][..0] == [];
    assert Arrived([Arrive(a)]) == [a];
    assert Arrived([Arrive(a), Arrive(b)]) == [a, b];
    assert Arrived(steps) == [a, b] && [a, b][1..] == [b];
    assert LastType([b], "new") == "new";
    var start := Reader([], Kept("old", []), 2);
    assert Run(Less(), 1, start, [Arrive(a)]) == start.(incoming := [a]);
    assert Run(Less(), 1, start, [Arrive(a), Arrive(b)]) == start.(incoming := [b]);
    assert Samples([b]) == [Sample(1, 7)] && [b][1..] == [];
    var kept := Kept("old", [Sample(1, 7)]);
    assert Receive(start.kept, b, 2) == kept;
    assert Drain(Less(), 2, [], kept, 2) == ([], kept);
    assert Drain(Less(), 2, [b], start.kept, 2) == ([], kept);
  }
}
