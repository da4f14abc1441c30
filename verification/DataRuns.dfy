/** Whole runs of a reader: arrivals, updates, and samples taken out in between. */
module DataRuns {
  import opened Wrappers
  import opened DataQueues
  import opened DataReception

  /** What happens to a reader and its incoming queue, one after the other. */
  datatype Step = Arrive(item: Item) | Update(t: int) | PopOldest | PopLatest | Purge(t: int) | Resize(size: nat)

  datatype Reader = Reader(incoming: seq<Item>, kept: Kept, capacity: nat)

  function Do(due: Comparator, room: nat, r: Reader, step: Step): Reader {
    var samples := r.kept.samples;
    match step
    case Arrive(item) => r.(incoming := LastN(r.incoming + [item], room))
    case Update(t) =>
      var (incoming, kept) := Drain(due, t, r.incoming, r.kept, r.capacity);
      Reader(incoming, kept, r.capacity)
    case PopOldest => if samples == [] then r else r.(kept := r.kept.(samples := samples[1..]))
    case PopLatest => if samples == [] then r else r.(kept := r.kept.(samples := samples[..|samples| - 1]))
    case Purge(t) => r.(kept := r.kept.(samples := samples[OlderEnd(samples, t)..]))
    case Resize(size) => r.(kept := r.kept.(samples := []), capacity := if size == 0 then 1 else size)
  }

  function Run(due: Comparator, room: nat, r: Reader, steps: seq<Step>): Reader {
    if steps == [] then r
    else Do(due, room, Run(due, room, r, steps[..|steps| - 1]), steps[|steps| - 1])
  }

  function Arrived(steps: seq<Step>): seq<Item> {
    if steps == [] then []
    else Arrived(steps[..|steps| - 1]) + (if steps[|steps| - 1].Arrive? then [steps[|steps| - 1].item] else [])
  }

  /** The time of the last update, and what had arrived by then. */
  function LastUpdate(steps: seq<Step>): Option<(int, seq<Item>)> {
    if steps == [] then None
    else if steps[|steps| - 1].Update? then Some((steps[|steps| - 1].t, Arrived(steps[..|steps| - 1])))
    else LastUpdate(steps[..|steps| - 1])
  }

  /** Updates do not go back in time. */
  ghost predicate Forward(steps: seq<Step>) {
    if steps == [] then true
    else
      var front := steps[..|steps| - 1];
      && Forward(front)
      && (steps[|steps| - 1].Update? && LastUpdate(front).Some? ==> LastUpdate(front).value.0 <= steps[|steps| - 1].t)
  }

  /** Nothing is taken out of the backlog, and every item finds room in the incoming queue. */
  ghost predicate Lossless(due: Comparator, room: nat, r: Reader, steps: seq<Step>) {
    if steps == [] then true
    else
      var front := steps[..|steps| - 1];
      && Lossless(due, room, r, front)
      && match steps[|steps| - 1]
         case Arrive(_) => |Run(due, room, r, front).incoming| < room
         case Update(_) => true
         case _ => false
  }

  /** The number of items consumed: the due prefix of what had arrived by the last update. */
  function Consumed(due: Comparator, steps: seq<Step>): (n: nat)
    ensures n <= |Arrived(steps)|
  {
    match LastUpdate(steps)
    case None => 0
    case Some((t, items)) =>
      ArrivedGrows(steps);
      DueEnd(due, t, items)
  }

  lemma {:induction false} ArrivedGrows(steps: seq<Step>)
    ensures LastUpdate(steps).Some? ==> LastUpdate(steps).value.1 <= Arrived(steps)
  {
    if steps != [] {
      ArrivedGrows(steps[..|steps| - 1]);
    }
  }

  /**
   * The state after a run depends on the arrivals and on the last update alone: how many updates
   * there were before, and when, makes no difference.
   */
  lemma {:induction false} RunExact(due: Comparator, room: nat, streamType: string, capacity: nat, steps: seq<Step>)
    requires Monotone(due) && Forward(steps)
    requires Lossless(due, room, Reader([], Kept(streamType, []), capacity), steps)
    ensures var start := Kept(streamType, []); var n := Consumed(due, steps); var items := Arrived(steps);
      Run(due, room, Reader([], start, capacity), steps)
        == Reader(items[n..], ReceiveAll(start, items[..n], capacity), capacity)
  {
    hide Monotone, DueEnd, ReceiveAll;
    var start := Kept(streamType, []);
    ReceiveNothing(start, capacity);
    if steps != [] {
      var front := steps[..|steps| - 1];
      RunExact(due, room, streamType, capacity, front);
      var n, items := Consumed(due, front), Arrived(front);
      match steps[|steps| - 1]
      case Arrive(item) =>
        assert (items + [item])[n..] == items[n..] + [item] && (items + [item])[..n] == items[..n];
      case Update(t) =>
        UpdateFrom(due, room, t, start, items, n, capacity);
        ConsumedMore(due, t, front);
        assert items + [] == items;
    }
  }

  lemma ReceiveNothing(k: Kept, capacity: nat)
    requires |k.samples| <= capacity
    ensures ReceiveAll(k, [], capacity) == k
  {
    assert k.samples + [] == k.samples;
  }

  lemma UpdateFrom(due: Comparator, room: nat, t: int, k: Kept, items: seq<Item>, n: nat, capacity: nat)
    requires n <= |items|
    ensures var m := n + DueEnd(due, t, items[n..]);
      Do(due, room, Reader(items[n..], ReceiveAll(k, items[..n], capacity), capacity), Update(t))
        == Reader(items[m..], ReceiveAll(k, items[..m], capacity), capacity)
  {
    hide DueEnd, Drain, Samples, LastType;
    var m := n + DueEnd(due, t, items[n..]);
    DrainExact(due, t, items[n..], ReceiveAll(k, items[..n], capacity), capacity);
    ReceiveTwice(k, items, n, m, capacity);
    assert items[n..][m - n..] == items[m..];
  }

  lemma ReceiveTwice(k: Kept, items: seq<Item>, n: nat, m: nat, capacity: nat)
    requires n <= m <= |items|
    ensures ReceiveAll(ReceiveAll(k, items[..n], capacity), items[n..][..m - n], capacity) == ReceiveAll(k, items[..m], capacity)
  {
    var a, b := items[..n], items[n..][..m - n];
    assert items[..m] == a + b;
    SamplesConcat(a, b);
    LastTypeConcat(a, b, k.streamType);
    LastNConcat(k.samples + Samples(a), Samples(b), capacity);
    assert k.samples + Samples(a) + Samples(b) == k.samples + (Samples(a) + Samples(b));
  }

  /** What is consumed by then stays due, so the next update goes on behind it. */
  lemma ConsumedMore(due: Comparator, t: int, steps: seq<Step>)
    requires Monotone(due) && (LastUpdate(steps).Some? ==> LastUpdate(steps).value.0 <= t)
    ensures var n := Consumed(due, steps); var items := Arrived(steps);
      DueEnd(due, t, items) == n + DueEnd(due, t, items[n..])
  {
    hide DueEnd, Samples, Arrived, LastUpdate, Monotone;
    var n, items := Consumed(due, steps), Arrived(steps);
    DueEndIsPrefix(due, t, items[n..]);
    if LastUpdate(steps).Some? {
      var (u, before) := LastUpdate(steps).value;
      ArrivedGrows(steps);
      DueEndIsPrefix(due, u, before);
      assert items[..n] == before[..n];
      StillDue(due, u, t, Samples(items[..n]));
      assert n > 0 ==> items[n - 1] == before[n - 1];
    } else {
      assert items[..0] == [];
      NoSamples(items[..0]);
    }
    PrefixJoined(due, t, items, n, DueEnd(due, t, items[n..]));
  }

  lemma StillDue(due: Comparator, t: int, u: int, samples: seq<Sample>)
    requires Monotone(due) && t <= u && AllDue(due, t, samples)
    ensures AllDue(due, u, samples)
  {
  }

  lemma PrefixJoined(due: Comparator, t: int, items: seq<Item>, n: nat, m: nat)
    requires n <= |items| && AllDue(due, t, Samples(items[..n])) && (n > 0 ==> items[n - 1].SampleItem?)
    requires DuePrefix(due, t, items[n..], m)
    ensures DueEnd(due, t, items) == n + m
  {
    hide DueEnd, Samples;
    assert items[..n + m] == items[..n] + items[n..][..m] && items[n + m..] == items[n..][m..];
    SamplesConcat(items[..n], items[n..][..m]);
    assert DuePrefix(due, t, items, n + m);
    DueEndIsPrefix(due, t, items);
    DuePrefixIsUnique(due, t, items, n + m, DueEnd(due, t, items));
  }

  /** With arrivals in the order of time: the backlog is the end of all samples due at the last update. */
  lemma BacklogExact(due: Comparator, room: nat, streamType: string, capacity: nat, steps: seq<Step>)
    requires Monotone(due) && Forward(steps) && Sorted(Samples(Arrived(steps)))
    requires Lossless(due, room, Reader([], Kept(streamType, []), capacity), steps)
    ensures var r := Run(due, room, Reader([], Kept(streamType, []), capacity), steps);
      r.kept.samples == match LastUpdate(steps)
        case None => []
        case Some((t, items)) => LastN(DueSamples(due, t, Samples(items)), capacity)
  {
    RunExact(due, room, streamType, capacity, steps);
    if LastUpdate(steps).Some? {
      var (t, items) := LastUpdate(steps).value;
      ArrivedGrows(steps);
      var n := DueEnd(due, t, items);
      assert Arrived(steps)[..n] == items[..n] && Arrived(steps) == items + Arrived(steps)[|items|..];
      SamplesConcat(items, Arrived(steps)[|items|..]);
      assert forall i | 0 <= i < |Samples(items)| :: Samples(items)[i] == Samples(Arrived(steps))[i];
      SortedDueFirst(due, t, Samples(items));
      DueMovedExactly(due, t, items);
      assert [] + Samples(items[..n]) == Samples(items[..n]);
    } else {
      assert Arrived(steps)[..0] == [];
    }
  }

  // What every run keeps, with overflowing queues and samples taken out in between.

  ghost predicate AllIn(a: seq<Sample>, b: seq<Sample>) {
    forall x | x in a :: x in b
  }

  ghost predicate Good(due: Comparator, room: nat, r: Reader, steps: seq<Step>) {
    && |r.kept.samples| <= r.capacity && |r.incoming| <= room
    && Sorted(r.kept.samples + Samples(r.incoming))
    && AllIn(r.kept.samples + Samples(r.incoming), Samples(Arrived(steps)))
    && (match LastUpdate(steps)
        case None => r.kept.samples == []
        case Some((t, _)) => AllDue(due, t, r.kept.samples))
  }

  lemma LastSamples(items: seq<Item>, n: nat)
    ensures exists k: nat | k <= |Samples(items)| :: Samples(LastN(items, n)) == Samples(items)[k..]
    ensures |LastN(items, n)| <= n
  {
    var last := LastN(items, n);
    var front := items[..|items| - |last|];
    assert items == front + last;
    SamplesConcat(front, last);
    assert Samples(items)[|Samples(front)|..] == Samples(last);
  }

  /** Dropping samples between the backlog and the incoming ones keeps order and origin. */
  lemma Dropped(a: seq<Sample>, b: seq<Sample>, i: nat, j: nat, k: nat, all: seq<Sample>)
    requires Sorted(a + b) && AllIn(a + b, all) && i <= j <= |a| && k <= |b|
    ensures Sorted(a[i..j] + b[k..]) && AllIn(a[i..j] + b[k..], all)
  {
    var c := a[i..j] + b[k..];
    forall n | 0 <= n < |c| ensures c[n] == (a + b)[if n < j - i then i + n else n - (j - i) + |a| + k] {
    }
  }

  lemma {:induction false} ArrivedSorted(steps: seq<Step>)
    requires steps != [] && Sorted(Samples(Arrived(steps)))
    ensures Sorted(Samples(Arrived(steps[..|steps| - 1])))
    ensures AllIn(Samples(Arrived(steps[..|steps| - 1])), Samples(Arrived(steps)))
  {
    var front := Arrived(steps[..|steps| - 1]);
    var more := Arrived(steps)[|front|..];
    assert Arrived(steps) == front + more;
    SamplesConcat(front, more);
    forall i | 0 <= i < |Samples(front)| ensures Samples(front)[i] == Samples(Arrived(steps))[i] {
    }
  }

  /** The new sample is not older than any other. */
  lemma Appended(samples: seq<Sample>, x: Sample, front: seq<Sample>, all: seq<Sample>)
    requires Sorted(samples) && AllIn(samples, front) && all == front + [x] && Sorted(all)
    ensures Sorted(samples + [x]) && AllIn(samples + [x], all)
  {
    forall i | 0 <= i < |samples| ensures samples[i].time <= x.time {
      assert samples[i] in front;
      var k :| 0 <= k < |front| && front[k] == samples[i];
      assert all[k] == front[k] && all[|front|] == x;
    }
  }

  lemma ArrivedAfter(front: seq<Step>, item: Item)
    ensures Arrived(front + [Arrive(item)]) == Arrived(front) + [item]
    ensures LastUpdate(front + [Arrive(item)]) == LastUpdate(front)
  {
    assert (front + [Arrive(item)])[..|front|] == front;
  }

  lemma ArriveIsGood(due: Comparator, room: nat, r: Reader, front: seq<Step>, item: Item)
    requires Good(due, room, r, front) && Sorted(Samples(Arrived(front + [Arrive(item)])))
    ensures Good(due, room, Do(due, room, r, Arrive(item)), front + [Arrive(item)])
  {
    hide Sorted, AllIn, AllDue, Samples, LastN, Arrived, LastUpdate;
    var steps := front + [Arrive(item)];
    ArrivedAfter(front, item);
    OneSample(item);
    var a, b := r.kept.samples, Samples(r.incoming);
    SamplesConcat(r.incoming, [item]);
    SamplesConcat(Arrived(front), [item]);
    var added := Samples([item]);
    if item.SampleItem? {
      assert added == [item.sample];
      Appended(a + b, item.sample, Samples(Arrived(front)), Samples(Arrived(steps)));
      assert a + b + [item.sample] == a + (b + added);
    } else {
      assert added == [] && b + added == b && Samples(Arrived(front)) + added == Samples(Arrived(front));
    }
    LastSamples(r.incoming + [item], room);
    var k: nat :| k <= |b + added| && Samples(LastN(r.incoming + [item], room)) == (b + added)[k..];
    Dropped(a, b + added, 0, |a|, k, Samples(Arrived(steps)));
    assert a[0..|a|] == a;
  }

  lemma UpdateIsGood(due: Comparator, room: nat, r: Reader, front: seq<Step>, t: int)
    requires Monotone(due) && Good(due, room, r, front) && Forward(front + [Update(t)])
    ensures Good(due, room, Do(due, room, r, Update(t)), front + [Update(t)])
  {
    hide Monotone, Samples, DueEnd, Drain, Sorted, AllIn, AllDue, LastN;
    var steps := front + [Update(t)];
    assert steps[..|front|] == front && Arrived(front) + [] == Arrived(front);
    var a := r.kept.samples;
    var n := DueEnd(due, t, r.incoming);
    var moved, rest := Samples(r.incoming[..n]), Samples(r.incoming[n..]);
    DrainExact(due, t, r.incoming, r.kept, r.capacity);
    DueEndIsPrefix(due, t, r.incoming);
    assert r.incoming == r.incoming[..n] + r.incoming[n..];
    SamplesConcat(r.incoming[..n], r.incoming[n..]);
    if LastUpdate(front).Some? {
      StillDue(due, LastUpdate(front).value.0, t, a);
    } else {
      EmptyIsDue(due, t);
    }
    assert a + Samples(r.incoming) == a + moved + rest;
    DropOldest(due, t, a, moved, rest, r.capacity, Samples(Arrived(front)));
  }

  lemma EmptyIsDue(due: Comparator, t: int)
    ensures AllDue(due, t, [])
  {
  }

  lemma DropOldest(due: Comparator, t: int, a: seq<Sample>, moved: seq<Sample>, rest: seq<Sample>, n: nat, all: seq<Sample>)
    requires Sorted(a + moved + rest) && AllIn(a + moved + rest, all)
    requires AllDue(due, t, a) && AllDue(due, t, moved)
    ensures Sorted(LastN(a + moved, n) + rest) && AllIn(LastN(a + moved, n) + rest, all)
    ensures AllDue(due, t, LastN(a + moved, n)) && |LastN(a + moved, n)| <= n
  {
    var front := a + moved;
    var i := |front| - |LastN(front, n)|;
    Dropped(front, rest, i, |front|, 0, all);
    assert front[i..|front|] == LastN(front, n) && rest[0..] == rest;
  }

  lemma TakeIsGood(due: Comparator, room: nat, r: Reader, front: seq<Step>, step: Step)
    requires Good(due, room, r, front) && !step.Arrive? && !step.Update?
    ensures Good(due, room, Do(due, room, r, step), front + [step])
  {
    hide Samples, Sorted, AllIn, Drain, LastN;
    var steps := front + [step];
    assert steps[..|front|] == front && Arrived(front) + [] == Arrived(front);
    var a, b := r.kept.samples, Samples(r.incoming);
    var next := Do(due, room, r, step).kept.samples;
    var i, j := if step.PopOldest? && a != [] then 1 else if step.Purge? then OlderEnd(a, step.t) else 0,
      if step.PopLatest? && a != [] then |a| - 1 else if step.Resize? then 0 else |a|;
    assert next == a[i..j];
    Dropped(a, b, i, j, 0, Samples(Arrived(front)));
    assert b[0..] == b;
  }

  /**
   * Over every run with arrivals in the order of time and updates that do not go back: the backlog
   * is sorted, older than what is still incoming, within its capacity, and holds nothing that is
   * not due.
   */
  lemma {:induction false} RunIsGood(due: Comparator, room: nat, streamType: string, capacity: nat, steps: seq<Step>)
    requires Monotone(due) && Forward(steps) && Sorted(Samples(Arrived(steps)))
    ensures Good(due, room, Run(due, room, Reader([], Kept(streamType, []), capacity), steps), steps)
  {
    hide Good, Do, Samples, Arrived, Monotone, Sorted;
    var start := Reader([], Kept(streamType, []), capacity);
    if steps == [] {
      EmptyIsGood(due, room, start);
    } else {
      var front, step := steps[..|steps| - 1], steps[|steps| - 1];
      assert steps == front + [step];
      ArrivedSorted(steps);
      RunIsGood(due, room, streamType, capacity, front);
      var r := Run(due, room, start, front);
      match step {
        case Arrive(item) => ArriveIsGood(due, room, r, front, item);
        case Update(t) => UpdateIsGood(due, room, r, front, t);
        case _ => TakeIsGood(due, room, r, front, step);
      }
    }
  }

  lemma EmptyIsGood(due: Comparator, room: nat, r: Reader)
    requires r.incoming == [] && r.kept.samples == []
    ensures Good(due, room, r, [])
  {
  }
}
