/** What draining the incoming queue does to a reader, in one update and over whole runs. */
module DataReception {
  import opened Wrappers
  import opened DataQueues

  /** Whether a sample of the first time is taken by an update of the second. */
  type Comparator = (int, int) -> bool

  /** What a reader keeps: the type in force and the newest samples. */
  datatype Kept = Kept(streamType: string, samples: seq<Sample>)

  function Receive(k: Kept, item: Item, capacity: nat): Kept {
    match item
    case SampleItem(sample, _) => k.(samples := LastN(k.samples + [sample], capacity))
    case TypeItem(streamType, _) => k.(streamType := streamType)
  }

  /** Takes items from the front as long as the first sample among them is due. */
  function Drain(due: Comparator, t: int, incoming: seq<Item>, k: Kept, capacity: nat): (seq<Item>, Kept) {
    match NextTime(incoming)
    case None => (incoming, k)
    case Some(next) =>
      if due(next, t) then Drain(due, t, incoming[1..], Receive(k, incoming[0], capacity), capacity)
      else (incoming, k)
  }

  // One update.

  ghost predicate AllDue(due: Comparator, t: int, samples: seq<Sample>) {
    forall i | 0 <= i < |samples| :: due(samples[i].time, t)
  }

  /** The due prefix: it ends with a sample, its samples are due, and the next one is not. */
  ghost predicate DuePrefix(due: Comparator, t: int, incoming: seq<Item>, n: nat) {
    && n <= |incoming|
    && (n > 0 ==> incoming[n - 1].SampleItem?)
    && AllDue(due, t, Samples(incoming[..n]))
    && (NextTime(incoming[n..]).Some? ==> !due(NextTime(incoming[n..]).value, t))
  }

  /** What receiving items one by one amounts to. */
  function ReceiveAll(k: Kept, items: seq<Item>, capacity: nat): Kept {
    Kept(LastType(items, k.streamType), LastN(k.samples + Samples(items), capacity))
  }

  lemma ReceiveStep(k: Kept, item: Item, items: seq<Item>, capacity: nat)
    requires |k.samples| <= capacity
    ensures ReceiveAll(Receive(k, item, capacity), items, capacity) == ReceiveAll(k, [item] + items, capacity)
  {
    assert ([item] + items)[1..] == items;
    if item.SampleItem? {
      assert k.samples + Samples([item] + items) == k.samples + [item.sample] + Samples(items);
      LastNConcat(k.samples + [item.sample], Samples(items), capacity);
    }
  }

  lemma LastNConcat(a: seq<Sample>, b: seq<Sample>, n: nat)
    ensures LastN(LastN(a, n) + b, n) == LastN(a + b, n)
  {
  }

  /** The end of the due prefix. */
  function DueEnd(due: Comparator, t: int, incoming: seq<Item>): (n: nat)
    ensures n <= |incoming|
  {
    if NextTime(incoming).None? || !due(NextTime(incoming).value, t) then 0
    else 1 + DueEnd(due, t, incoming[1..])
  }

  lemma OneSample(item: Item)
    ensures Samples([item]) == if item.SampleItem? then [item.sample] else []
  {
  }

  lemma {:induction false} DueEndIsPrefix(due: Comparator, t: int, incoming: seq<Item>)
    ensures DuePrefix(due, t, incoming, DueEnd(due, t, incoming))
  {
    hide Samples;
    if NextTime(incoming).Some? && due(NextTime(incoming).value, t) {
      var rest := incoming[1..];
      var n := DueEnd(due, t, rest);
      DueEndIsPrefix(due, t, rest);
      assert incoming[..n + 1] == [incoming[0]] + rest[..n] && incoming[n + 1..] == rest[n..];
      SamplesConcat([incoming[0]], rest[..n]);
      SamplesConcat([incoming[0]], rest);
      assert incoming == [incoming[0]] + rest;
      OneSample(incoming[0]);
      assert Samples([incoming[0]]) == if incoming[0].SampleItem? then [incoming[0].sample] else [];
    } else {
      assert incoming[..0] == [] && incoming[0..] == incoming;
    }
  }

  /** No other prefix has these properties. */
  lemma DuePrefixIsUnique(due: Comparator, t: int, incoming: seq<Item>, m: nat, n: nat)
    requires DuePrefix(due, t, incoming, m) && DuePrefix(due, t, incoming, n)
    ensures m == n
  {
    if m < n {
      ShorterLeavesDue(due, t, incoming, m, n);
    } else if n < m {
      ShorterLeavesDue(due, t, incoming, n, m);
    }
  }

  /** After a shorter prefix than the due one, a due sample is next. */
  lemma ShorterLeavesDue(due: Comparator, t: int, incoming: seq<Item>, m: nat, n: nat)
    requires m < n && DuePrefix(due, t, incoming, n)
    ensures NextTime(incoming[m..]).Some? && due(NextTime(incoming[m..]).value, t)
  {
    hide DueEnd;
    var mid := incoming[m..n];
    assert incoming[..n] == incoming[..m] + mid && incoming[m..] == mid + incoming[n..];
    SamplesConcat(incoming[..m], mid);
    SamplesConcat(mid, incoming[n..]);
    assert mid == mid[..n - m - 1] + [incoming[n - 1]];
    SamplesConcat(mid[..n - m - 1], [incoming[n - 1]]);
    assert Samples([incoming[n - 1]]) == [incoming[n - 1].sample];
    var first := Samples(mid)[0];
    assert Samples(incoming[..n])[|Samples(incoming[..m])|] == first;
    assert Samples(incoming[m..])[0] == first;
  }

  /** An update moves exactly the due prefix: types and samples in order, the oldest samples overwritten. */
  lemma {:induction false} DrainExact(due: Comparator, t: int, incoming: seq<Item>, k: Kept, capacity: nat)
    requires |k.samples| <= capacity
    ensures var n := DueEnd(due, t, incoming);
      Drain(due, t, incoming, k, capacity) == (incoming[n..], ReceiveAll(k, incoming[..n], capacity))
  {
    var n := DueEnd(due, t, incoming);
    if n == 0 {
      assert incoming[..0] == [] && incoming[0..] == incoming && k.samples + [] == k.samples;
    } else {
      DrainExact(due, t, incoming[1..], Receive(k, incoming[0], capacity), capacity);
      ReceiveStep(k, incoming[0], incoming[1..][..n - 1], capacity);
      assert incoming[..n] == [incoming[0]] + incoming[1..][..n - 1] && incoming[1..][n - 1..] == incoming[n..];
    }
  }

  /** The types queued in front of a moved sample are applied before it. */
  lemma TypesFirst(due: Comparator, t: int, incoming: seq<Item>, k: Kept, capacity: nat, i: nat)
    requires |k.samples| <= capacity && i < DueEnd(due, t, incoming)
    ensures Drain(due, t, incoming, k, capacity) == Drain(due, t, incoming[i..], ReceiveAll(k, incoming[..i], capacity), capacity)
    ensures ReceiveAll(k, incoming[..i], capacity).streamType == LastType(incoming[..i], k.streamType)
    decreases i
  {
    if i == 0 {
      assert incoming[..0] == [] && incoming[0..] == incoming && k.samples + [] == k.samples;
    } else {
      TypesFirst(due, t, incoming[1..], Receive(k, incoming[0], capacity), capacity, i - 1);
      ReceiveStep(k, incoming[0], incoming[1..][..i - 1], capacity);
      assert incoming[..i] == [incoming[0]] + incoming[1..][..i - 1] && incoming[1..][i - 1..] == incoming[i..];
    }
  }

  // Samples in the order of time.

  predicate Sorted(samples: seq<Sample>) {
    forall i, j | 0 <= i < j < |samples| :: samples[i].time <= samples[j].time
  }

  /** If a time is due, so is every earlier one, and it is still due at every later update. */
  ghost predicate Monotone(due: Comparator) {
    forall x: int, y: int, t: int, u: int | x <= y && t <= u && due(y, t) :: due(x, u)
  }

  function Less(): Comparator {
    (x, t) => x < t
  }

  function LessEqual(): Comparator {
    (x, t) => x <= t
  }

  lemma BothMonotone()
    ensures Monotone(Less()) && Monotone(LessEqual())
  {
  }

  /** All due samples, wherever they are. */
  function DueSamples(due: Comparator, t: int, samples: seq<Sample>): seq<Sample> {
    if samples == [] then []
    else if due(samples[0].time, t) then [samples[0]] + DueSamples(due, t, samples[1..])
    else DueSamples(due, t, samples[1..])
  }

  lemma {:induction false} AllAreDue(due: Comparator, t: int, samples: seq<Sample>)
    requires AllDue(due, t, samples)
    ensures DueSamples(due, t, samples) == samples
  {
    if samples != [] {
      AllAreDue(due, t, samples[1..]);
    }
  }

  lemma {:induction false} DueConcat(due: Comparator, t: int, a: seq<Sample>, b: seq<Sample>)
    ensures DueSamples(due, t, a + b) == DueSamples(due, t, a) + DueSamples(due, t, b)
  {
    if a == [] {
      assert a + b == b;
    } else {
      assert (a + b)[1..] == a[1..] + b;
      DueConcat(due, t, a[1..], b);
    }
  }

  /** No due sample is behind one that is not. */
  ghost predicate DueFirst(due: Comparator, t: int, samples: seq<Sample>) {
    forall i, j | 0 <= i < j < |samples| && due(samples[j].time, t) :: due(samples[i].time, t)
  }

  lemma {:induction false} SomeAreDue(due: Comparator, t: int, samples: seq<Sample>)
    ensures DueSamples(due, t, samples) == [] <==> forall i | 0 <= i < |samples| :: !due(samples[i].time, t)
  {
    if samples != [] {
      SomeAreDue(due, t, samples[1..]);
      assert forall i | 0 <= i < |samples[1..]| :: samples[1..][i] == samples[i + 1];
      if DueSamples(due, t, samples) == [] {
        forall i | 0 <= i < |samples| ensures !due(samples[i].time, t) {
          assert i > 0 ==> samples[i] == samples[1..][i - 1];
        }
      }
    }
  }

  /** An update moves all due samples if and only if none of them is behind one that is not due. */
  lemma DueMovedExactly(due: Comparator, t: int, incoming: seq<Item>)
    ensures var moved := Samples(incoming[..DueEnd(due, t, incoming)]);
      moved == DueSamples(due, t, Samples(incoming)) <==> DueFirst(due, t, Samples(incoming))
  {
    hide Samples, DueEnd, DueSamples, DueFirst;
    var n := DueEnd(due, t, incoming);
    var front, back := Samples(incoming[..n]), Samples(incoming[n..]);
    var all := Samples(incoming);
    DueEndIsPrefix(due, t, incoming);
    assert incoming == incoming[..n] + incoming[n..];
    SamplesConcat(incoming[..n], incoming[n..]);
    DueConcat(due, t, front, back);
    AllAreDue(due, t, front);
    SomeAreDue(due, t, back);
    assert all == front + back;
    DueFirstSplit(due, t, front, back);
  }

  lemma DueFirstSplit(due: Comparator, t: int, front: seq<Sample>, back: seq<Sample>)
    requires AllDue(due, t, front) && (back != [] ==> !due(back[0].time, t))
    ensures DueFirst(due, t, front + back) <==> forall i | 0 <= i < |back| :: !due(back[i].time, t)
  {
    var all := front + back;
    assert forall i | 0 <= i < |back| :: all[|front| + i] == back[i];
    assert forall i | 0 <= i < |front| :: all[i] == front[i];
    if DueFirst(due, t, all) {
      forall i | 0 <= i < |back| ensures !due(back[i].time, t) {
        assert all[|front|] == back[0];
      }
    }
  }

  lemma SortedDueFirst(due: Comparator, t: int, samples: seq<Sample>)
    requires Sorted(samples) && Monotone(due)
    ensures DueFirst(due, t, samples)
  {
  }

  // Taking samples out of the backlog.

  /** The end of the longest prefix of samples older than t. */
  function OlderEnd(samples: seq<Sample>, t: int): (n: nat)
    ensures n <= |samples|
    ensures forall i | 0 <= i < n :: samples[i].time < t
    ensures n < |samples| ==> samples[n].time >= t
  {
    if samples == [] || samples[0].time >= t then 0 else 1 + OlderEnd(samples[1..], t)
  }

  /** The newest position with a sample older than t, or -1. */
  function LastOlder(samples: seq<Sample>, t: int): (n: int)
    ensures -1 <= n < |samples|
    ensures n >= 0 ==> samples[n].time < t
    ensures forall i | n < i < |samples| :: samples[i].time >= t
  {
    if samples == [] then -1
    else if samples[|samples| - 1].time < t then |samples| - 1
    else LastOlder(samples[..|samples| - 1], t)
  }

  function At(samples: seq<Sample>, n: int): Option<Sample>
    requires -1 <= n < |samples|
  {
    if n < 0 then None else Some(samples[n])
  }

  /**
   * Purging takes the sample that reading finds, and leaves nothing older, if and only if no older
   * sample is behind one that is not; otherwise reading looks behind what purging removes.
   */
  lemma PurgeMeetsRead(samples: seq<Sample>, t: int)
    ensures DueFirst(Less(), t, samples) <==> OlderEnd(samples, t) - 1 == LastOlder(samples, t)
    ensures DueFirst(Less(), t, samples) <==> forall i | OlderEnd(samples, t) <= i < |samples| :: samples[i].time >= t
    ensures !DueFirst(Less(), t, samples) ==> LastOlder(samples, t) > OlderEnd(samples, t)
  {
    var n, m := OlderEnd(samples, t), LastOlder(samples, t);
    if DueFirst(Less(), t, samples) {
      assert forall i | n < i < |samples| :: samples[i].time < t ==> samples[n].time < t;
    }
  }

  /** On a backlog in the order of time both agree. */
  lemma PurgeMeetsReadSorted(samples: seq<Sample>, t: int)
    requires Sorted(samples)
    ensures At(samples, OlderEnd(samples, t) - 1) == At(samples, LastOlder(samples, t))
    ensures forall i | OlderEnd(samples, t) <= i < |samples| :: samples[i].time >= t
  {
    BothMonotone();
    SortedDueFirst(Less(), t, samples);
    PurgeMeetsRead(samples, t);
  }

  lemma UnsortedPurgeMissesOlder()
    ensures var samples := [Sample(7, 0), Sample(3, 1)];
      At(samples, OlderEnd(samples, 5) - 1) == None && At(samples, LastOlder(samples, 5)) == Some(Sample(3, 1))
  {
  }
}
