/** The item queue: samples and stream types in the order of their arrival, the oldest overwritten first. */
module DataQueues {
  import opened Wrappers

  datatype Sample = Sample(time: int, data: int)

  /** An item and the time it was received with. */
  datatype Item = SampleItem(sample: Sample, time: int) | TypeItem(streamType: string, time: int)

  function LastN<T>(s: seq<T>, n: nat): seq<T> {
    if |s| <= n then s else s[|s| - n..]
  }

  /** The end of s: its last n elements, or all of it if there are no more. */
  lemma LastNExact<T>(s: seq<T>, n: nat)
    ensures LastN(s, n) == s[|s| - |LastN(s, n)|..]
    ensures |LastN(s, n)| == if |s| <= n then |s| else n
  {
  }

  /** The samples among the items. */
  function Samples(items: seq<Item>): (r: seq<Sample>)
    ensures |r| <= |items|
  {
    if items == [] then []
    else if items[0].SampleItem? then [items[0].sample] + Samples(items[1..])
    else Samples(items[1..])
  }

  /** The type that is in force behind the items. */
  function LastType(items: seq<Item>, before: string): string {
    if items == [] then before
    else LastType(items[1..], if items[0].TypeItem? then items[0].streamType else before)
  }

  function NextTime(items: seq<Item>): Option<int> {
    if Samples(items) == [] then None else Some(Samples(items)[0].time)
  }

  lemma {:induction false} SamplesConcat(a: seq<Item>, b: seq<Item>)
    ensures Samples(a + b) == Samples(a) + Samples(b)
  {
    if a == [] {
      assert a + b == b;
    } else {
      assert (a + b)[1..] == a[1..] + b;
      SamplesConcat(a[1..], b);
    }
  }

  lemma {:induction false} LastTypeConcat(a: seq<Item>, b: seq<Item>, before: string)
    ensures LastType(a + b, before) == LastType(b, LastType(a, before))
  {
    if a == [] {
      assert a + b == b;
    } else {
      assert (a + b)[1..] == a[1..] + b;
      LastTypeConcat(a[1..], b, if a[0].TypeItem? then a[0].streamType else before);
    }
  }

  lemma {:induction false} NoSamples(items: seq<Item>)
    requires forall i | 0 <= i < |items| :: items[i].TypeItem?
    ensures Samples(items) == []
  {
    if items != [] {
      NoSamples(items[1..]);
    }
  }

  lemma {:induction false} OnlySamples(items: seq<Item>)
    requires forall i | 0 <= i < |items| :: items[i].SampleItem?
    ensures |Samples(items)| == |items| && forall i | 0 <= i < |items| :: Samples(items)[i] == items[i].sample
  {
    if items != [] {
      OnlySamples(items[1..]);
    }
  }

  class DataItemQueue {
    var items: seq<Item>
    var capacity: nat

    ghost predicate Valid()
      reads this
    {
      |items| <= capacity
    }

    constructor (size: nat)
      ensures Valid() && items == [] && capacity == if size == 0 then 1 else size
    {
      items := [];
      capacity := if size <= 0 then 1 else size;
    }

    /** A full queue loses its oldest item; a queue without room keeps nothing. */
    method PushBack(item: Item)
      requires Valid()
      modifies this`items
      ensures Valid() && items == LastN(old(items) + [item], capacity)
    {
      if |items| == capacity {
        if capacity > 0 {
          items := items[1..] + [item];
        }
      } else {
        items := items + [item];
      }
    }

    method PushSample(sample: Sample, timeOfReceiving: int)
      requires Valid()
      modifies this`items
      ensures Valid() && items == LastN(old(items) + [SampleItem(sample, timeOfReceiving)], capacity)
    {
      PushBack(SampleItem(sample, timeOfReceiving));
    }

    method PushType(streamType: string, timeOfReceiving: int)
      requires Valid()
      modifies this`items
      ensures Valid() && items == LastN(old(items) + [TypeItem(streamType, timeOfReceiving)], capacity)
    {
      PushBack(TypeItem(streamType, timeOfReceiving));
    }

    /** The time of the first sample, whatever types are in front of it. */
    method FirstTime() returns (time: Option<int>)
      ensures time == NextTime(items)
    {
      var i := 0;
      while i < |items|
        invariant i <= |items|
        invariant forall k | 0 <= k < i :: items[k].TypeItem?
      {
        if items[i].SampleItem? {
          assert items == items[..i] + items[i..];
          SamplesConcat(items[..i], items[i..]);
          NoSamples(items[..i]);
          return Some(items[i].sample.time);
        }
        i := i + 1;
      }
      NoSamples(items);
      return None;
    }

    method PopFront() returns (item: Option<Item>)
      requires Valid()
      modifies this`items
      ensures Valid()
      ensures old(items) == [] ==> item == None && items == []
      ensures old(items) != [] ==> item.Some? && old(items) == [item.value] + items
    {
      if |items| > 0 {
        item := Some(items[0]);
        items := items[1..];
      } else {
        item := None;
      }
    }

    method PopBack() returns (item: Option<Item>)
      requires Valid()
      modifies this`items
      ensures Valid()
      ensures old(items) == [] ==> item == None && items == []
      ensures old(items) != [] ==> item.Some? && old(items) == items + [item.value]
    {
      if |items| > 0 {
        item := Some(items[|items| - 1]);
        items := items[..|items| - 1];
      } else {
        item := None;
      }
    }

    method Clear()
      modifies this`items
      ensures Valid() && items == []
    {
      items := [];
    }

    /** The items are dropped; a capacity of 0 is taken as it is. */
    method SetCapacity(size: nat) returns (r: nat)
      modifies this
      ensures Valid() && items == [] && capacity == r == size
    {
      items := if |items| <= size then items else items[..size];
      capacity := size;
      Clear();
      return size;
    }
  }
}
