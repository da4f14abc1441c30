/** Readers: a queue of incoming items that is drained into a backlog of the newest samples. */
module DataReaders {
  import opened Wrappers
  import opened DataQueues
  import opened DataReception
  import opened DataRuns

  function Stamped(samples: seq<Sample>): seq<Item> {
    seq(|samples|, i requires 0 <= i < |samples| => SampleItem(samples[i], samples[i].time))
  }

  lemma SamplesOfStamped(samples: seq<Sample>)
    ensures Samples(Stamped(samples)) == samples
  {
    OnlySamples(Stamped(samples));
  }

  lemma StampedLastN(samples: seq<Sample>, x: Sample, n: nat)
    ensures LastN(Stamped(samples) + [SampleItem(x, x.time)], n) == Stamped(LastN(samples + [x], n))
  {
  }

  class DataReaderBacklog {
    const sampleQueue: DataItemQueue
    var initType: string

    ghost const Repr: set<object> := {this, sampleQueue}

    /** The backlog holds samples only, each with its own time. */
    ghost predicate Valid()
      reads Repr
    {
      && sampleQueue.Valid()
      && sampleQueue.items == Stamped(Samples(sampleQueue.items))
    }

    ghost function State(): Kept
      reads Repr
    {
      Kept(initType, Samples(sampleQueue.items))
    }

    constructor (capacity: nat, streamType: string)
      ensures Valid() && fresh(Repr)
      ensures State() == Kept(streamType, []) && sampleQueue.capacity == if capacity == 0 then 1 else capacity
    {
      sampleQueue := new DataItemQueue(capacity);
      initType := streamType;
      new;
      assert sampleQueue.items == Stamped([]);
    }

    method ReceiveType(streamType: string)
      requires Valid()
      modifies this`initType
      ensures Valid() && State() == old(State()).(streamType := streamType)
    {
      initType := streamType;
    }

    method ReceiveSample(sample: Sample)
      requires Valid()
      modifies sampleQueue`items
      ensures Valid()
      ensures State() == old(State()).(samples := LastN(old(State()).samples + [sample], sampleQueue.capacity))
    {
      StampedLastN(Samples(sampleQueue.items), sample, sampleQueue.capacity);
      SamplesOfStamped(LastN(Samples(sampleQueue.items) + [sample], sampleQueue.capacity));
      sampleQueue.PushSample(sample, sample.time);
    }

    method FrontTime() returns (time: Option<int>)
      ensures time == if State().samples == [] then None else Some(State().samples[0].time)
    {
      time := sampleQueue.FirstTime();
    }

    method ReadSampleLatest() returns (sample: Option<Sample>)
      requires Valid()
      ensures sample == At(State().samples, |State().samples| - 1)
    {
      var n := |sampleQueue.items|;
      sample := if n == 0 then None else Some(sampleQueue.items[n - 1].sample);
    }

    method ReadSampleOldest() returns (sample: Option<Sample>)
      requires Valid()
      ensures sample == if State().samples == [] then None else Some(State().samples[0])
    {
      sample := if |sampleQueue.items| == 0 then None else Some(sampleQueue.items[0].sample);
    }

    method PopSampleOldest() returns (sample: Option<Sample>)
      requires Valid()
      modifies sampleQueue`items
      ensures Valid() && initType == old(initType)
      ensures old(State().samples) == [] ==> sample == None && State().samples == []
      ensures old(State().samples) != [] ==> sample.Some? && old(State().samples) == [sample.value] + State().samples
    {
      ghost var samples := Samples(sampleQueue.items);
      var item := sampleQueue.PopFront();
      if item.None? {
        return None;
      }
      assert sampleQueue.items == Stamped(samples[1..]);
      SamplesOfStamped(samples[1..]);
      return Some(item.value.sample);
    }

    method PopSampleLatest() returns (sample: Option<Sample>)
      requires Valid()
      modifies sampleQueue`items
      ensures Valid() && initType == old(initType)
      ensures old(State().samples) == [] ==> sample == None && State().samples == []
      ensures old(State().samples) != [] ==> sample.Some? && old(State().samples) == State().samples + [sample.value]
    {
      ghost var samples := Samples(sampleQueue.items);
      var item := sampleQueue.PopBack();
      if item.None? {
        return None;
      }
      assert sampleQueue.items == old(sampleQueue.items)[..|samples| - 1];
      assert item.value == old(sampleQueue.items)[|samples| - 1];
      assert sampleQueue.items == Stamped(samples[..|samples| - 1]);
      SamplesOfStamped(samples[..|samples| - 1]);
      return Some(item.value.sample);
    }

    /** Goes back from the newest sample to the first one that is older than the bound. */
    method ReadSampleBefore(upperBound: int) returns (result: Option<Sample>)
      requires Valid()
      ensures result == At(State().samples, LastOlder(State().samples, upperBound))
    {
      ghost var samples := State().samples;
      if |sampleQueue.items| == 0 {
        return None;
      }
      var i := |sampleQueue.items|;
      while i > 0
        invariant 0 <= i <= |samples|
        invariant forall k | i <= k < |samples| :: samples[k].time >= upperBound
      {
        i := i - 1;
        if sampleQueue.items[i].time < upperBound {
          return Some(sampleQueue.items[i].sample);
        }
      }
      return None;
    }

    /** Removes the samples from the front that are older than t; the last of them is returned. */
    method PurgeAndPopSampleBefore(t: int) returns (sample: Option<Sample>)
      requires Valid()
      modifies sampleQueue`items
      ensures Valid() && initType == old(initType)
      ensures sample == At(old(State().samples), OlderEnd(old(State().samples), t) - 1)
      ensures State().samples == old(State().samples)[OlderEnd(old(State().samples), t)..]
    {
      hide Stamped, Samples;
      ghost var samples := State().samples;
      ghost var n: nat := 0;
      sample := None;
      var oldest := ReadSampleOldest();
      while oldest.Some? && oldest.value.time < t
        invariant Valid() && initType == old(initType)
        invariant n <= |samples| && State().samples == samples[n..]
        invariant forall k | 0 <= k < n :: samples[k].time < t
        invariant sample == At(samples, n - 1)
        invariant oldest == if n == |samples| then None else Some(samples[n])
        decreases |samples| - n
      {
        sample := PopSampleOldest();
        n := n + 1;
        oldest := ReadSampleOldest();
      }
      assert n == OlderEnd(samples, t);
    }

    /** The backlog is emptied; a capacity of 0 becomes 1. */
    method SetCapacity(size: nat) returns (r: nat)
      requires Valid()
      modifies sampleQueue
      ensures Valid() && initType == old(initType)
      ensures State().samples == [] && sampleQueue.capacity == r == if size == 0 then 1 else size
    {
      var n := size;
      if n <= 0 {
        n := 1;
      }
      r := sampleQueue.SetCapacity(n);
      assert sampleQueue.items == Stamped([]);
    }
  }

  class DataReaderQueue {
    const queue: DataItemQueue

    constructor (capacity: nat)
      ensures fresh(queue) && queue.Valid() && queue.items == [] && queue.capacity == if capacity == 0 then 1 else capacity
    {
      queue := new DataItemQueue(capacity);
    }

    method ReceiveType(streamType: string)
      requires queue.Valid()
      modifies queue`items
      ensures queue.Valid() && queue.items == LastN(old(queue.items) + [TypeItem(streamType, 0)], queue.capacity)
    {
      queue.PushType(streamType, 0);
    }

    method ReceiveSample(sample: Sample)
      requires queue.Valid()
      modifies queue`items
      ensures queue.Valid() && queue.items == LastN(old(queue.items) + [SampleItem(sample, sample.time)], queue.capacity)
    {
      queue.PushSample(sample, sample.time);
    }

    /** Hands the oldest item, a sample or a type, to the receiver. */
    method Pop(receiver: DataReaderBacklog) returns (ok: bool)
      requires queue.Valid() && receiver.Valid() && queue != receiver.sampleQueue
      modifies queue`items, receiver`initType, receiver.sampleQueue`items
      ensures queue.Valid() && receiver.Valid()
      ensures ok == (old(queue.items) != [])
      ensures !ok ==> queue.items == [] && receiver.State() == old(receiver.State())
      ensures ok ==> queue.items == old(queue.items)[1..]
      ensures ok ==> receiver.State() == Receive(old(receiver.State()), old(queue.items)[0], receiver.sampleQueue.capacity)
    {
      var item := queue.PopFront();
      if item.None? {
        return false;
      }
      match item.value {
        case SampleItem(sample, _) => receiver.ReceiveSample(sample);
        case TypeItem(streamType, _) => receiver.ReceiveType(streamType);
      }
      return true;
    }
  }

  class DataReader {
    const backlog: DataReaderBacklog
    const timeComparator: Comparator
    var connectedReader: DataReaderQueue?

    ghost predicate Valid()
      reads this, backlog.Repr, connectedReader, if connectedReader == null then {} else {connectedReader.queue}
    {
      && backlog.Valid()
      && (connectedReader != null ==> connectedReader.queue.Valid() && connectedReader.queue != backlog.sampleQueue)
    }

    /** The reader and its incoming queue as one value. */
    ghost function State(): Reader
      reads this, backlog.Repr, connectedReader, if connectedReader == null then {} else {connectedReader.queue}
    {
      Reader(if connectedReader == null then [] else connectedReader.queue.items,
             backlog.State(), backlog.sampleQueue.capacity)
    }

    constructor (streamType: string, queueSize: nat, comparator: Comparator)
      ensures Valid() && fresh(backlog.Repr) && timeComparator == comparator && connectedReader == null
      ensures State() == Reader([], Kept(streamType, []), if queueSize == 0 then 1 else queueSize)
    {
      backlog := new DataReaderBacklog(queueSize, streamType);
      timeComparator := comparator;
      connectedReader := null;
    }

    /** The registry creates the incoming queue with the capacity of the backlog. */
    method AddToDataRegistry()
      requires Valid()
      modifies this`connectedReader
      ensures Valid() && connectedReader != null && fresh(connectedReader) && fresh(connectedReader.queue)
      ensures connectedReader.queue.capacity == if backlog.sampleQueue.capacity == 0 then 1 else backlog.sampleQueue.capacity
      ensures State() == old(State()).(incoming := [])
    {
      connectedReader := new DataReaderQueue(backlog.sampleQueue.capacity);
    }

    method RemoveFromDataRegistry()
      requires Valid()
      modifies this`connectedReader
      ensures Valid() && connectedReader == null && State() == old(State()).(incoming := [])
    {
      connectedReader := null;
    }

    /** Moves what is due; without a connected reader nothing happens. */
    method ReceiveNow(timeOfUpdate: int)
      requires Valid()
      modifies connectedReader, if connectedReader == null then {} else {connectedReader.queue}
      modifies backlog`initType, backlog.sampleQueue`items
      ensures Valid() && connectedReader == old(connectedReader)
      ensures State() == Do(timeComparator, 0, old(State()), Update(timeOfUpdate))
    {
      if connectedReader == null {
        return;
      }
      var incoming := connectedReader.queue;
      ghost var start := State();
      var next := incoming.FirstTime();
      while next.Some? && timeComparator(next.value, timeOfUpdate)
        invariant Valid() && connectedReader == old(connectedReader) && incoming == connectedReader.queue
        invariant State().capacity == start.capacity && next == NextTime(incoming.items)
        invariant Drain(timeComparator, timeOfUpdate, start.incoming, start.kept, start.capacity)
               == Drain(timeComparator, timeOfUpdate, State().incoming, State().kept, start.capacity)
        decreases |incoming.items|
      {
        var ok := connectedReader.Pop(backlog);
        if !ok {
          break;
        }
        next := incoming.FirstTime();
      }
    }

    /** A sample arrives in the connected queue. */
    method Deliver(sample: Sample)
      requires Valid() && connectedReader != null
      modifies connectedReader.queue`items
      ensures Valid() && State() == Do(timeComparator, connectedReader.queue.capacity, old(State()), Arrive(SampleItem(sample, sample.time)))
    {
      connectedReader.ReceiveSample(sample);
    }

    method DeliverType(streamType: string)
      requires Valid() && connectedReader != null
      modifies connectedReader.queue`items
      ensures Valid() && State() == Do(timeComparator, connectedReader.queue.capacity, old(State()), Arrive(TypeItem(streamType, 0)))
    {
      connectedReader.ReceiveType(streamType);
    }

    // What the reader inherits from its backlog.

    method PopSampleOldest() returns (sample: Option<Sample>)
      requires Valid()
      modifies backlog.sampleQueue`items
      ensures Valid() && State() == Do(timeComparator, 0, old(State()), PopOldest)
      ensures sample == if old(State()).kept.samples == [] then None else Some(old(State()).kept.samples[0])
    {
      sample := backlog.PopSampleOldest();
    }

    method PopSampleLatest() returns (sample: Option<Sample>)
      requires Valid()
      modifies backlog.sampleQueue`items
      ensures Valid() && State() == Do(timeComparator, 0, old(State()), PopLatest)
      ensures sample == At(old(State()).kept.samples, |old(State()).kept.samples| - 1)
    {
      sample := backlog.PopSampleLatest();
    }

    method PurgeAndPopSampleBefore(t: int) returns (sample: Option<Sample>)
      requires Valid()
      modifies backlog.sampleQueue`items
      ensures Valid() && State() == Do(timeComparator, 0, old(State()), Purge(t))
      ensures sample == At(old(State()).kept.samples, OlderEnd(old(State()).kept.samples, t) - 1)
    {
      sample := backlog.PurgeAndPopSampleBefore(t);
    }

    method SetCapacity(size: nat) returns (r: nat)
      requires Valid()
      modifies backlog.sampleQueue
      ensures Valid() && State() == Do(timeComparator, 0, old(State()), Resize(size))
      ensures r == if size == 0 then 1 else size
    {
      r := backlog.SetCapacity(size);
    }
  }
}
