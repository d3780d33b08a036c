/**
 * The ECS event pipe: a queue of events that several readers consume at
 * their own pace. Each record counts how many times it has been read; `Clear`
 * evicts the front records that every registered reader has read, and the
 * indices readers use are logical: they keep counting across evictions.
 */
module Ecs {

  /** The C++ `unsigned int` of the masks. */
  newtype uint32 = x: int | 0 <= x < 0x1_0000_0000

  /** Mask a filter uses when none is given: every bit set. */
  const DefaultFilterMask: uint32 := 0xFFFF_FFFF

  /** Mask `Push` stores when none is given. */
  const DefaultPushMask: uint32 := 0

  /** One record of the pipe: the event, its mask and how many times `Get` has returned it. */
  datatype Event<T> = Event(event: T, mask: uint32, readCount: nat)

  /**
   * How many records at the front of `events` have been read exactly
   * `readerCount` times in a row: the records `Clear` pops.
   */
  function EvictablePrefix<T>(events: seq<Event<T>>, readerCount: nat): (n: nat)
    ensures n <= |events|
    ensures forall j :: 0 <= j < n ==> events[j].readCount == readerCount
    ensures n < |events| ==> events[n].readCount != readerCount
  {
    if events == [] || events[0].readCount != readerCount then 0
    else 1 + EvictablePrefix(events[1..], readerCount)
  }

  /**
   * A record is evicted exactly when it and every record before it has been
   * read exactly `readerCount` times.
   */
  lemma {:induction false} EvictedIff<T>(events: seq<Event<T>>, readerCount: nat, j: nat)
    requires j < |events|
    ensures j < EvictablePrefix(events, readerCount)
        <==> forall i :: 0 <= i <= j ==> events[i].readCount == readerCount
  {
    var n := EvictablePrefix(events, readerCount);
    if j >= n {
      assert events[n].readCount != readerCount;
    }
  }

  /**
   * The test is equality: a record read more often than there are readers
   * (after a reader left, or a reader read it twice) is never evicted, and
   * neither is any record behind it.
   */
  lemma {:induction false} OverReadRecordBlocks<T>(events: seq<Event<T>>, readerCount: nat, j: nat)
    requires j < |events| && events[j].readCount > readerCount
    ensures EvictablePrefix(events, readerCount) <= j
  {
    EvictedIff(events, readerCount, j);
  }

  /** Evicting the prefix leaves nothing evictable: a second sweep removes nothing. */
  lemma {:induction false} EvictionIdempotent<T>(events: seq<Event<T>>, readerCount: nat)
    ensures EvictablePrefix(events[EvictablePrefix(events, readerCount)..], readerCount) == 0
  {
    var n := EvictablePrefix(events, readerCount);
    if n < |events| {
      assert events[n..][0] == events[n];
    }
  }

  class EventPipe<T> {
    /** Records still held, oldest first. */
    var events: seq<Event<T>>
    /** Number of registered readers. */
    var readerCount: nat
    /** Number of records evicted so far. */
    var deletedEvents: nat

    /** A new, empty pipe with no readers. */
    constructor ()
      ensures events == [] && readerCount == 0 && deletedEvents == 0
      ensures SentEvents() == 0
    {
      events, readerCount, deletedEvents := [], 0, 0;
    }

    /**
     * The pipe as the class declares it: `readerCount` has no initialiser,
     * so it starts with whatever value the storage held.
     */
    constructor AsWritten(indeterminate: nat)
      ensures events == [] && readerCount == indeterminate && deletedEvents == 0
    {
      events, readerCount, deletedEvents := [], indeterminate, 0;
    }

    /** Total number of events ever pushed: held plus evicted, the next logical index. */
    function SentEvents(): (n: nat)
      reads this
      ensures deletedEvents <= n && n - deletedEvents == |events|
    {
      |events| + deletedEvents
    }

    /** Number of records held: the sent events not yet evicted. */
    function Size(): (n: nat)
      reads this
      ensures n == SentEvents() - deletedEvents
    {
      |events|
    }

    method Push(event: T, mask: uint32 := DefaultPushMask)
      modifies this`events
      ensures events == old(events) + [Event(event, mask, 0)]
      ensures SentEvents() == old(SentEvents()) + 1
    {
      events := events + [Event(event, mask, 0)];
    }

    /** The mask of the event at logical index `index`; reads nothing into the read counts. */
    method GetEventMask(index: nat) returns (mask: uint32)
      requires deletedEvents <= index < SentEvents()
      ensures mask == events[index - deletedEvents].mask
    {
      mask := events[index - deletedEvents].mask;
    }

    /** The event at logical index `index` and its mask; counts one more read of that record. */
    method Get(index: nat) returns (event: T, mask: uint32)
      requires deletedEvents <= index < SentEvents()
      modifies this`events
      ensures var i := index - deletedEvents;
        && event == old(events[i]).event
        && mask == old(events[i]).mask
        && events == old(events)[i := old(events[i]).(readCount := old(events[i]).readCount + 1)]
      ensures SentEvents() == old(SentEvents())
    {
      var i := index - deletedEvents;
      var ev := events[i];
      events := events[i := ev.(readCount := ev.readCount + 1)];
      event, mask := ev.event, ev.mask;
    }

    /** Pops every front record read by all readers, stopping at the first one that is not. */
    method Clear()
      modifies this`events, this`deletedEvents
      ensures var n := EvictablePrefix(old(events), readerCount);
        events == old(events)[n..] && deletedEvents == old(deletedEvents) + n
      ensures SentEvents() == old(SentEvents())
      // a surviving record at logical index deletedEvents + j had that index before
      ensures forall j :: 0 <= j < |events| ==>
        events[j] == old(events)[deletedEvents + j - old(deletedEvents)]
    {
      ghost var removed: nat := 0;
      while events != [] && events[0].readCount == readerCount
        invariant removed <= |old(events)|
        invariant events == old(events)[removed..]
        invariant deletedEvents == old(deletedEvents) + removed
        invariant EvictablePrefix(old(events), readerCount) == removed + EvictablePrefix(events, readerCount)
        decreases |events|
      {
        events := events[1..];
        deletedEvents := deletedEvents + 1;
        removed := removed + 1;
      }
    }

    method AddReader()
      modifies this`readerCount
      ensures readerCount == old(readerCount) + 1
    {
      readerCount := readerCount + 1;
    }

    /** Unregisters a reader; with no reader registered it does nothing. */
    method RemoveReader()
      modifies this`readerCount
      ensures readerCount == if old(readerCount) > 0 then old(readerCount) - 1 else 0
    {
      if readerCount > 0 {
        readerCount := readerCount - 1;
      }
    }
  }

  /**
   * Two readers, three events; both read index 0, one of them also reads 1
   * and 2. `Clear` evicts only index 0, and the pipe still reports three
   * events sent.
   */
  method TwoReadersScenario() returns (removed: nat, sent: nat, held: nat)
    ensures removed == 1 && sent == 3 && held == 2
  {
    var pipe := new EventPipe<int>();
    pipe.AddReader();
    pipe.AddReader();
    pipe.Push(10);
    pipe.Push(11);
    pipe.Push(12);
    var e, m := pipe.Get(0);
    e, m := pipe.Get(0);
    e, m := pipe.Get(1);
    e, m := pipe.Get(2);
    assert pipe.events == [Event(10, 0, 2), Event(11, 0, 1), Event(12, 0, 1)];
    var before := pipe.deletedEvents;
    pipe.Clear();
    removed := pipe.deletedEvents - before;
    sent := pipe.SentEvents();
    held := pipe.Size();
  }

  /**
   * A reader leaves after both readers read both events: the records now
   * carry more reads than there are readers and `Clear` keeps them.
   */
  method ReaderLeavesScenario() returns (removed: nat, held: nat)
    ensures removed == 0 && held == 2
  {
    var pipe := new EventPipe<int>();
    pipe.AddReader();
    pipe.AddReader();
    pipe.Push(1, DefaultFilterMask);
    pipe.Push(2);
    var e, m := pipe.Get(0);
    e, m := pipe.Get(0);
    e, m := pipe.Get(1);
    e, m := pipe.Get(1);
    pipe.RemoveReader();
    var before := pipe.deletedEvents;
    pipe.Clear();
    removed := pipe.deletedEvents - before;
    held := pipe.Size();
  }

  /**
   * With the reader count left uninitialised, any nonzero initial value means
   * that a single reader reading the only event does not make it evictable.
   */
  method OneReaderAsWritten(indeterminate: nat) returns (removed: nat)
    requires indeterminate > 0
    ensures removed == 0
  {
    var pipe := new EventPipe<int>.AsWritten(indeterminate);
    pipe.AddReader();
    pipe.Push(7);
    var e, m := pipe.Get(0);
    var before := pipe.deletedEvents;
    pipe.Clear();
    removed := pipe.deletedEvents - before;
  }

  /** With the reader count initialised to 0, the event one reader has read is evicted. */
  method OneReader() returns (removed: nat)
    ensures removed == 1
  {
    var pipe := new EventPipe<int>();
    pipe.AddReader();
    pipe.Push(7);
    var e, m := pipe.Get(0);
    var before := pipe.deletedEvents;
    pipe.Clear();
    removed := pipe.deletedEvents - before;
  }
}
