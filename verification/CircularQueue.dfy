/** The ring buffer under the logging queue.  One slot more than the capacity is allocated, to tell
    a full buffer from an empty one. */
module CircularQueue {
  import opened Arithmetic

  /** What a push does to a bounded sequence: the oldest element makes room for the new one. */
  function Pushed<T>(s: seq<T>, capacity: nat, item: T): seq<T> {
    if |s| < capacity then s + [item] else (s + [item])[1..]
  }

  lemma Wrap(i: nat, n: nat)
    requires i < n
    ensures (i + 1) % n == if i + 1 == n then 0 else i + 1
  {
    if i + 1 == n {
      DivModUnique(i + 1, n, 1, 0);
    } else {
      DivModUnique(i + 1, n, 0, i + 1);
    }
  }

  lemma WrapFar(i: nat, n: nat)
    requires i < 2 * n
    ensures n > 0 && i % n == if i < n then i else i - n
  {
    DivModUnique(i, n, if i < n then 0 else 1, if i < n then i else i - n);
  }

  /** The elements held between two indices of a ring of slots. */
  function Between<T>(ring: seq<T>, head: nat, tail: nat): seq<T>
    requires head <= |ring| && tail <= |ring|
  {
    if head <= tail then ring[head..tail] else ring[head..] + ring[..tail]
  }

  function After(i: nat, n: nat): nat
    requires i < n
  {
    if i + 1 == n then 0 else i + 1
  }

  /** Writing at the tail and advancing it appends, as long as it does not catch up with the head. */
  lemma RingPush<T>(ring: seq<T>, head: nat, tail: nat, item: T)
    requires head < |ring| && tail < |ring| && After(tail, |ring|) != head
    ensures Between(ring[tail := item], head, After(tail, |ring|)) == Between(ring, head, tail) + [item]
  {
  }

  /** Otherwise both advance, and the oldest element is the one that is lost. */
  lemma RingOverrun<T>(ring: seq<T>, head: nat, tail: nat, item: T)
    requires head < |ring| && tail < |ring| && After(tail, |ring|) == head
    ensures Between(ring[tail := item], After(head, |ring|), head) == (Between(ring, head, tail) + [item])[1..]
  {
    var before := Between(ring, head, tail);
    if tail < head {
      assert before == ring[head..] + ring[..tail];
    }
  }

  /** Both cases together: a push on the ring is a push on the bounded sequence. */
  lemma RingPushed<T>(ring: seq<T>, head: nat, tail: nat, item: T)
    requires head < |ring| && tail < |ring|
    ensures var n := |ring|;
      var newHead := if After(tail, n) == head then After(head, n) else head;
      && (|Between(ring, head, tail)| == n - 1 <==> After(tail, n) == head)
      && Between(ring[tail := item], newHead, After(tail, n)) == Pushed(Between(ring, head, tail), n - 1, item)
  {
    hide Between;
    RingSize(ring, head, tail);
    if After(tail, |ring|) == head {
      RingOverrun(ring, head, tail, item);
    } else {
      RingPush(ring, head, tail, item);
    }
  }

  lemma RingSize<T>(ring: seq<T>, head: nat, tail: nat)
    requires head < |ring| && tail < |ring|
    ensures |Between(ring, head, tail)| <= |ring| - 1
    ensures |Between(ring, head, tail)| == |ring| - 1 <==> After(tail, |ring|) == head
  {
  }

  class CircularQ<T(0)> {
    var maxItems: nat
    var head: nat
    var tail: nat
    var overrunCounter: nat
    var v: array<T>

    ghost predicate Valid()
      reads this
    {
      && v.Length == maxItems
      && if maxItems == 0 then head == 0 && tail == 0 else head < maxItems && tail < maxItems
    }

    /** The number of elements the buffer can hold. */
    function Capacity(): nat
      reads this
    {
      if maxItems == 0 then 0 else maxItems - 1
    }

    ghost function Contents(): seq<T>
      requires Valid()
      reads this, v
    {
      Between(v[..], head, tail)
    }

    /** A disabled buffer. */
    constructor Disabled()
      ensures Valid() && fresh(v) && maxItems == 0 && Contents() == [] && overrunCounter == 0
    {
      maxItems, head, tail, overrunCounter := 0, 0, 0, 0;
      v := new T[0];
    }

    constructor (capacity: nat)
      ensures Valid() && fresh(v) && maxItems == capacity + 1 && Contents() == [] && overrunCounter == 0
    {
      maxItems, head, tail, overrunCounter := capacity + 1, 0, 0, 0;
      v := new T[capacity + 1];
    }

    /** The buffer refines a bounded sequence: a push on a full one drops its oldest element and
        counts it.  A disabled buffer ignores the push. */
    method PushBack(item: T)
      requires Valid()
      modifies this, v
      ensures Valid() && v == old(v) && maxItems == old(maxItems)
      ensures maxItems == 0 ==> Contents() == [] && overrunCounter == old(overrunCounter)
      ensures maxItems > 0 ==> Contents() == Pushed(old(Contents()), Capacity(), item)
      ensures maxItems > 0 ==>
        overrunCounter == old(overrunCounter) + if |old(Contents())| == Capacity() then 1 else 0
    {
      if maxItems > 0 {
        hide Between;
        Wrap(tail, maxItems);
        Wrap(head, maxItems);
        Bound();
        ghost var ring := v[..];
        RingPushed(ring, head, tail, item);
        v[tail] := item;
        tail := (tail + 1) % maxItems;
        if tail == head {
          head := (head + 1) % maxItems;
          overrunCounter := overrunCounter + 1;
        }
        assert v[..] == ring[old(tail) := item];
      }
    }

    method Front() returns (item: T)
      requires Valid() && Contents() != []
      ensures item == Contents()[0]
    {
      item := v[head];
    }

    method PopFront()
      requires Valid() && Contents() != []
      modifies `head
      ensures Valid() && Contents() == old(Contents())[1..]
    {
      Wrap(head, maxItems);
      head := (head + 1) % maxItems;
    }

    method Size() returns (n: nat)
      requires Valid()
      ensures n == |Contents()|
    {
      n := if tail >= head then tail - head else maxItems - (head - tail);
    }

    method At(i: nat) returns (item: T)
      requires Valid() && i < |Contents()|
      ensures item == Contents()[i]
    {
      WrapFar(head + i, maxItems);
      item := v[(head + i) % maxItems];
    }

    function Empty(): bool
      requires Valid()
      reads this, v
      ensures Empty() <==> Contents() == []
    {
      tail == head
    }

    /** Full means no room left; a disabled buffer is never full. */
    function Full(): bool
      requires Valid()
      reads this, v
      ensures Full() <==> maxItems > 0 && |Contents()| == Capacity()
    {
      Bound();
      maxItems > 0 && (tail + 1) % maxItems == head
    }

    lemma Bound()
      requires Valid()
      ensures |Contents()| <= Capacity()
      ensures maxItems > 0 ==> ((tail + 1) % maxItems == head <==> |Contents()| == Capacity())
    {
      if maxItems > 0 {
        Wrap(tail, maxItems);
      }
    }
  }
}
