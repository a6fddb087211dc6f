/** The blocking queue as the object it is: a ring buffer and a counter behind a mutex.  Each method
    is one region under the mutex, and is proved to be one step of `QueueProtocol`; the ghost state
    also counts the threads, which are not fields of the queue. */
module BlockingQueue {
  import opened CircularQueue
  import opened QueueProtocol
  import opened Wrappers

  class MpmcBlockingQueue<T(0, ==)> {
    const q: CircularQ<T>
    var discardCounter: nat
    ghost var state: State<T>

    ghost predicate Valid()
      reads this, q, q.v
    {
      && q.Valid() && q.maxItems > 0
      && state.capacity == q.Capacity()
      && state.items == q.Contents()
      && state.overruns == q.overrunCounter
      && state.discarded == discardCounter
    }

    constructor (maxItems: nat)
      ensures Valid() && fresh(q) && fresh(q.v) && state == Init(maxItems)
    {
      q := new CircularQ<T>(maxItems);
      discardCounter := 0;
      state := Init(maxItems);
    }

    method PushItem(item: T)
      requires Valid()
      modifies `state, q, q.v
      ensures Valid() && q.v == old(q.v)
      ensures state == Push(old(state), item)
    {
      q.Bound();
      state := Push(state, item);
      q.PushBack(item);
    }

    method PopItem() returns (item: T)
      requires Valid() && state.items != []
      modifies `state, q`head
      ensures Valid() && q.v == old(q.v)
      ensures item == old(state.items)[0] && state == Pop(old(state))
    {
      item := q.Front();
      q.PopFront();
      state := Pop(state);
    }

    /** One pass of `enqueue`: the wait predicate and, if there is room, the push. */
    method EnqueuePass(item: T, ghost again: bool) returns (pushed: bool)
      requires Valid()
      requires again ==> Enabled(state, EnqueueAgain(item))
      modifies `state, q, q.v
      ensures Valid() && q.v == old(q.v)
      ensures state == Apply(old(state), if again then EnqueueAgain(item) else Enqueue(item))
      ensures pushed <==> |old(state.items)| < old(state.capacity)
    {
      hide Push, Pushed;
      q.Bound();
      ghost var step := if again then EnqueueAgain(item) else Enqueue(item);
      ghost var after := Apply(state, step);
      pushed := !q.Full();
      if pushed {
        state := if again
          then state.(producersWoken := state.producersWoken - 1, waiting := state.waiting - multiset{item})
          else state.(attempted := state.attempted + multiset{item});
        PushItem(item);
      } else {
        state := after;
      }
    }

    method EnqueueNowait(item: T)
      requires Valid()
      modifies `state, q, q.v
      ensures Valid() && q.v == old(q.v)
      ensures state == Apply(old(state), QueueProtocol.EnqueueNowait(item))
    {
      state := state.(attempted := state.attempted + multiset{item});
      PushItem(item);
    }

    method EnqueueIfHaveRoom(item: T) returns (pushed: bool)
      requires Valid()
      modifies `state, q, q.v
      ensures Valid() && q.v == old(q.v)
      ensures state == Apply(old(state), QueueProtocol.EnqueueIfHaveRoom(item))
      ensures pushed <==> |old(state.items)| < old(state.capacity)
    {
      hide Push, Pushed;
      q.Bound();
      ghost var after := Apply(state, QueueProtocol.EnqueueIfHaveRoom(item));
      pushed := !q.Full();
      if pushed {
        state := state.(attempted := state.attempted + multiset{item});
        PushItem(item);
      } else {
        state := after;
      }
    }

    /** The atomic increment of `enqueue_if_have_room`, after the mutex is released. */
    method CountDiscard()
      requires Valid() && state.discardNotices > 0
      modifies `state, `discardCounter
      ensures Valid()
      ensures state == Apply(old(state), QueueProtocol.CountDiscard)
    {
      discardCounter := discardCounter + 1;
      state := Apply(state, QueueProtocol.CountDiscard);
    }

    /** One pass of `dequeue` or `dequeue_for`: the wait predicate and, if there is an item, the pop. */
    method DequeuePass(ghost step: Step<T>) returns (popped: Option<T>)
      requires Valid() && Enabled(state, step)
      requires step.Dequeue? || step.DequeueAgain? || step.DequeueFor? || step.DequeueForAgain?
      modifies `state, q`head
      ensures Valid() && q.v == old(q.v)
      ensures state == Apply(old(state), step)
      ensures popped == if old(state.items) == [] then None else Some(old(state.items)[0])
    {
      ghost var after := Apply(state, step);
      if q.Empty() {
        state := after;
        return None;
      }
      state := state.(consumersWoken := after.consumersWoken, timedWoken := after.timedWoken);
      var item := PopItem();
      popped := Some(item);
    }
  }
}
