/**
  The blocking queue over linked nodes. Each method that ends in a call of Log is one section
  that holds the mutex, and takes the protocol of QueueProtocol through one step.
*/
module BlockingQueue {
  import opened QueueProtocol

  class QueueItem {
    const data: Data
    var next: QueueItem?

    constructor (data: Data)
      ensures this.data == data && next == null
    {
      this.data := data;
      next := null;
    }
  }

  /** The node on the stack of a thread that waits; it is used again each time the thread waits. */
  class WaitingThread {
    var next: WaitingThread?
    var isWaiting: bool
  }

  class Queue {
    var head: QueueItem?
    var tail: QueueItem?
    var count: nat
    var visitedCount: nat
    var waitingHead: WaitingThread?
    var waitingTail: WaitingThread?
    var waitingCount: nat

    ghost var nodes: seq<QueueItem>
    /** The state of the protocol, and the steps that led to it. */
    ghost var state: State<WaitingThread>
    ghost var run: seq<Action<WaitingThread>>

    /** The given items form a list from head to tail. */
    ghost predicate ItemsLinked(items: seq<Data>, visited: nat)
      reads this`head, this`tail, this`count, this`visitedCount, this`nodes, nodes
    {
      && head == (if nodes == [] then null else nodes[0])
      && tail == (if nodes == [] then null else nodes[|nodes| - 1])
      && (forall i, j :: 0 <= i < j < |nodes| ==> nodes[i] != nodes[j])
      && (forall i :: 1 <= i < |nodes| ==> nodes[i - 1].next == nodes[i])
      && (nodes != [] ==> nodes[|nodes| - 1].next == null)
      && |nodes| == |items| == count
      && (forall i :: 0 <= i < |nodes| ==> nodes[i].data == items[i])
      && visitedCount == visited
    }

    /** The given waiters form a list from waitingHead to waitingTail, and the flags say who waits. */
    ghost predicate WaitersLinked(w: seq<WaitingThread>, waiting: set<WaitingThread>, blocked: set<WaitingThread>)
      reads this`waitingHead, this`waitingTail, this`waitingCount, w, blocked
    {
      && waitingHead == (if w == [] then null else w[0])
      && waitingTail == (if w == [] then null else w[|w| - 1])
      && (forall i :: 1 <= i < |w| ==> w[i - 1].next == w[i])
      && (w != [] ==> w[|w| - 1].next == null)
      && |w| == waitingCount
      && (forall t :: t in blocked ==> (t.isWaiting <==> t in waiting))
    }

    ghost predicate Linked(s: State<WaitingThread>)
      reads this, nodes, s.waiters, s.blocked
    {
      ItemsLinked(s.items, |s.past.removed|) && WaitersLinked(s.waiters, s.waiting, s.blocked)
    }

    ghost predicate Valid()
      reads this, nodes, state.waiters, state.blocked
    {
      Linked(state) && Schedulable(run) && state == Exec(run)
    }

    /** The list of waiters, the threads whose flag is set, and the threads inside `cnd_wait`. */
    ghost function Waiters(): (seq<WaitingThread>, set<WaitingThread>, set<WaitingThread>)
      reads this
    {
      (state.waiters, state.waiting, state.blocked)
    }

    /** A section took the next of the items given: the one that comes after those taken before. */
    twostate predicate TookNext(data: Data)
      reads this
    {
      && Given(run) == old(Given(run))
      && old(count) > 0 && count == old(count) - 1 && visitedCount == old(visitedCount) + 1
      && old(visitedCount) < |Given(run)| && data == Given(run)[old(visitedCount)]
      && old(state.items) != [] && state.items == old(state.items)[1..]
    }

    twostate predicate TookNothing()
      reads this
    {
      && Given(run) == old(Given(run))
      && count == old(count) && visitedCount == old(visitedCount)
      && state.items == old(state.items)
    }

    /** `initQueue` */
    constructor ()
      ensures Valid() && run == []
    {
      head, tail, count, visitedCount := null, null, 0, 0;
      waitingHead, waitingTail, waitingCount := null, null, 0;
      nodes, state, run := [], Init(), [];
    }

    /** The section is over and joins the run. */
    ghost method Log(a: Action<WaitingThread>)
      requires Schedulable(run) && state == Exec(run) && Enabled(state, a) && Linked(Apply(state, a))
      modifies this`run, this`state
      ensures Valid() && run == old(run) + [a] && state == Apply(old(state), a)
      ensures Given(run) == old(Given(run)) + if a.Enqueue? then [a.item] else []
    {
      hide Schedulable, Exec, Apply, Enabled, ItemsLinked, WaitersLinked;
      RunContinues(run, a);
      GivenAfter(run, a);
      state := Apply(state, a);
      run := run + [a];
    }

    /** `enqueue` */
    method Enqueue(item: Data)
      requires Valid()
      modifies this, nodes, state.waiters
      ensures Valid() && run == old(run) + [Action.Enqueue(item)]
      ensures Given(run) == old(Given(run)) + [item] && state.items == old(state.items) + [item]
      ensures count == old(count) + 1 && visitedCount == old(visitedCount)
      ensures old(state.waiters) == [] ==> unchanged(state.waiters) && Waiters() == old(Waiters())
      ensures old(state.waiters) != [] ==>
        && !old(state.waiters[0]).isWaiting
        && Waiters() == (old(state.waiters[1..]), old(state.waiting) - {old(state.waiters[0])}, old(state.blocked))
    {
      hide Fifo, NoLostWakeUp, Accounts, ItemsLinked, WaitersLinked, Exec, Schedulable;
      RunKeeps(run);
      AppendItem(item, state.items, |state.past.removed|);
      SignalFirst(state.waiters, state.waiting, state.blocked);
      Log(Action.Enqueue(item));
    }

    method AppendItem(item: Data, ghost items: seq<Data>, ghost visited: nat)
      requires ItemsLinked(items, visited)
      modifies this`head, this`tail, this`count, this`nodes, nodes
      ensures ItemsLinked(items + [item], visited)
      ensures count == old(count) + 1
    {
      var newItem := new QueueItem(item);
      if tail == null {
        head := newItem;
      } else {
        tail.next := newItem;
      }
      tail := newItem;
      count := count + 1;
      nodes := nodes + [newItem];
    }

    /** Wake the first waiter, if there is one. */
    method SignalFirst(ghost w: seq<WaitingThread>, ghost waiting: set<WaitingThread>,
                       ghost blocked: set<WaitingThread>)
      requires WaitersLinked(w, waiting, blocked) && Distinct(w)
      modifies this`waitingHead, this`waitingTail, this`waitingCount, w
      ensures if w == [] then WaitersLinked(w, waiting, blocked) else WaitersLinked(w[1..], waiting - {w[0]}, blocked)
    {
      if waitingHead != null {
        var waitingThread := waitingHead;
        waitingHead := waitingHead.next;
        if waitingHead == null {
          waitingTail := null;
        }
        waitingCount := waitingCount - 1;
        waitingThread.isWaiting := false;
      }
    }

    /** The first item in the list is the next of the items given. */
    lemma NextIsFirst()
      requires Valid()
      ensures count == |state.items| && visitedCount + count == |Given(run)|
      ensures count > 0 ==> state.items[0] == Given(run)[visitedCount]
    {
      ItemsComeAsGiven(run);
    }

    /** `dequeue`, from the call to its return or to its first `cnd_wait`. */
    method DequeueEnter(me: WaitingThread) returns (done: bool, data: Data)
      requires Valid() && me !in state.blocked
      modifies this, me, state.waiters
      ensures Valid() && run == old(run) + [Action.Dequeue(me)]
      ensures done <==> old(count) != 0
      ensures if done then TookNext(data) else TookNothing()
      ensures done ==> Waiters() == old(Waiters())
      ensures !done ==>
        && me.isWaiting
        && Waiters() == (old(state.waiters) + [me], old(state.waiting) + {me}, old(state.blocked) + {me})
    {
      hide Inv, Distinct, ItemsLinked, WaitersLinked, Exec, Schedulable, Given;
      RunKeeps(run);
      IdleIsNotListed(state, me);
      NextIsFirst();
      if count == 0 {
        JoinWaiters(me, state.waiters, state.waiting, state.blocked);
        Log(Action.Dequeue(me));
        return false, 0;
      }
      data := TakeFirst(state.items, |state.past.removed|);
      Log(Action.Dequeue(me));
      done := true;
    }

    method JoinWaiters(me: WaitingThread, ghost w: seq<WaitingThread>, ghost waiting: set<WaitingThread>,
                       ghost blocked: set<WaitingThread>)
      requires WaitersLinked(w, waiting, blocked) && me !in w && Distinct(w)
      modifies this`waitingHead, this`waitingTail, this`waitingCount, me, w
      ensures WaitersLinked(w + [me], waiting + {me}, blocked + {me})
    {
      me.next := null;
      me.isWaiting := true;
      if waitingTail == null {
        waitingHead := me;
      } else {
        waitingTail.next := me;
      }
      waitingTail := me;
      waitingCount := waitingCount + 1;
    }

    method TakeFirst(ghost items: seq<Data>, ghost visited: nat) returns (data: Data)
      requires ItemsLinked(items, visited) && items != []
      modifies this`head, this`tail, this`count, this`visitedCount, this`nodes
      ensures ItemsLinked(items[1..], visited + 1) && data == items[0] && nodes == old(nodes)[1..]
      ensures count == old(count) - 1 && visitedCount == old(visitedCount) + 1
    {
      var item := head;
      head := item.next;
      if head == null {
        tail := null;
      }
      count := count - 1;
      visitedCount := visitedCount + 1;
      nodes := nodes[1..];
      data := item.data;
    }

    /** `dequeue`, from the return of a `cnd_wait` to the next one or to the end. */
    method DequeueResume(me: WaitingThread) returns (done: bool, data: Data)
      requires Valid() && me in state.blocked
      modifies this, me, state.waiters
      ensures Valid() && run == old(run) + [Wake(me)]
      ensures done <==> !old(me.isWaiting) && old(count) != 0
      ensures if done then TookNext(data) else TookNothing()
      ensures done ==> Waiters() == (old(state.waiters), old(state.waiting), old(state.blocked) - {me})
      ensures old(me.isWaiting) ==> me.isWaiting && Waiters() == old(Waiters())
      ensures !done && !old(me.isWaiting) ==>
        && me.isWaiting
        && Waiters() == (old(state.waiters) + [me], old(state.waiting) + {me}, old(state.blocked) + {me})
    {
      hide Inv, Distinct, ItemsLinked, WaitersLinked, Exec, Schedulable, Given;
      FlagTellsSignal(me);
      if me.isWaiting {
        Log(Wake(me));
        return false, 0;
      }
      SignalledHasLeft(me);
      LeaveWaiters(me);
      NextIsFirst();
      if count == 0 {
        JoinWaiters(me, state.waiters, state.waiting, state.blocked);
        Log(Wake(me));
        return false, 0;
      }
      data := TakeFirst(state.items, |state.past.removed|);
      FewerBlocked(state.waiters, state.waiting, state.blocked, me);
      Log(Wake(me));
      done := true;
    }

    lemma FlagTellsSignal(me: WaitingThread)
      requires Valid() && me in state.blocked
      ensures me.isWaiting <==> me in state.waiting
    {
    }

    lemma FewerBlocked(w: seq<WaitingThread>, waiting: set<WaitingThread>, blocked: set<WaitingThread>,
                       me: WaitingThread)
      requires WaitersLinked(w, waiting, blocked)
      ensures WaitersLinked(w, waiting, blocked - {me})
    {
    }

    /** The clean-up after a wake-up. */
    method LeaveWaiters(me: WaitingThread)
      modifies this`waitingHead, this`waitingTail
      ensures waitingHead == if old(waitingHead) == me then me.next else old(waitingHead)
      ensures waitingTail == if old(waitingTail) == me then null else old(waitingTail)
    {
      if waitingHead == me {
        waitingHead := me.next;
      }
      if waitingTail == me {
        waitingTail := null;
      }
    }

    /** A thread that was signalled is no longer in the list, so the clean-up changes nothing. */
    lemma SignalledHasLeft(me: WaitingThread)
      requires Valid() && me in state.blocked && !me.isWaiting
      ensures waitingHead != me && waitingTail != me && me !in state.waiters && Distinct(state.waiters)
    {
      RunKeeps(run);
      assert me !in state.waiting;
      var w := state.waiters;
      assert w != [] ==> waitingHead == w[0] && w[0] in w && waitingTail == w[|w| - 1] && w[|w| - 1] in w;
    }

    /** `tryDequeue` */
    method TryDequeue() returns (found: bool, item: Data)
      requires Valid()
      modifies this
      ensures Valid() && run == old(run) + [Action.TryDequeue]
      ensures found <==> old(count) != 0
      ensures if found then TookNext(item) else TookNothing()
      ensures Waiters() == old(Waiters())
    {
      hide Inv, Distinct, ItemsLinked, WaitersLinked, Exec, Schedulable, Given;
      NextIsFirst();
      if count == 0 {
        Log(Action.TryDequeue);
        return false, 0;
      }
      item := TakeFirst(state.items, |state.past.removed|);
      Log(Action.TryDequeue);
      found := true;
    }

    /** The counters that `size`, `visited` and `waiting` return are the lengths of what they count. */
    method Counters() returns (size: nat, visited: nat, waiting: nat)
      requires Valid()
      ensures size == |state.items| && visited == |state.past.removed| && waiting == |state.waiters|
      ensures size + visited == |Given(run)|
    {
      ItemsComeAsGiven(run);
      return count, visitedCount, waitingCount;
    }
  }
}
