/**
  The wake-up protocol of the blocking queue. Every section that holds the mutex is one
  step; a blocked `dequeue` is split at `cnd_wait`. Any thread may step at any time, and
  a blocked thread may wake up without having been signalled (section 7.26.3.6 of ISO C11).
*/
module QueueProtocol {
  type Data = int

  /** What has happened so far. The counters split the removals by how they came about. */
  datatype History<T> = History(
    enqueued: seq<Data>,
    removed: seq<Data>,
    registered: seq<T>,
    woken: seq<T>,
    calls: nat,
    atOnce: nat,
    afterWaking: nat,
    tried: nat,
    rewaits: nat)

  /**
    `waiters` is the list of waiting threads, `waiting` the threads whose `isWaiting` flag is
    set, and `blocked` the threads that are inside `cnd_wait`.
  */
  datatype State<!T(==)> = State(
    items: seq<Data>,
    waiters: seq<T>,
    waiting: set<T>,
    blocked: set<T>,
    past: History<T>)
  {
    /** The threads that were signalled and have not resumed yet. */
    function Signalled(): set<T> {
      blocked - waiting
    }
  }

  datatype Action<T> =
    | Enqueue(item: Data)
    | Dequeue(caller: T)
    | Wake(sleeper: T)
    | TryDequeue

  function Init<T(==)>(): State<T> {
    State([], [], {}, {}, History([], [], [], [], 0, 0, 0, 0, 0))
  }

  predicate Enabled<T(==)>(s: State<T>, a: Action<T>) {
    match a
    case Dequeue(t) => t !in s.blocked
    case Wake(t) => t in s.blocked
    case _ => true
  }

  predicate Spurious<T(==)>(s: State<T>, a: Action<T>) {
    a.Wake? && a.sleeper in s.waiting
  }

  function Take<T(==)>(s: State<T>): State<T>
    requires s.items != []
  {
    s.(items := s.items[1..], past := s.past.(removed := s.past.removed + [s.items[0]]))
  }

  function Register<T(==)>(s: State<T>, t: T): State<T> {
    s.(waiters := s.waiters + [t], waiting := s.waiting + {t}, blocked := s.blocked + {t},
       past := s.past.(registered := s.past.registered + [t]))
  }

  /** Mark the first waiter as ready and signal it. */
  function Signal<T(==)>(s: State<T>): State<T> {
    if s.waiters == [] then s
    else s.(waiters := s.waiters[1..], waiting := s.waiting - {s.waiters[0]},
            past := s.past.(woken := s.past.woken + [s.waiters[0]]))
  }

  function Apply<T(==)>(s: State<T>, a: Action<T>): State<T> {
    match a
    case Enqueue(item) =>
      Signal(s.(items := s.items + [item], past := s.past.(enqueued := s.past.enqueued + [item])))
    case Dequeue(t) =>
      var s' := s.(past := s.past.(calls := s.past.calls + 1));
      if s.items == [] then Register(s', t)
      else Take(s'.(past := s'.past.(atOnce := s'.past.atOnce + 1)))
    case Wake(t) =>
      if t in s.waiting then s
      else if s.items == [] then Register(s.(past := s.past.(rewaits := s.past.rewaits + 1)), t)
      else Take(s.(blocked := s.blocked - {t}, past := s.past.(afterWaking := s.past.afterWaking + 1)))
    case TryDequeue =>
      if s.items == [] then s else Take(s.(past := s.past.(tried := s.past.tried + 1)))
  }

  function Exec<T(==)>(run: seq<Action<T>>): State<T> {
    if run == [] then Init() else Apply(Exec(run[..|run| - 1]), run[|run| - 1])
  }

  /** Only enabled actions happen. */
  predicate Schedulable<T(==)>(run: seq<Action<T>>) {
    run == [] || (Schedulable(run[..|run| - 1]) && Enabled(Exec(run[..|run| - 1]), run[|run| - 1]))
  }

  // ----- What every step keeps

  ghost predicate Distinct<T>(s: seq<T>) {
    forall i, j :: 0 <= i < j < |s| ==> s[i] != s[j]
  }

  /** The waiter list holds exactly the threads whose flag is set, each once. */
  ghost predicate ListMatchesFlags<T>(s: State<T>) {
    && Distinct(s.waiters)
    && (forall t :: t in s.waiters ==> t in s.waiting)
    && (forall t :: t in s.waiting ==> t in s.waiters)
    && s.waiting <= s.blocked
  }

  /** Removed items and signalled waiters left from the front, in the order in which they came. */
  ghost predicate Fifo<T>(s: State<T>) {
    && s.past.enqueued == s.past.removed + s.items
    && s.past.registered == s.past.woken + s.waiters
  }

  /** While somebody waits, every item has a thread on its way to it. */
  ghost predicate NoLostWakeUp<T>(s: State<T>) {
    s.waiters != [] ==> |s.items| <= |s.Signalled()|
  }

  ghost predicate Accounts<T>(s: State<T>) {
    && |s.past.woken| == s.past.afterWaking + s.past.rewaits + |s.Signalled()|
    && |s.past.removed| == s.past.atOnce + s.past.afterWaking + s.past.tried
    && s.past.calls == s.past.atOnce + s.past.afterWaking + |s.blocked|
    && |s.past.woken| <= |s.past.enqueued|
    && |s.past.woken| <= |s.past.removed| + |s.Signalled()|
  }

  ghost predicate Inv<T>(s: State<T>) {
    ListMatchesFlags(s) && Fifo(s) && NoLostWakeUp(s) && Accounts(s)
  }

  lemma ListedIsFlagged<T>(s: State<T>)
    requires ListMatchesFlags(s)
    ensures s.waiters != [] ==> s.waiting != {}
  {
    if s.waiters != [] { assert s.waiters[0] in s.waiting; }
  }

  lemma IdleIsNotListed<T>(s: State<T>, t: T)
    requires Inv(s) && t !in s.blocked
    ensures t !in s.waiters && t !in s.waiting && Distinct(s.waiters)
  {
  }

  lemma RegisterKeepsList<T>(s: State<T>, t: T)
    requires ListMatchesFlags(s) && t !in s.waiting
    ensures ListMatchesFlags(Register(s, t))
  {
    assert t !in s.waiters;
  }

  lemma SignalKeepsList<T>(s: State<T>)
    requires ListMatchesFlags(s)
    ensures ListMatchesFlags(Signal(s))
    ensures s.waiters != [] ==>
      && Signal(s).Signalled() == s.Signalled() + {s.waiters[0]}
      && s.waiters[0] !in s.Signalled()
  {
    if s.waiters != [] {
      var w, rest := s.waiters[0], s.waiters[1..];
      assert s.waiters == [w] + rest;
      assert w in s.waiters;
      forall t
        ensures t in rest <==> t in s.waiting - {w}
      {
      }
      assert Signal(s).Signalled() == s.Signalled() + {w};
    }
  }

  lemma EnqueueKeeps<T>(s: State<T>, item: Data)
    requires Inv(s)
    ensures Inv(Apply(s, Enqueue(item)))
  {
    var s1 := s.(items := s.items + [item], past := s.past.(enqueued := s.past.enqueued + [item]));
    assert s1.past.enqueued == s1.past.removed + s1.items;
    if s.waiters != [] {
      SignalKeeps(s1);
    }
  }

  lemma SignalKeeps<T>(s: State<T>)
    requires ListMatchesFlags(s) && Fifo(s) && s.waiters != []
    ensures var s' := Signal(s);
      && ListMatchesFlags(s') && Fifo(s')
      && |s'.Signalled()| == |s.Signalled()| + 1
      && |s'.past.woken| == |s.past.woken| + 1
  {
    SignalKeepsList(s);
    assert s.waiters == [s.waiters[0]] + s.waiters[1..];
    assert s.past.woken + s.waiters == (s.past.woken + [s.waiters[0]]) + s.waiters[1..];
  }

  lemma TakeKeepsFifo<T>(s: State<T>)
    requires s.items != [] && Fifo(s)
    ensures Fifo(Take(s))
  {
    assert s.items == [s.items[0]] + s.items[1..];
  }

  lemma RegisterKeepsFifo<T>(s: State<T>, t: T)
    requires Fifo(s)
    ensures Fifo(Register(s, t))
  {
    assert s.past.woken + (s.waiters + [t]) == (s.past.woken + s.waiters) + [t];
  }

  lemma DequeueKeeps<T>(s: State<T>, t: T)
    requires Inv(s) && t !in s.blocked
    ensures Inv(Apply(s, Dequeue(t)))
  {
    var s1 := s.(past := s.past.(calls := s.past.calls + 1));
    if s.items == [] {
      FirstWaitKeeps(s, s1, t);
    } else {
      TakeKeepsFifo(s1.(past := s1.past.(atOnce := s1.past.atOnce + 1)));
      assert Apply(s, Dequeue(t)).Signalled() == s.Signalled();
    }
  }

  lemma FirstWaitKeeps<T>(s: State<T>, s1: State<T>, t: T)
    requires Inv(s) && t !in s.blocked && s.items == []
    requires s1 == s.(past := s.past.(calls := s.past.calls + 1))
    ensures Inv(Register(s1, t))
  {
    hide Distinct;
    var s' := Register(s1, t);
    RegisterKeepsList(s1, t);
    RegisterKeepsFifo(s1, t);
    assert s'.Signalled() == s.Signalled();
    assert |s'.blocked| == |s.blocked| + 1;
  }

  lemma WakeKeeps<T>(s: State<T>, t: T)
    requires Inv(s) && t in s.Signalled()
    ensures Inv(Apply(s, Wake(t)))
    ensures Apply(s, Wake(t)).Signalled() == s.Signalled() - {t}
  {
    var s' := Apply(s, Wake(t));
    assert s'.Signalled() == s.Signalled() - {t};
    if s.items == [] {
      RegisterKeepsList(s, t);
      RegisterKeepsFifo(s, t);
      assert s'.blocked == s.blocked;
    } else {
      TakeKeepsFifo(s);
    }
  }

  lemma StepKeeps<T>(s: State<T>, a: Action<T>)
    requires Inv(s) && Enabled(s, a)
    ensures Inv(Apply(s, a))
  {
    match a
    case Enqueue(item) => EnqueueKeeps(s, item);
    case Dequeue(t) => DequeueKeeps(s, t);
    case Wake(t) =>
      if t !in s.waiting { WakeKeeps(s, t); }
    case TryDequeue =>
      if s.items != [] {
        TakeKeepsFifo(s);
        assert Apply(s, a).Signalled() == s.Signalled();
      }
  }

  /** Under every schedule. */
  lemma {:induction false} RunKeeps<T>(run: seq<Action<T>>)
    requires Schedulable(run)
    ensures Inv(Exec(run))
  {
    if run != [] {
      RunKeeps(run[..|run| - 1]);
      StepKeeps(Exec(run[..|run| - 1]), run[|run| - 1]);
    }
  }

  lemma RunContinues<T>(run: seq<Action<T>>, a: Action<T>)
    requires Schedulable(run) && Enabled(Exec(run), a)
    ensures Schedulable(run + [a]) && Exec(run + [a]) == Apply(Exec(run), a)
  {
    assert (run + [a])[..|run|] == run;
  }

  // ----- What the actions alone say

  /** The items that were handed in, in order. */
  function Given<T(==)>(run: seq<Action<T>>): seq<Data> {
    if run == [] then []
    else
      var before, a := run[..|run| - 1], run[|run| - 1];
      Given(before) + if a.Enqueue? then [a.item] else []
  }

  /** How many calls of `dequeue` were made, how many of `tryDequeue`, and how often a thread woke up. */
  function Calls<T(==)>(run: seq<Action<T>>): nat {
    if run == [] then 0 else Calls(run[..|run| - 1]) + if run[|run| - 1].Dequeue? then 1 else 0
  }

  function Tries<T(==)>(run: seq<Action<T>>): nat {
    if run == [] then 0 else Tries(run[..|run| - 1]) + if run[|run| - 1].TryDequeue? then 1 else 0
  }

  function Wakes<T(==)>(run: seq<Action<T>>): nat {
    if run == [] then 0 else Wakes(run[..|run| - 1]) + if run[|run| - 1].Wake? then 1 else 0
  }

  lemma GivenAfter<T>(run: seq<Action<T>>, a: Action<T>)
    ensures Given(run + [a]) == Given(run) + if a.Enqueue? then [a.item] else []
  {
    assert (run + [a])[..|run|] == run;
  }

  lemma {:induction false} EnqueuedIsGiven<T>(run: seq<Action<T>>)
    ensures Exec(run).past.enqueued == Given(run)
  {
    if run != [] { EnqueuedIsGiven(run[..|run| - 1]); }
  }

  /** What was handed in is what was taken out and then what is left, in the same order. */
  lemma {:induction false} ItemsComeAsGiven<T>(run: seq<Action<T>>)
    requires Schedulable(run)
    ensures Given(run) == Exec(run).past.removed + Exec(run).items
  {
    RunKeeps(run);
    EnqueuedIsGiven(run);
  }

  /** How many of the wake-ups of a run came without a signal. */
  function SpuriousWakes<T(==)>(run: seq<Action<T>>): nat {
    if run == [] then 0
    else
      var before := run[..|run| - 1];
      SpuriousWakes(before) + if Spurious(Exec(before), run[|run| - 1]) then 1 else 0
  }

  /** How many calls of `tryDequeue` found the queue empty. */
  function Failed<T(==)>(run: seq<Action<T>>): nat {
    if run == [] then 0
    else
      var before := run[..|run| - 1];
      Failed(before) + if run[|run| - 1].TryDequeue? && Exec(before).items == [] then 1 else 0
  }

  /** The counts of the history are those of the actions. */
  lemma {:induction false} HistoryCounts<T>(run: seq<Action<T>>)
    requires Schedulable(run)
    ensures var past := Exec(run).past;
      && past.calls == Calls(run)
      && past.tried + Failed(run) == Tries(run)
      && past.afterWaking + past.rewaits + SpuriousWakes(run) == Wakes(run)
  {
    if run != [] { HistoryCounts(run[..|run| - 1]); }
  }

  // ----- What follows for whole runs

  /** An item and a blocked thread never face each other with nobody about to act. */
  lemma ItemsNeverStrandThreads<T>(run: seq<Action<T>>)
    requires Schedulable(run)
    requires Exec(run).items != [] && Exec(run).blocked != {}
    ensures exists t :: t in Exec(run).Signalled() && Enabled(Exec(run), Wake(t))
                     && Apply(Exec(run), Wake(t)).past.removed == Exec(run).past.removed + [Exec(run).items[0]]
  {
    RunKeeps(run);
    var s := Exec(run);
    if s.waiters == [] {
      assert s.Signalled() == s.blocked;
    } else {
      assert |s.Signalled()| > 0;
    }
    var t :| t in s.Signalled();
  }

  /** Nobody running, nobody signalled: the queue is empty or nobody waits. */
  lemma Quiescence<T>(run: seq<Action<T>>)
    requires Schedulable(run) && Exec(run).Signalled() == {}
    ensures Exec(run).items == [] || Exec(run).blocked == {}
  {
    RunKeeps(run);
    var s := Exec(run);
    if s.blocked != {} {
      var t :| t in s.blocked;
      assert t in s.waiting;
    }
  }

  /**
    When as many items were handed in as were asked for, not counting calls of `tryDequeue` that
    found nothing, and everything is quiet, all were delivered.
  */
  lemma AllDelivered<T>(run: seq<Action<T>>)
    requires Schedulable(run) && Exec(run).Signalled() == {}
    requires |Given(run)| == Calls(run) + Tries(run) - Failed(run)
    ensures Exec(run).items == [] && Exec(run).waiters == [] && Exec(run).blocked == {}
    ensures Exec(run).past.removed == Given(run)
  {
    RunKeeps(run);
    HistoryCounts(run);
    EnqueuedIsGiven(run);
    Quiescence(run);
    var s := Exec(run);
    assert |s.items| == |s.blocked|;
    ListedIsFlagged(s);
  }

  /** A woken thread goes back to sleep at most once for each item taken by one that did not wait for it. */
  lemma RewaitsBounded<T>(run: seq<Action<T>>)
    requires Schedulable(run)
    ensures Exec(run).past.rewaits <= Exec(run).past.atOnce + Exec(run).past.tried
  {
    RunKeeps(run);
  }

  /** Each signalled thread that resumes leaves one fewer to resume, whether it finds an item or not. */
  lemma ResumingDrains<T>(run: seq<Action<T>>, t: T)
    requires Schedulable(run) && t in Exec(run).Signalled()
    ensures Schedulable(run + [Wake(t)])
    ensures Exec(run + [Wake(t)]).Signalled() == Exec(run).Signalled() - {t}
  {
    RunKeeps(run);
    WakeKeeps(Exec(run), t);
    assert (run + [Wake(t)])[..|run|] == run;
  }

  /** From any reachable state, letting the signalled threads resume in any order ends in quiescence. */
  lemma {:induction false} Drains<T>(run: seq<Action<T>>, order: seq<T>)
    requires Schedulable(run) && Distinct(order)
    requires forall t :: t in order <==> t in Exec(run).Signalled()
    ensures var run' := run + seq(|order|, i requires 0 <= i < |order| => Wake(order[i]));
      && Schedulable(run')
      && Exec(run').Signalled() == {}
      && (Exec(run').items == [] || Exec(run').blocked == {})
    decreases |order|
  {
    var wakes := seq(|order|, i requires 0 <= i < |order| => Wake(order[i]));
    if order == [] {
      assert run + wakes == run;
      assert Exec(run).Signalled() == {};
      Quiescence(run);
    } else {
      var t, rest := order[0], order[1..];
      assert order == [t] + rest && t in order;
      ResumingDrains(run, t);
      forall u
        ensures u in rest <==> u in Exec(run + [Wake(t)]).Signalled()
      {
        assert u in order <==> u == t || u in rest;
      }
      Drains(run + [Wake(t)], rest);
      var later := seq(|rest|, i requires 0 <= i < |rest| => Wake(rest[i]));
      assert run + wakes == (run + [Wake(t)]) + later;
    }
  }

  lemma {:induction false} StepsCounted<T>(run: seq<Action<T>>)
    ensures |run| == |Given(run)| + Calls(run) + Tries(run) + Wakes(run)
  {
    if run != [] {
      StepsCounted(run[..|run| - 1]);
    }
  }

  /**
    No schedule goes on for ever: with the calls made and the spurious wake-ups given, the number
    of steps is bounded, each enqueue paying for one wake-up.
  */
  lemma StepsBounded<T>(run: seq<Action<T>>)
    requires Schedulable(run)
    ensures |run| <= 2 * |Given(run)| + Calls(run) + Tries(run) + SpuriousWakes(run)
  {
    RunKeeps(run);
    HistoryCounts(run);
    EnqueuedIsGiven(run);
    StepsCounted(run);
  }
}
