/**
 * The check queue of src/checkqueue.h: one master and any number of workers
 * that share a queue of checks under a mutex. A step is what one thread does
 * from taking the mutex to releasing it; steps of different threads interleave
 * in any order. A check is the boolean that it will evaluate to.
 */
module CheckQueue {
  import opened Common

  // ------------------------------------------------------------------ state

  /** Where a thread is between two critical sections. */
  datatype Thread =
    | Outside                                    // not in Loop
    | Waiting(notified: bool)                    // in cond.wait
    | Working(batch: seq<bool>, okBefore: bool)  // running its batch; okBefore is fAllOk when it took it

  const MASTER := 0

  datatype State = State(
    queue: seq<bool>, nIdle: int, nTotal: int, fAllOk: bool, nTodo: int, fQuit: bool, nBatchSize: nat,
    threads: seq<Thread>)

  predicate AllTrue(checks: seq<bool>) {
    forall i | 0 <= i < |checks| :: checks[i]
  }

  /** CCheckQueue's constructor, with the master and n workers still outside Loop. */
  function Fresh(nBatchSize: nat, n: nat): State {
    State([], 0, 0, true, 0, false, nBatchSize, seq(n + 1, _ => Outside))
  }

  // ------------------------------------------------------------------ steps

  /** How many checks a thread takes. */
  function BatchSize(s: State): int
    requires s.nTotal + s.nIdle + 1 > 0
  {
    Max(1, Min(s.nBatchSize, |s.queue| / (s.nTotal + s.nIdle + 1)))
  }

  datatype LoopExit = Goes | Returns(ok: bool)

  /** From the test of the queue to the release of the mutex; checks leave the queue from its end, one by one. */
  function Settle(s: State, t: nat): (State, LoopExit)
    requires t < |s.threads|
    requires s.queue != [] ==> s.nTotal + s.nIdle + 1 > 0 && BatchSize(s) <= |s.queue|
  {
    if s.queue == [] then
      if (t == MASTER || s.fQuit) && s.nTodo == 0 then
        (s.(nTotal := s.nTotal - 1, fAllOk := if t == MASTER then true else s.fAllOk,
            threads := s.threads[t := Outside]),
         Returns(s.fAllOk))
      else
        (s.(nIdle := s.nIdle + 1, threads := s.threads[t := Waiting(false)]), Goes)
    else
      var left := |s.queue| - BatchSize(s);
      (s.(queue := s.queue[..left], threads := s.threads[t := Working(Reversed(s.queue[left..]), s.fAllOk)]), Goes)
  }

  /** Entering Loop. */
  function Entered(s: State): State {
    s.(nTotal := s.nTotal + 1)
  }

  /** What the batch gave: checks run in order while none has failed. */
  function RunBatch(batch: seq<bool>, ok: bool): bool {
    if batch == [] || !ok then ok else RunBatch(batch[1..], batch[0])
  }

  /** The clean-up after a batch; the last check done by a worker wakes the master. */
  function Finished(s: State, t: nat): State
    requires t < |s.threads| && s.threads[t].Working?
  {
    var todo := s.nTodo - |s.threads[t].batch|;
    var u := s.(fAllOk := s.fAllOk && RunBatch(s.threads[t].batch, s.threads[t].okBefore), nTodo := todo,
                threads := s.threads[t := Outside]);
    if todo == 0 && t != MASTER && u.threads[MASTER].Waiting?
    then u.(threads := u.threads[MASTER := Waiting(true)]) else u
  }

  /** Waking from cond.wait, notified or not. */
  function Woken(s: State, t: nat): State
    requires t < |s.threads|
  {
    s.(nIdle := s.nIdle - 1, threads := s.threads[t := Outside])
  }

  /** Add, called by the master; waking workers needs no trace, since they may wake at any time. */
  function Added(s: State, checks: seq<bool>): State {
    s.(queue := s.queue + checks, nTodo := s.nTodo + |checks|)
  }

  datatype Event = Add(checks: seq<bool>) | Enter(t: nat) | Finish(t: nat) | Wake(t: nat)

  /** Which events the threads' own program text allows. */
  predicate Enabled(s: State, e: Event) {
    && |s.threads| > 0
    && match e
       case Add(_) => s.threads[MASTER].Outside?
       case Enter(t) => t < |s.threads| && s.threads[t].Outside?
       case Finish(t) => t < |s.threads| && s.threads[t].Working?
       case Wake(t) => t < |s.threads| && s.threads[t].Waiting?
  }

  /** The state in which the acting thread tests the queue. */
  function Before(s: State, e: Event): State
    requires Enabled(s, e) && !e.Add?
  {
    match e
    case Enter(t) => Entered(s)
    case Finish(t) => Finished(s, t)
    case Wake(t) => Woken(s, t)
  }

  // -------------------------------------------------------------- invariant

  /** The sum of a quantity over all threads. */
  function Total(f: Thread -> int, ts: seq<Thread>): int {
    if ts == [] then 0 else f(ts[|ts| - 1]) + Total(f, ts[..|ts| - 1])
  }

  function Load(t: Thread): int {
    if t.Working? then |t.batch| else 0
  }

  function IsIdle(t: Thread): int {
    if t.Waiting? then 1 else 0
  }

  function IsInside(t: Thread): int {
    if t.Outside? then 0 else 1
  }

  lemma {:induction false} TotalUpdate(f: Thread -> int, ts: seq<Thread>, i: nat, x: Thread)
    requires i < |ts|
    ensures Total(f, ts[i := x]) == Total(f, ts) - f(ts[i]) + f(x)
  {
    var n := |ts| - 1;
    if i == n {
      assert ts[i := x][..n] == ts[..n];
    } else {
      assert ts[i := x][..n] == ts[..n][i := x];
      TotalUpdate(f, ts[..n], i, x);
    }
  }

  lemma {:induction false} TotalBounds(f: Thread -> int, ts: seq<Thread>)
    requires forall x :: f(x) >= 0
    ensures Total(f, ts) >= 0
    ensures forall i | 0 <= i < |ts| :: f(ts[i]) <= Total(f, ts)
  {
    if ts != [] {
      var n := |ts| - 1;
      TotalBounds(f, ts[..n]);
      forall i | 0 <= i < |ts| ensures f(ts[i]) <= Total(f, ts) {
        if i < n {
          assert ts[i] == ts[..n][i];
        }
      }
    }
  }

  /** Some thread carries the whole of a positive total. */
  lemma {:induction false} TotalHasOne(f: Thread -> int, ts: seq<Thread>) returns (i: nat)
    requires Total(f, ts) > 0
    ensures i < |ts| && f(ts[i]) > 0
  {
    var n := |ts| - 1;
    if f(ts[n]) > 0 {
      i := n;
    } else {
      i := TotalHasOne(f, ts[..n]);
    }
  }

  /** A batch that can still say yes. */
  predicate Hopeful(t: Thread) {
    t.Working? ==> t.okBefore && AllTrue(t.batch)
  }

  /** Nothing has failed, and nothing that is queued or in flight will. */
  ghost predicate AllWell(s: State) {
    s.fAllOk && AllTrue(s.queue) && AllHopeful(s.threads)
  }

  ghost predicate AllHopeful(ts: seq<Thread>) {
    forall i | 0 <= i < |ts| :: Hopeful(ts[i])
  }

  /** added holds the checks added since Wait last returned. */
  ghost predicate Inv(s: State, added: seq<bool>) {
    && |s.threads| > 0
    && s.nTodo == |s.queue| + Total(Load, s.threads)
    && s.nIdle == Total(IsIdle, s.threads)
    && s.nTotal == Total(IsInside, s.threads)
    && (forall i | 0 <= i < |s.threads| && s.threads[i].Working? :: s.threads[i].batch != [])
    && (AllWell(s) <==> AllTrue(added))
    && (s.threads[MASTER].Waiting? ==> s.queue == [] && (s.threads[MASTER].notified <==> s.nTodo == 0))
  }

  /**
   * Between taking the mutex and testing the queue, the acting thread is
   * Outside in the model but already counted by nTotal.
   */
  ghost predicate MidInv(s: State, added: seq<bool>, t: nat) {
    && t < |s.threads| && s.threads[t].Outside?
    && Inv(s.(nTotal := s.nTotal - 1), added)
  }

  lemma FreshInv(nBatchSize: nat, n: nat)
    ensures Inv(Fresh(nBatchSize, n), [])
  {
    var ts := seq(n + 1, _ => Outside);
    AllOutside(Load, ts);
    AllOutside(IsIdle, ts);
    AllOutside(IsInside, ts);
  }

  lemma {:induction false} AllOutside(f: Thread -> int, ts: seq<Thread>)
    requires f(Outside) == 0 && forall i | 0 <= i < |ts| :: ts[i].Outside?
    ensures Total(f, ts) == 0
  {
    if ts != [] {
      assert ts[|ts| - 1].Outside?;
      AllOutside(f, ts[..|ts| - 1]);
    }
  }

  // ----------------------------------------------------------- preservation

  lemma {:induction false} RunBatchIsAnd(batch: seq<bool>, ok: bool)
    ensures RunBatch(batch, ok) <==> ok && AllTrue(batch)
  {
    if batch != [] && ok {
      RunBatchIsAnd(batch[1..], batch[0]);
    }
  }

  lemma AllTrueConcat(a: seq<bool>, b: seq<bool>)
    ensures AllTrue(a + b) <==> AllTrue(a) && AllTrue(b)
  {
    var c := a + b;
    if AllTrue(c) {
      assert forall i | 0 <= i < |a| :: a[i] == c[i];
      assert forall i | 0 <= i < |b| :: b[i] == c[|a| + i];
    }
  }

  lemma {:induction false} ReversedFacts(v: seq<bool>)
    ensures |Reversed(v)| == |v| && (AllTrue(Reversed(v)) <==> AllTrue(v))
  {
    if v != [] {
      var n := |v| - 1;
      ReversedFacts(v[..n]);
      assert v == v[..n] + [v[n]];
      AllTrueConcat(v[..n], [v[n]]);
      AllTrueConcat([v[n]], Reversed(v[..n]));
    }
  }

  lemma CountsNonNegative(s: State)
    ensures Total(Load, s.threads) >= 0 && Total(IsIdle, s.threads) >= 0 && Total(IsInside, s.threads) >= 0
  {
    TotalBounds(Load, s.threads);
    TotalBounds(IsIdle, s.threads);
    TotalBounds(IsInside, s.threads);
  }

  /**
   * A batch is never empty and not larger than allowed, leaves as much for each other thread,
   * and is the largest such.
   */
  lemma BatchShares(s: State)
    requires s.nTotal + s.nIdle + 1 > 0
    ensures var k, n := s.nTotal + s.nIdle + 1, BatchSize(s);
      && 1 <= n <= Max(1, s.nBatchSize)
      && (n > 1 ==> n * k <= |s.queue|)
      && (n < s.nBatchSize ==> |s.queue| < (n + 1) * k)
  {
    var k, q := s.nTotal + s.nIdle + 1, |s.queue| / (s.nTotal + s.nIdle + 1);
    assert q * k <= |s.queue| < (q + 1) * k;
    var n := BatchSize(s);
    if 1 < n {
      assert n <= q && n * k <= q * k;
    }
    if n < s.nBatchSize {
      assert q <= n && (q + 1) * k <= (n + 1) * k;
    }
  }

  /** A batch is never larger than the queue. */
  lemma BatchFits(s: State)
    requires s.queue != [] && s.nTotal + s.nIdle >= 0
    ensures 1 <= BatchSize(s) <= |s.queue|
  {
    var q, d := |s.queue|, s.nTotal + s.nIdle + 1;
    assert q / d <= q by { DivLess(q, d); }
  }

  lemma DivLess(a: nat, d: int)
    requires d >= 1
    ensures a / d <= a
  {
  }

  lemma AddKeeps(s: State, added: seq<bool>, checks: seq<bool>)
    requires Inv(s, added) && Enabled(s, Add(checks))
    ensures Inv(Added(s, checks), added + checks)
  {
    AllTrueConcat(s.queue, checks);
    AllTrueConcat(added, checks);
    hide AllTrue;
  }

  lemma EnterKeeps(s: State, added: seq<bool>, t: nat)
    requires Inv(s, added) && Enabled(s, Enter(t))
    ensures MidInv(Entered(s), added, t)
  {
    assert Entered(s).(nTotal := s.nTotal) == s;
  }

  lemma WakeKeeps(s: State, added: seq<bool>, t: nat)
    requires Inv(s, added) && Enabled(s, Wake(t))
    ensures MidInv(Woken(s, t), added, t)
  {
    TotalUpdate(Load, s.threads, t, Outside);
    TotalUpdate(IsIdle, s.threads, t, Outside);
    TotalUpdate(IsInside, s.threads, t, Outside);
    HopefulUpdate(s.threads, t, Outside);
  }

  /** Replacing one thread's state. */
  lemma HopefulUpdate(ts: seq<Thread>, t: nat, x: Thread)
    requires t < |ts|
    ensures Hopeful(ts[t]) && AllHopeful(ts[t := x]) ==> AllHopeful(ts)
    ensures Hopeful(x) && AllHopeful(ts) ==> AllHopeful(ts[t := x])
    ensures !Hopeful(x) ==> !AllHopeful(ts[t := x])
  {
    var us := ts[t := x];
    if Hopeful(ts[t]) && AllHopeful(us) {
      forall i | 0 <= i < |ts| ensures Hopeful(ts[i]) {
        assert i != t ==> Hopeful(us[i]);
      }
    }
    assert us[t] == x;
  }

  /** The clean-up without the notification. */
  function Cleaned(s: State, t: nat): State
    requires t < |s.threads| && s.threads[t].Working?
  {
    s.(fAllOk := s.fAllOk && RunBatch(s.threads[t].batch, s.threads[t].okBefore),
       nTodo := s.nTodo - |s.threads[t].batch|, threads := s.threads[t := Outside])
  }

  lemma CleanedWell(s: State, t: nat)
    requires t < |s.threads| && s.threads[t].Working?
    ensures AllWell(Cleaned(s, t)) <==> AllWell(s)
  {
    var x := s.threads[t];
    HopefulUpdate(s.threads, t, Outside);
    HopefulAt(s.threads, t);
    RunBatchIsAnd(x.batch, x.okBefore);
    hide AllTrue, RunBatch, AllHopeful;
  }

  /** A notification changes nothing but the master's flag. */
  lemma NotifyWell(s: State)
    requires |s.threads| > 0 && s.threads[MASTER].Waiting?
    ensures var ts := s.threads[MASTER := Waiting(true)];
      && (AllHopeful(ts) <==> AllHopeful(s.threads))
      && Total(Load, ts) == Total(Load, s.threads)
      && Total(IsIdle, ts) == Total(IsIdle, s.threads)
      && Total(IsInside, ts) == Total(IsInside, s.threads)
  {
    HopefulUpdate(s.threads, MASTER, Waiting(true));
    TotalUpdate(Load, s.threads, MASTER, Waiting(true));
    TotalUpdate(IsIdle, s.threads, MASTER, Waiting(true));
    TotalUpdate(IsInside, s.threads, MASTER, Waiting(true));
  }

  lemma FinishKeeps(s: State, added: seq<bool>, t: nat)
    requires Inv(s, added) && Enabled(s, Finish(t))
    ensures MidInv(Finished(s, t), added, t)
    ensures Finished(s, t).nTodo < s.nTodo
  {
    hide Total, AllTrue, RunBatch, AllHopeful;
    var u := Cleaned(s, t);
    TotalUpdate(Load, s.threads, t, Outside);
    TotalUpdate(IsIdle, s.threads, t, Outside);
    TotalUpdate(IsInside, s.threads, t, Outside);
    CleanedWell(s, t);
    TotalBounds(Load, s.threads);
    assert Load(s.threads[t]) > 0;
    if u.nTodo == 0 && t != MASTER && u.threads[MASTER].Waiting? {
      NotifyWell(u);
    }
  }

  lemma HopefulAt(ts: seq<Thread>, t: nat)
    requires t < |ts|
    ensures AllHopeful(ts) ==> Hopeful(ts[t])
  {
  }

  /** When nothing is left to do, nothing is in flight. */
  lemma NothingInFlight(s: State, added: seq<bool>)
    requires Inv(s, added) && s.nTodo == 0
    ensures s.queue == [] && AllHopeful(s.threads)
    ensures forall i | 0 <= i < |s.threads| :: !s.threads[i].Working?
  {
    TotalBounds(Load, s.threads);
    forall i | 0 <= i < |s.threads| ensures !s.threads[i].Working? {
      assert Load(s.threads[i]) <= 0;
    }
  }

  lemma SettleIdle(s: State, added: seq<bool>, t: nat)
    requires MidInv(s, added, t) && s.queue == []
    ensures var (u, o) := Settle(s, t);
      && (o == Goes || t != MASTER ==> Inv(u, added))
      && (o.Returns? && t == MASTER ==> o.ok == AllTrue(added) && Inv(u, []))
  {
    var m := s.(nTotal := s.nTotal - 1);
    if (t == MASTER || s.fQuit) && s.nTodo == 0 {
      NothingInFlight(m, added);
      assert s.threads[t := Outside] == s.threads;
    } else {
      TotalUpdate(Load, s.threads, t, Waiting(false));
      TotalUpdate(IsIdle, s.threads, t, Waiting(false));
      TotalUpdate(IsInside, s.threads, t, Waiting(false));
      HopefulUpdate(s.threads, t, Waiting(false));
      hide Total, AllHopeful, AllTrue;
    }
  }

  lemma SettleBusy(s: State, added: seq<bool>, t: nat)
    requires MidInv(s, added, t) && s.queue != []
    ensures s.nTotal + s.nIdle + 1 > 0 && 1 <= BatchSize(s) <= |s.queue|
    ensures var (u, o) := Settle(s, t); o == Goes && Inv(u, added)
  {
    hide Total, AllHopeful, AllTrue, Reversed, BatchSize;
    CountsNonNegative(s);
    BatchFits(s);
    var left := |s.queue| - BatchSize(s);
    var x := Working(Reversed(s.queue[left..]), s.fAllOk);
    ReversedFacts(s.queue[left..]);
    assert s.queue == s.queue[..left] + s.queue[left..];
    AllTrueConcat(s.queue[..left], s.queue[left..]);
    TotalUpdate(Load, s.threads, t, x);
    TotalUpdate(IsIdle, s.threads, t, x);
    TotalUpdate(IsInside, s.threads, t, x);
    HopefulUpdate(s.threads, t, x);
  }

  // ------------------------------------------------------------- whole runs

  /** What one call of Wait returned, and the checks added since the call before it returned. */
  datatype Verdict = Verdict(ok: bool, checks: seq<bool>)

  datatype Run = Run(s: State, added: seq<bool>, verdicts: seq<Verdict>)

  /** Whether the step is defined: an enabled event whose batch does not pop an empty queue. */
  predicate Safe(s: State, e: Event) {
    && Enabled(s, e)
    && (e.Add? ||
        var m := Before(s, e);
        e.t < |m.threads| && (m.queue != [] ==> m.nTotal + m.nIdle + 1 > 0 && BatchSize(m) <= |m.queue|))
  }

  function Step(r: Run, e: Event): Run
    requires Safe(r.s, e)
  {
    if e.Add? then r.(s := Added(r.s, e.checks), added := r.added + e.checks)
    else
      var (u, o) := Settle(Before(r.s, e), e.t);
      if o.Returns? && e.t == MASTER then Run(u, [], r.verdicts + [Verdict(o.ok, r.added)])
      else r.(s := u)
  }

  ghost predicate RunOk(r: Run) {
    && Inv(r.s, r.added)
    && forall i | 0 <= i < |r.verdicts| :: r.verdicts[i].ok == AllTrue(r.verdicts[i].checks)
  }

  lemma StepKeeps(r: Run, e: Event)
    requires RunOk(r) && Enabled(r.s, e)
    ensures Safe(r.s, e) && RunOk(Step(r, e))
  {
    if e.Add? {
      AddKeeps(r.s, r.added, e.checks);
    } else {
      match e {
        case Enter(t) => EnterKeeps(r.s, r.added, t);
        case Finish(t) => FinishKeeps(r.s, r.added, t);
        case Wake(t) => WakeKeeps(r.s, r.added, t);
      }
      var m := Before(r.s, e);
      hide Inv, Before;
      if m.queue == [] {
        SettleIdle(m, r.added, e.t);
      } else {
        SettleBusy(m, r.added, e.t);
      }
      hide Settle;
    }
  }

  /** The events happen one after the other, each when it is enabled. */
  ghost predicate Happens(r: Run, es: seq<Event>, q: Run)
    decreases |es|
  {
    if es == [] then q == r
    else Enabled(r.s, es[0]) && (Safe(r.s, es[0]) ==> Happens(Step(r, es[0]), es[1..], q))
  }

  lemma {:induction false} RunKeeps(r: Run, es: seq<Event>, q: Run)
    requires RunOk(r) && Happens(r, es, q)
    ensures RunOk(q)
    decreases |es|
  {
    if es != [] {
      StepKeeps(r, es[0]);
      RunKeeps(Step(r, es[0]), es[1..], q);
    }
  }

  /**
   * For any number of workers and any interleaving: every Wait returned true
   * exactly when all checks added since the previous Wait are true, and nTodo
   * counts the queued checks and those in flight.
   */
  lemma EveryWaitIsRight(nBatchSize: nat, n: nat, es: seq<Event>, q: Run)
    requires Happens(Run(Fresh(nBatchSize, n), [], []), es, q)
    ensures forall i | 0 <= i < |q.verdicts| :: q.verdicts[i].ok == AllTrue(q.verdicts[i].checks)
    ensures q.s.nTodo == |q.s.queue| + Total(Load, q.s.threads)
    ensures forall e | Enabled(q.s, e) :: Safe(q.s, e)
  {
    FreshInv(nBatchSize, n);
    RunKeeps(Run(Fresh(nBatchSize, n), [], []), es, q);
    forall e | Enabled(q.s, e) ensures Safe(q.s, e) {
      StepKeeps(q, e);
    }
  }

  // --------------------------------------------------------------- progress

  /** A master that waits has been notified, or some worker has a batch whose end will notify it. */
  lemma MasterIsNeverForgotten(s: State, added: seq<bool>) returns (worker: nat)
    requires Inv(s, added) && s.threads[MASTER].Waiting?
    ensures s.threads[MASTER].notified ||
            (worker != MASTER && worker < |s.threads| && s.threads[worker].Working?)
    ensures s.threads[MASTER].notified ==>
              s.nTodo == 0 && Settle(Woken(s, MASTER), MASTER).1 == Returns(AllTrue(added))
  {
    worker := 0;
    if s.nTodo == 0 {
      WakeKeeps(s, added, MASTER);
      SettleIdle(Woken(s, MASTER), added, MASTER);
    } else {
      TotalBounds(Load, s.threads);
      worker := TotalHasOne(Load, s.threads);
    }
  }

  /** While the master is inside Wait, what is left to do never grows, and each finished batch lowers it. */
  lemma WorkRunsOut(r: Run, e: Event)
    requires RunOk(r) && Enabled(r.s, e) && !r.s.threads[MASTER].Outside?
    ensures Safe(r.s, e) && Step(r, e).s.nTodo <= r.s.nTodo
    ensures e.Finish? ==> Step(r, e).s.nTodo < r.s.nTodo
  {
    StepKeeps(r, e);
    if e.Finish? {
      FinishKeeps(r.s, r.added, e.t);
    }
    hide Inv;
  }

  /** If nothing else is possible than idle waking, the master is outside: Wait cannot hang. */
  lemma WaitDoesNotHang(s: State, added: seq<bool>)
    requires Inv(s, added)
    requires forall t | 0 <= t < |s.threads| :: !s.threads[t].Working?
    requires s.threads[MASTER].Waiting? ==> !s.threads[MASTER].notified
    ensures s.threads[MASTER].Outside?
  {
    if s.threads[MASTER].Waiting? {
      var w := MasterIsNeverForgotten(s, added);
    }
  }
}
