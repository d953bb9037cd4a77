// The parallel script-check queue: any number of workers and one master, as
// steps. Each critical section under the queue's mutex is one step.
module CheckQueue {
  import opened Numbers

  // A verification job; ok is what running it returns.
  datatype Check = Check(id: nat, ok: bool)

  predicate AllOk(checks: seq<Check>) {
    forall i :: 0 <= i < |checks| ==> checks[i].ok
  }

  // Outside: not in the loop. Waiting: asleep on the condition variable, or
  // notified and about to take the mutex again. Working: out of the mutex with
  // a batch of nNow checks, of which left are still to be looked at.
  datatype Thread =
    | Outside
    | Waiting(notified: bool)
    | Working(left: seq<Check>, nNow: nat, fOk: bool)

  // A finished wait: the checks added for it and what it returned.
  datatype Round = Round(checks: seq<Check>, verdict: bool)

  // Thread 0 is the master. added and rounds only record history. Nothing in
  // the program sets fQuit, so workers never leave.
  datatype State = State(
    queue: seq<Check>, nIdle: int, nTotal: int, nTodo: int, fAllOk: bool,
    threads: seq<Thread>, added: seq<Check>, rounds: seq<Round>)

  const MASTER: nat := 0

  datatype Label =
    | Add(checks: seq<Check>, woken: nat)   // the master queues checks; woken is whom notify_one picks
    | Lock(thread: nat)                     // a thread runs one critical section of the loop
    | RunCheck(thread: nat)                 // a thread looks at the next check of its batch
    | Spurious(thread: nat)                 // a wait ends without a notification

  predicate Init(s: State) {
    && s.queue == [] && s.nIdle == s.nTotal == s.nTodo == 0 && s.fAllOk
    && |s.threads| >= 1 && (forall t :: 0 <= t < |s.threads| ==> s.threads[t] == Outside)
    && s.added == [] && s.rounds == []
  }

  // ------------------------------------------------------------------- steps

  function NotifyAll(threads: seq<Thread>): (r: seq<Thread>)
    ensures |r| == |threads|
    ensures forall t :: 0 <= t < |threads| ==>
              r[t] == if t != MASTER && threads[t].Waiting? then Waiting(true) else threads[t]
  {
    seq(|threads|, t requires 0 <= t < |threads| =>
      if t != MASTER && threads[t].Waiting? then Waiting(true) else threads[t])
  }

  function AddChecks(s: State, checks: seq<Check>, woken: nat): State
    requires |s.threads| >= 1
  {
    s.(queue := s.queue + checks, nTodo := s.nTodo + |checks|, added := s.added + checks,
       threads :=
         if |checks| > 1 then NotifyAll(s.threads)
         else if |checks| == 1 && 0 < woken < |s.threads| && s.threads[woken].Waiting? then
           s.threads[woken := Waiting(true)]
         else s.threads)
  }

  // The first part of the critical section: the previous batch is accounted
  // for, or the thread enters the loop, or it comes back from its wait.
  function CleanUp(s: State, t: nat): State
    requires t < |s.threads|
  {
    match s.threads[t]
    case Outside => s.(nTotal := s.nTotal + 1)
    case Waiting(_) => s.(nIdle := s.nIdle - 1)
    case Working(_, nNow, fOk) =>
      var nTodo := s.nTodo - nNow;
      s.(fAllOk := s.fAllOk && fOk, nTodo := nTodo,
         threads :=
           if nTodo == 0 && t != MASTER && s.threads[MASTER].Waiting? then s.threads[MASTER := Waiting(true)]
           else s.threads)
  }

  function BatchSize(s: State, nBatchSize: nat): nat
    requires s.nTotal >= 0 && s.nIdle >= 0
  {
    var share := |s.queue| / (s.nTotal + s.nIdle + 1);
    var n := if nBatchSize < share then nBatchSize else share;
    if n < 1 then 1 else n
  }

  // The last n checks, in the order they are popped.
  function Popped(queue: seq<Check>, n: nat): (r: seq<Check>)
    requires n <= |queue|
    ensures |r| == n && forall i :: 0 <= i < n ==> r[i] == queue[|queue| - 1 - i]
  {
    seq(n, i requires 0 <= i < n => queue[|queue| - 1 - i])
  }

  predicate Returns(s: State, t: nat) {
    s.queue == [] && t == MASTER && s.nTodo == 0
  }

  // The rest of it: return the verdict, go to sleep, or take a batch.
  function Proceed(s: State, t: nat, nBatchSize: nat): State
    requires t < |s.threads| && s.nTotal >= 0 && s.nIdle >= 0
  {
    if Returns(s, t) then
      s.(nTotal := s.nTotal - 1, fAllOk := true, threads := s.threads[t := Outside],
         added := [], rounds := s.rounds + [Round(s.added, s.fAllOk)])
    else if s.queue == [] then
      s.(nIdle := s.nIdle + 1, threads := s.threads[t := Waiting(false)])
    else
      BatchSizeFits(s, nBatchSize);
      var nNow := BatchSize(s, nBatchSize);
      s.(queue := s.queue[..|s.queue| - nNow],
         threads := s.threads[t := Working(Popped(s.queue, nNow), nNow, s.fAllOk)])
  }

  lemma BatchSizeFits(s: State, nBatchSize: nat)
    requires s.nTotal >= 0 && s.nIdle >= 0 && s.queue != []
    ensures 1 <= BatchSize(s, nBatchSize) <= |s.queue|
    ensures var n := BatchSize(s, nBatchSize);
            n == 1 || (n <= nBatchSize && n * (s.nTotal + s.nIdle + 1) <= |s.queue|)
  {
    var d := s.nTotal + s.nIdle + 1;
    Floor(|s.queue|, d, 0);
    MulMonotone(1, d, |s.queue| / d);
    if BatchSize(s, nBatchSize) > 1 {
      MulMonotone(BatchSize(s, nBatchSize), |s.queue| / d, d);
    }
  }

  predicate CanLock(s: State, t: nat) {
    && t < |s.threads|
    && match s.threads[t]
       case Outside => true
       case Waiting(notified) => notified
       case Working(left, _, _) => left == []
  }

  predicate CanRun(s: State, t: nat) {
    t < |s.threads| && s.threads[t].Working? && s.threads[t].left != []
  }

  // Checks after a failed one are skipped.
  function Ran(th: Thread): Thread
    requires th.Working? && th.left != []
  {
    Working(th.left[1..], th.nNow, th.fOk && th.left[0].ok)
  }

  predicate Enabled(s: State, l: Label) {
    match l
    case Add(_, _) => |s.threads| >= 1 && s.threads[MASTER].Outside?
    case Lock(t) => CanLock(s, t)
    case RunCheck(t) => CanRun(s, t)
    case Spurious(t) => t < |s.threads| && s.threads[t] == Waiting(false)
  }

  ghost predicate Next(s: State, l: Label, s': State, nBatchSize: nat) {
    && Enabled(s, l)
    && match l
       case Add(checks, woken) => s' == AddChecks(s, checks, woken)
       case Lock(t) =>
         var c := CleanUp(s, t);
         c.nTotal >= 0 && c.nIdle >= 0 && |c.threads| == |s.threads| && s' == Proceed(c, t, nBatchSize)
       case RunCheck(t) => s' == s.(threads := s.threads[t := Ran(s.threads[t])])
       case Spurious(t) => s' == s.(threads := s.threads[t := Waiting(true)])
  }

  // --------------------------------------------------------------- invariant

  function Sum(f: Thread -> nat, threads: seq<Thread>): nat {
    if threads == [] then 0 else Sum(f, threads[..|threads| - 1]) + f(threads[|threads| - 1])
  }

  lemma {:induction false} SumUpdate(f: Thread -> nat, threads: seq<Thread>, t: nat, th: Thread)
    requires t < |threads|
    ensures Sum(f, threads[t := th]) == Sum(f, threads) - f(threads[t]) + f(th)
  {
    var k := |threads| - 1;
    if t < k {
      SumUpdate(f, threads[..k], t, th);
      assert threads[t := th][..k] == threads[..k][t := th];
    } else {
      assert threads[t := th][..k] == threads[..k];
    }
  }

  lemma {:induction false} SumSame(f: Thread -> nat, a: seq<Thread>, b: seq<Thread>)
    requires |a| == |b| && forall t :: 0 <= t < |a| ==> f(a[t]) == f(b[t])
    ensures Sum(f, a) == Sum(f, b)
  {
    if a != [] {
      SumSame(f, a[..|a| - 1], b[..|b| - 1]);
    }
  }

  lemma {:induction false} SumPositive(f: Thread -> nat, threads: seq<Thread>) returns (t: nat)
    requires Sum(f, threads) > 0
    ensures t < |threads| && f(threads[t]) > 0
  {
    t := |threads| - 1;
    if f(threads[t]) == 0 {
      t := SumPositive(f, threads[..t]);
    }
  }

  lemma {:induction false} SumAtLeast(f: Thread -> nat, threads: seq<Thread>, t: nat)
    requires t < |threads|
    ensures Sum(f, threads) >= f(threads[t])
  {
    if t < |threads| - 1 {
      SumAtLeast(f, threads[..|threads| - 1], t);
    }
  }

  function Held(th: Thread): nat { if th.Working? then th.nNow else 0 }
  function InLoop(th: Thread): nat { if th.Outside? then 0 else 1 }
  function Idle(th: Thread): nat { if th.Waiting? then 1 else 0 }

  predicate BatchFine(th: Thread) {
    th.Working? ==> 1 <= th.nNow && |th.left| <= th.nNow
  }

  predicate NothingFailed(th: Thread) {
    th.Working? ==> th.fOk && AllOk(th.left)
  }

  predicate NoneFailed(threads: seq<Thread>) {
    forall t :: 0 <= t < |threads| ==> NothingFailed(threads[t])
  }

  predicate Counted(s: State) {
    && s.nTodo == |s.queue| + Sum(Held, s.threads)
    && s.nTotal == Sum(InLoop, s.threads)
    && s.nIdle == Sum(Idle, s.threads)
  }

  // No failure is lost: it is in the flag, in the queue or in some batch.
  predicate FailuresKept(s: State) {
    AllOk(s.added) <==>
      s.fAllOk && AllOk(s.queue) && NoneFailed(s.threads)
  }

  predicate Inv(s: State) {
    && |s.threads| >= 1
    && (forall t :: 0 <= t < |s.threads| ==> BatchFine(s.threads[t]))
    && Counted(s)
    && FailuresKept(s)
    && (s.added == [] ==> s.nTodo == 0)
    && (s.threads[MASTER] == Waiting(false) ==> s.queue == [] && s.nTodo > 0)
    && (s.threads[MASTER].Waiting? ==> |s.threads| > 1)
    && (forall i :: 0 <= i < |s.rounds| ==> (s.rounds[i].verdict <==> AllOk(s.rounds[i].checks)))
  }

  lemma InitInv(s: State)
    requires Init(s)
    ensures Inv(s)
  {
    ghost var idle := seq(|s.threads|, _ => Outside);
    assert s.threads == idle;
    OutsideSums(s.threads);
  }

  lemma {:induction false} OutsideSums(threads: seq<Thread>)
    requires forall t :: 0 <= t < |threads| ==> threads[t] == Outside
    ensures Sum(Held, threads) == Sum(InLoop, threads) == Sum(Idle, threads) == 0
  {
    if threads != [] {
      OutsideSums(threads[..|threads| - 1]);
    }
  }

  lemma AllOkConcat(a: seq<Check>, b: seq<Check>)
    ensures AllOk(a + b) <==> AllOk(a) && AllOk(b)
  {
    if AllOk(a + b) {
      assert forall i :: 0 <= i < |a| ==> (a + b)[i] == a[i];
      assert forall i :: 0 <= i < |b| ==> (a + b)[|a| + i] == b[i];
    }
  }

  lemma AllOkPopped(queue: seq<Check>, n: nat)
    requires n <= |queue|
    ensures AllOk(queue) <==> AllOk(queue[..|queue| - n]) && AllOk(Popped(queue, n))
  {
    var m := |queue| - n;
    if AllOk(queue[..m]) && AllOk(Popped(queue, n)) {
      forall i | 0 <= i < |queue| ensures queue[i].ok {
        if i < m {
          assert queue[..m][i].ok;
        } else {
          assert Popped(queue, n)[|queue| - 1 - i].ok;
        }
      }
    }
  }

  lemma SameSums(a: seq<Thread>, b: seq<Thread>)
    requires |a| == |b|
    requires forall t :: 0 <= t < |a| ==> a[t] == b[t] || (a[t].Waiting? && b[t].Waiting?)
    ensures Sum(Held, a) == Sum(Held, b) && Sum(InLoop, a) == Sum(InLoop, b) && Sum(Idle, a) == Sum(Idle, b)
  {
    SumSame(Held, a, b);
    SumSame(InLoop, a, b);
    SumSame(Idle, a, b);
  }

  lemma AddKeepsInv(s: State, checks: seq<Check>, woken: nat)
    requires Inv(s) && Enabled(s, Add(checks, woken))
    ensures Inv(AddChecks(s, checks, woken))
  {
    var s' := AddChecks(s, checks, woken);
    SameSums(s.threads, s'.threads);
    AllOkConcat(s.queue, checks);
    AllOkConcat(s.added, checks);
  }

  lemma RunKeepsInv(s: State, t: nat)
    requires Inv(s) && CanRun(s, t)
    ensures Inv(s.(threads := s.threads[t := Ran(s.threads[t])]))
  {
    var th := s.threads[t];
    var s' := s.(threads := s.threads[t := Ran(th)]);
    SumUpdate(Held, s.threads, t, Ran(th));
    SumUpdate(InLoop, s.threads, t, Ran(th));
    SumUpdate(Idle, s.threads, t, Ran(th));
    assert th.left == [th.left[0]] + th.left[1..];
    AllOkConcat([th.left[0]], th.left[1..]);
    assert NothingFailed(Ran(th)) <==> NothingFailed(th);
    assert forall k :: 0 <= k < |s.threads| ==> (NothingFailed(s'.threads[k]) <==> NothingFailed(s.threads[k]));
  }

  lemma SpuriousKeepsInv(s: State, t: nat)
    requires Inv(s) && Enabled(s, Spurious(t))
    ensures Inv(s.(threads := s.threads[t := Waiting(true)]))
  {
    SameSums(s.threads, s.threads[t := Waiting(true)]);
    var s' := s.(threads := s.threads[t := Waiting(true)]);
    assert forall k :: 0 <= k < |s.threads| ==> (NothingFailed(s'.threads[k]) <==> NothingFailed(s.threads[k]));
  }

  // The invariant in the middle of a critical section: thread t counts as in
  // the loop, neither asleep nor holding a batch.
  predicate InvInside(c: State, t: nat) {
    && t < |c.threads|
    && (forall k :: 0 <= k < |c.threads| ==> BatchFine(c.threads[k]))
    && c.nTodo == |c.queue| + Sum(Held, c.threads) - Held(c.threads[t])
    && c.nTotal == Sum(InLoop, c.threads) - InLoop(c.threads[t]) + 1
    && c.nIdle == Sum(Idle, c.threads) - Idle(c.threads[t])
    && (AllOk(c.added) <==>
          c.fAllOk && AllOk(c.queue) && forall k :: 0 <= k < |c.threads| && k != t ==> NothingFailed(c.threads[k]))
    && (c.added == [] ==> c.nTodo == 0)
    && (t != MASTER && c.threads[MASTER] == Waiting(false) ==> c.queue == [] && c.nTodo > 0)
    && (t != MASTER && c.threads[MASTER].Waiting? ==> |c.threads| > 1)
    && (forall i :: 0 <= i < |c.rounds| ==> (c.rounds[i].verdict <==> AllOk(c.rounds[i].checks)))
  }

  lemma CleanUpKeepsInv(s: State, t: nat)
    requires Inv(s) && CanLock(s, t)
    ensures InvInside(CleanUp(s, t), t)
    ensures CleanUp(s, t).nTotal >= 1 && CleanUp(s, t).nIdle >= 0 && |CleanUp(s, t).threads| == |s.threads|
  {
    hide Sum;
    var c := CleanUp(s, t);
    SameSums(s.threads, c.threads);
    SumAtLeast(InLoop, c.threads, t);
    SumAtLeast(Idle, c.threads, t);
    SumAtLeast(Held, c.threads, t);
    assert forall k :: 0 <= k < |s.threads| ==> (NothingFailed(c.threads[k]) <==> NothingFailed(s.threads[k]));
    assert NothingFailed(s.threads[t]) <==> (s.threads[t].Working? ==> s.threads[t].fOk);
  }

  lemma OthersHold(c: State, t: nat) returns (k: nat)
    requires InvInside(c, t) && c.queue == [] && c.nTodo > 0
    ensures k < |c.threads| && k != t && c.threads[k].Working?
  {
    SumUpdate(Held, c.threads, t, Outside);
    k := SumPositive(Held, c.threads[t := Outside]);
  }

  lemma NobodyHolds(c: State, t: nat)
    requires InvInside(c, t) && c.queue == [] && c.nTodo == 0
    ensures forall k :: 0 <= k < |c.threads| && k != t ==> !c.threads[k].Working?
  {
    SumUpdate(Held, c.threads, t, Outside);
    forall k | 0 <= k < |c.threads| && k != t ensures !c.threads[k].Working? {
      SumAtLeast(Held, c.threads[t := Outside], k);
    }
  }

  // Thread t leaves the critical section as th.
  lemma SumsWith(threads: seq<Thread>, t: nat, th: Thread)
    requires t < |threads|
    ensures Sum(Held, threads[t := th]) == Sum(Held, threads) - Held(threads[t]) + Held(th)
    ensures Sum(InLoop, threads[t := th]) == Sum(InLoop, threads) - InLoop(threads[t]) + InLoop(th)
    ensures Sum(Idle, threads[t := th]) == Sum(Idle, threads) - Idle(threads[t]) + Idle(th)
  {
    SumUpdate(Held, threads, t, th);
    SumUpdate(InLoop, threads, t, th);
    SumUpdate(Idle, threads, t, th);
  }

  lemma ReturnKeepsInv(c: State, t: nat, nBatchSize: nat)
    requires InvInside(c, t) && c.nTotal >= 1 && c.nIdle >= 0 && Returns(c, t)
    ensures Inv(Proceed(c, t, nBatchSize))
  {
    SumsWith(c.threads, t, Outside);
    NobodyHolds(c, t);
  }

  lemma SleepKeepsInv(c: State, t: nat, nBatchSize: nat)
    requires InvInside(c, t) && c.nTotal >= 1 && c.nIdle >= 0 && !Returns(c, t) && c.queue == []
    ensures Inv(Proceed(c, t, nBatchSize))
  {
    hide Returns, BatchSize;
    var s' := c.(nIdle := c.nIdle + 1, threads := c.threads[t := Waiting(false)]);
    assert s' == Proceed(c, t, nBatchSize);
    SumsWith(c.threads, t, Waiting(false));
    SumAtLeast(Held, c.threads, t);
    assert FailuresKept(s') by {
      assert forall k :: 0 <= k < |c.threads| && k != t ==> s'.threads[k] == c.threads[k];
    }
    if t == MASTER {
      assert c.nTodo > 0 by { SleeperHasWork(c, t); }
      var _ := OthersHold(c, t);
    }
  }

  lemma SleeperHasWork(c: State, t: nat)
    requires InvInside(c, t) && !Returns(c, t) && c.queue == [] && t == MASTER
    ensures c.nTodo > 0
  {
    SumAtLeast(Held, c.threads, t);
  }

  lemma TakeKeepsInv(c: State, t: nat, nBatchSize: nat)
    requires InvInside(c, t) && c.nTotal >= 1 && c.nIdle >= 0 && c.queue != []
    ensures Inv(Proceed(c, t, nBatchSize))
  {
    hide BatchSize;
    BatchSizeFits(c, nBatchSize);
    var n := BatchSize(c, nBatchSize);
    var th := Working(Popped(c.queue, n), n, c.fAllOk);
    SumsWith(c.threads, t, th);
    AllOkPopped(c.queue, n);
    var s' := c.(queue := c.queue[..|c.queue| - n], threads := c.threads[t := th]);
    assert s' == Proceed(c, t, nBatchSize);
    OthersUnchanged(c.threads, t, th);
    assert FailuresKept(s') by {
      assert NothingFailed(th) <==> c.fAllOk && AllOk(Popped(c.queue, n));
      assert s'.threads[t] == th;
    }
  }

  lemma OthersUnchanged(threads: seq<Thread>, t: nat, th: Thread)
    requires t < |threads|
    ensures NoneFailed(threads[t := th]) <==>
              NothingFailed(th) && forall k :: 0 <= k < |threads| && k != t ==> NothingFailed(threads[k])
  {
    var after := threads[t := th];
    assert after[t] == th && forall k :: 0 <= k < |threads| && k != t ==> after[k] == threads[k];
  }

  lemma ProceedKeepsInv(c: State, t: nat, nBatchSize: nat)
    requires InvInside(c, t) && c.nTotal >= 1 && c.nIdle >= 0
    ensures Inv(Proceed(c, t, nBatchSize))
  {
    hide InvInside, Inv, Proceed, Returns;
    if Returns(c, t) {
      ReturnKeepsInv(c, t, nBatchSize);
    } else if c.queue == [] {
      SleepKeepsInv(c, t, nBatchSize);
    } else {
      TakeKeepsInv(c, t, nBatchSize);
    }
  }

  // Every step keeps the invariant.
  lemma NextKeepsInv(s: State, l: Label, s': State, nBatchSize: nat)
    requires Inv(s) && Next(s, l, s', nBatchSize)
    ensures Inv(s')
  {
    hide Inv, InvInside, Proceed, AddChecks;
    match l
    case Add(checks, woken) => AddKeepsInv(s, checks, woken);
    case Lock(t) =>
      CleanUpKeepsInv(s, t);
      ProceedKeepsInv(CleanUp(s, t), t, nBatchSize);
    case RunCheck(t) => RunKeepsInv(s, t);
    case Spurious(t) => SpuriousKeepsInv(s, t);
  }

  // ----------------------------------------------------------------- results

  ghost predicate IsRun(states: seq<State>, labels: seq<Label>, nBatchSize: nat) {
    && |states| == |labels| + 1
    && forall i :: 0 <= i < |labels| ==> Next(states[i], labels[i], states[i + 1], nBatchSize)
  }

  lemma {:induction false} RunInv(states: seq<State>, labels: seq<Label>, nBatchSize: nat, i: nat)
    requires IsRun(states, labels, nBatchSize) && Init(states[0]) && i < |states|
    ensures Inv(states[i])
  {
    hide Next, Inv;
    if i == 0 {
      InitInv(states[0]);
    } else {
      RunInv(states, labels, nBatchSize, i - 1);
      NextKeepsInv(states[i - 1], labels[i - 1], states[i], nBatchSize);
    }
  }

  // What the master added along a run, and where the state says it went.
  function AddedBy(labels: seq<Label>): seq<Check> {
    if labels == [] then []
    else
      var l := labels[|labels| - 1];
      AddedBy(labels[..|labels| - 1]) + if l.Add? then l.checks else []
  }

  function ChecksOf(rounds: seq<Round>): seq<Check> {
    if rounds == [] then [] else ChecksOf(rounds[..|rounds| - 1]) + rounds[|rounds| - 1].checks
  }

  lemma NextKeepsHistory(s: State, l: Label, s': State, nBatchSize: nat)
    requires Inv(s) && Next(s, l, s', nBatchSize)
    ensures ChecksOf(s'.rounds) + s'.added == ChecksOf(s.rounds) + s.added + if l.Add? then l.checks else []
  {
    hide Inv, AllOk;
    if l.Lock? && Returns(CleanUp(s, l.thread), l.thread) {
      assert s'.rounds[..|s.rounds|] == s.rounds;
    }
  }

  // In every run, whatever the interleaving and the number of workers, each
  // wait returned true exactly when all the checks added for it succeed, and
  // the checks of the waits, with those added since, are all the checks added.
  lemma {:induction false} EveryVerdictIsRight(states: seq<State>, labels: seq<Label>, nBatchSize: nat)
    requires IsRun(states, labels, nBatchSize) && Init(states[0])
    ensures var s := states[|labels|];
            && (forall i :: 0 <= i < |s.rounds| ==> (s.rounds[i].verdict <==> AllOk(s.rounds[i].checks)))
            && ChecksOf(s.rounds) + s.added == AddedBy(labels)
    decreases |labels|
  {
    hide Next;
    RunInv(states, labels, nBatchSize, |labels|);
    if labels != [] {
      var n := |labels| - 1;
      assert IsRun(states[..n + 1], labels[..n], nBatchSize) by {
        assert forall i :: 0 <= i < n ==> labels[..n][i] == labels[i];
      }
      EveryVerdictIsRight(states[..n + 1], labels[..n], nBatchSize);
      RunInv(states, labels, nBatchSize, n);
      NextKeepsHistory(states[n], labels[n], states[n + 1], nBatchSize);
    }
  }

  // The assertion a new controller makes about its queue.
  predicate IsIdle(s: State) {
    s.nTotal == s.nIdle && s.nTodo == 0 && s.fAllOk
  }

  // It holds whenever the last wait has returned and nothing was added since.
  lemma IdleBetweenRounds(s: State)
    requires Inv(s) && s.threads[MASTER].Outside? && s.added == []
    ensures IsIdle(s)
  {
    forall t | 0 <= t < |s.threads| ensures InLoop(s.threads[t]) == Idle(s.threads[t]) {
      SumAtLeast(Held, s.threads, t);
    }
    SameCount(s.threads);
  }

  lemma {:induction false} SameCount(threads: seq<Thread>)
    requires forall t :: 0 <= t < |threads| ==> InLoop(threads[t]) == Idle(threads[t])
    ensures Sum(InLoop, threads) == Sum(Idle, threads)
  {
    if threads != [] {
      SameCount(threads[..|threads| - 1]);
    }
  }

  // A master asleep and not notified is owed a notification: a worker holds
  // work. Without workers it never sleeps at all.
  lemma MasterIsNotStranded(s: State) returns (t: nat)
    requires Inv(s) && s.threads[MASTER] == Waiting(false)
    ensures t != MASTER && t < |s.threads| && s.threads[t].Working? && s.threads[t].nNow > 0
  {
    t := SumPositive(Held, s.threads);
  }

  // The worker that accounts for the last batch notifies the master.
  lemma LastWorkerNotifies(s: State, t: nat, s': State, nBatchSize: nat)
    requires Inv(s) && Next(s, Lock(t), s', nBatchSize) && t != MASTER
    requires s.threads[MASTER] == Waiting(false) && s'.nTodo == 0
    ensures s'.threads[MASTER] == Waiting(true)
  {
    CleanUpKeepsInv(s, t);
    NextKeepsInv(s, Lock(t), s', nBatchSize);
  }

  predicate Sleeps(s: State, t: nat) {
    0 < t < |s.threads| && s.threads[t] == Waiting(false)
  }

  // A worker that will look at the queue without any further notification.
  predicate IsAwake(s: State, t: nat) {
    0 < t < |s.threads| && (s.threads[t].Working? || s.threads[t] == Waiting(true))
  }

  // notify_one picks one of those asleep, when there is one.
  ghost predicate PicksSleeper(s: State, l: Label) {
    l.Add? && |l.checks| == 1 && (exists t :: Sleeps(s, t)) ==> Sleeps(s, l.woken)
  }

  // No check lies in the queue with all workers of the loop asleep.
  ghost predicate Attended(s: State) {
    s.queue != [] && (exists t :: Sleeps(s, t)) ==> exists t :: IsAwake(s, t)
  }

  // Queueing checks wakes one worker for one check and all for more.
  lemma AddAttends(s: State, checks: seq<Check>, woken: nat)
    requires |s.threads| >= 1 && Attended(s) && PicksSleeper(s, Add(checks, woken))
    ensures Attended(AddChecks(s, checks, woken))
  {
    var s' := AddChecks(s, checks, woken);
    if checks == [] {
      assert s' == s;
    } else if exists t :: Sleeps(s', t) {
      var asleep :| Sleeps(s', asleep);
      assert Sleeps(s, asleep);
      if |checks| == 1 {
        assert IsAwake(s', woken);
      }
    }
  }

  // A critical section that leaves checks in the queue takes some of them.
  lemma LockAttends(s: State, t: nat, s': State, nBatchSize: nat)
    requires Inv(s) && Next(s, Lock(t), s', nBatchSize) && Attended(s)
    ensures Attended(s')
  {
    hide Inv, Attended, Popped, BatchSize;
    CleanUpKeepsInv(s, t);
    if s'.queue != [] && exists k :: Sleeps(s', k) {
      var asleep :| Sleeps(s', asleep);
      assert s'.threads[t].Working?;
      if t != MASTER {
        assert IsAwake(s', t);
      } else {
        StaysAwake(s, t, s', asleep);
      }
    }
    AttendedIf(s');
  }

  lemma AttendedIf(s: State)
    requires s.queue != [] && (exists t :: Sleeps(s, t)) ==> exists t :: IsAwake(s, t)
    ensures Attended(s)
  {
  }

  lemma NextAttends(s: State, l: Label, s': State, nBatchSize: nat)
    requires Inv(s) && Next(s, l, s', nBatchSize) && Attended(s) && PicksSleeper(s, l)
    ensures Attended(s')
  {
    hide Inv, PicksSleeper, AddChecks, CleanUp, Proceed;
    match l
    case Add(checks, woken) => AddAttends(s, checks, woken);
    case Lock(t) => LockAttends(s, t, s', nBatchSize);
    case RunCheck(t) => MoveAttends(s, t, s'.threads[t], s');
    case Spurious(t) => MoveAttends(s, t, s'.threads[t], s');
  }

  lemma MoveAttends(s: State, t: nat, th: Thread, s': State)
    requires Attended(s) && s'.queue == s.queue && t < |s.threads|
    requires s'.threads == s.threads[t := th] && (th.Working? || th == Waiting(true))
    ensures Attended(s')
  {
    if s'.queue != [] && exists k :: Sleeps(s', k) {
      var asleep :| Sleeps(s', asleep);
      StaysAwake(s, t, s', asleep);
    }
  }

  // A step of thread t that leaves the queue as long or shorter, and lets t itself
  // neither fall asleep nor leave.
  lemma StaysAwake(s: State, t: nat, s': State, asleep: nat)
    requires Attended(s) && Sleeps(s', asleep) && s.queue != []
    requires |s'.threads| == |s.threads| && t < |s.threads|
    requires s'.threads[t].Working? || s'.threads[t] == Waiting(true)
    requires forall k :: 0 < k < |s.threads| && k != t ==> s'.threads[k] == s.threads[k]
    ensures exists k :: IsAwake(s', k)
  {
    assert Sleeps(s, asleep);
    var k :| IsAwake(s, k);
    assert IsAwake(s', k);
  }

  // The workers' side of it: in every run in which notify_one picks a sleeper where
  // there is one, checks never wait in the queue while every worker in the loop sleeps.
  lemma {:induction false} WorkersAreWoken(states: seq<State>, labels: seq<Label>, nBatchSize: nat, i: nat)
    requires IsRun(states, labels, nBatchSize) && Init(states[0]) && i < |states|
    requires forall k :: 0 <= k < |labels| ==> PicksSleeper(states[k], labels[k])
    ensures states[i].queue != [] && (exists t :: Sleeps(states[i], t)) ==> exists t :: IsAwake(states[i], t)
  {
    hide Next, Inv, PicksSleeper, Sleeps, IsAwake;
    if i > 0 {
      WorkersAreWoken(states, labels, nBatchSize, i - 1);
      RunInv(states, labels, nBatchSize, i - 1);
      assert PicksSleeper(states[i - 1], labels[i - 1]);
      NextAttends(states[i - 1], labels[i - 1], states[i], nBatchSize);
    }
  }

  // ------------------------------------------------------------- termination

  function Potential(th: Thread): nat {
    match th
    case Outside => 1
    case Waiting(notified) => if notified then 2 else 0
    case Working(left, _, _) => |left| + 3
  }

  function Measure(s: State): nat {
    4 * |s.queue| + Sum(Potential, s.threads)
  }

  predicate IsProgress(l: Label) {
    l.Lock? || l.RunCheck?
  }

  lemma LockDecreases(s: State, t: nat, s': State, nBatchSize: nat)
    requires Inv(s) && Next(s, Lock(t), s', nBatchSize)
    requires t == MASTER ==> !s.threads[MASTER].Outside?
    ensures Measure(s') < Measure(s)
  {
    hide Inv;
    CleanUpKeepsInv(s, t);
    var c := CleanUp(s, t);
    if c.threads != s.threads {
      SumUpdate(Potential, s.threads, MASTER, Waiting(true));
    }
    SumUpdate(Potential, c.threads, t, s'.threads[t]);
    if c.queue != [] {
      BatchSizeFits(c, nBatchSize);
      MasterAwake(s, t);
    }
  }

  // While checks are queued, accounting for a batch cannot notify the master.
  lemma MasterAwake(s: State, t: nat)
    requires Inv(s) && CanLock(s, t) && s.queue != []
    ensures CleanUp(s, t).threads == s.threads
  {
    CleanUpKeepsInv(s, t);
    SumAtLeast(Held, CleanUp(s, t).threads, t);
  }

  lemma RunDecreases(s: State, t: nat)
    requires CanRun(s, t)
    ensures Measure(s.(threads := s.threads[t := Ran(s.threads[t])])) < Measure(s)
  {
    SumUpdate(Potential, s.threads, t, Ran(s.threads[t]));
  }

  lemma SpuriousCosts(s: State, t: nat)
    requires Enabled(s, Spurious(t))
    ensures Measure(s.(threads := s.threads[t := Waiting(true)])) == Measure(s) + 2
  {
    SumUpdate(Potential, s.threads, t, Waiting(true));
  }

  predicate InWait(s: State) {
    |s.threads| > 0 && !s.threads[MASTER].Outside?
  }

  // While the master waits, some thread can move without a spurious wakeup.
  lemma SomeoneCanMove(s: State) returns (l: Label)
    requires Inv(s) && InWait(s)
    ensures IsProgress(l) && Enabled(s, l)
  {
    var t := MASTER;
    if s.threads[MASTER] == Waiting(false) {
      t := MasterIsNotStranded(s);
    }
    if CanRun(s, t) {
      return RunCheck(t);
    }
    return Lock(t);
  }

  // An enabled step can always be taken: no count in the program goes negative.
  lemma EnabledStepExists(s: State, l: Label, nBatchSize: nat) returns (s': State)
    requires Inv(s) && Enabled(s, l)
    ensures Next(s, l, s', nBatchSize)
  {
    match l
    case Add(checks, woken) => s' := AddChecks(s, checks, woken);
    case Lock(t) =>
      CleanUpKeepsInv(s, t);
      s' := Proceed(CleanUp(s, t), t, nBatchSize);
    case RunCheck(t) => s' := s.(threads := s.threads[t := Ran(s.threads[t])]);
    case Spurious(t) => s' := s.(threads := s.threads[t := Waiting(true)]);
  }

  function CountProgress(labels: seq<Label>): nat {
    if labels == [] then 0
    else CountProgress(labels[..|labels| - 1]) + if IsProgress(labels[|labels| - 1]) then 1 else 0
  }

  function CountSpurious(labels: seq<Label>): nat {
    if labels == [] then 0
    else CountSpurious(labels[..|labels| - 1]) + if labels[|labels| - 1].Spurious? then 1 else 0
  }

  // A wait cannot go on forever: while the master is in it, the number of
  // steps any schedule can take is bounded by the work there was, plus two for
  // every spurious wakeup. With SomeoneCanMove, the wait returns.
  lemma {:induction false} WaitIsBounded(states: seq<State>, labels: seq<Label>, nBatchSize: nat)
    requires IsRun(states, labels, nBatchSize) && Inv(states[0])
    requires forall i :: 0 <= i < |labels| ==> InWait(states[i])
    ensures Inv(states[|labels|])
    ensures Measure(states[|labels|]) + CountProgress(labels) <= Measure(states[0]) + 2 * CountSpurious(labels)
    decreases |labels|
  {
    hide Inv;
    if labels != [] {
      var n := |labels| - 1;
      assert IsRun(states[..n + 1], labels[..n], nBatchSize) by {
        assert forall i :: 0 <= i < n ==> labels[..n][i] == labels[i];
      }
      WaitIsBounded(states[..n + 1], labels[..n], nBatchSize);
      var s, l, s' := states[n], labels[n], states[n + 1];
      assert Next(s, l, s', nBatchSize);
      NextKeepsInv(s, l, s', nBatchSize);
      match l {
        case Add(_, _) => assert false;
        case Lock(t) => LockDecreases(s, t, s', nBatchSize);
        case RunCheck(t) => RunDecreases(s, t);
        case Spurious(t) => SpuriousCosts(s, t);
      }
    }
  }
}
