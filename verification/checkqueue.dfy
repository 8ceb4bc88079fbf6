/**
 The script check queue: one master adds checks and waits for them, workers and the master
 take batches. Each critical section is one atomic step; the steps of all threads
 interleave in any order, and a sleeping thread may wake up without being signalled.
 */
module CheckQueue {

  /** Where a thread stands; thread 0 is the master. */
  datatype Thread =
    | Outside                                           // the master, not in Wait
    | Notifying(all: bool)                              // the master, in Add after releasing the lock
    | Entering                                          // before its first critical section of Loop
    | Asleep(signalled: bool)                           // waiting on its condition variable
    | Working(batch: seq<int>, done: nat, fOk: bool)    // outside the lock, running its batch

  /** What Wait returned, and whether all checks added since the previous Wait were good. */
  datatype Answer = Answer(value: bool, allGood: bool)

  datatype State = State(
    threads: seq<Thread>,
    queue: seq<int>,
    nIdle: int,
    nTotal: int,
    fAllOk: bool,
    nTodo: int,
    added: seq<int>,
    answers: seq<Answer>)

  datatype Action =
    | Add(checks: seq<int>)
    | Notify(who: int)
    | CallWait
    | Enter(i: int)
    | Execute(i: int)
    | Finish(i: int)
    | Wake(i: int)

  ghost predicate AllGood(ok: int -> bool, cs: seq<int>) {
    forall i :: 0 <= i < |cs| ==> ok(cs[i])
  }

  function Max(a: int, b: int): int { if a < b then b else a }
  function Min(a: int, b: int): int { if a < b then a else b }

  /** How many checks a thread takes: smaller batches as the queue drains, never fewer than one. */
  function BatchSize(nBatchSize: nat, size: nat, nTotal: int, nIdle: int): (n: int)
    requires nTotal >= 0 && nIdle >= 0
    ensures n >= 1 && (size > 0 ==> n <= size)
  {
    QuotientSmall(size, nTotal + nIdle + 1);
    Max(1, Min(nBatchSize, size / (nTotal + nIdle + 1)))
  }

  /** It is the largest number up to nBatchSize that leaves as many for every thread at work or idle, and at least one. */
  lemma BatchLargest(nBatchSize: nat, size: nat, nTotal: int, nIdle: int)
    requires nTotal >= 0 && nIdle >= 0
    ensures var n, share := BatchSize(nBatchSize, size, nTotal, nIdle), nTotal + nIdle + 1;
      (n > 1 ==> n <= nBatchSize && n * share <= size) && (n < nBatchSize ==> (n + 1) * share > size)
  {
    var share := nTotal + nIdle + 1;
    var q, n := size / share, BatchSize(nBatchSize, size, nTotal, nIdle);
    QuotientBounds(size, share);
    Times(n, q, share);
    Times(q, n, share);
  }

  lemma Times(a: int, b: int, c: int)
    requires c > 0
    ensures a <= b ==> a * c <= b * c && (a + 1) * c <= (b + 1) * c
  {
  }

  lemma QuotientBounds(a: nat, b: int)
    requires b >= 1
    ensures (a / b) * b <= a < (a / b + 1) * b
  {
    assert a == (a / b) * b + a % b;
  }

  lemma QuotientSmall(a: nat, b: int)
    requires b >= 1
    ensures 0 <= a / b <= a
  {
    assert (a / b) * b <= a;
  }

  /** The rest of a critical section once the lock is held: return, sleep, or take a batch. */
  ghost function Acquire(ok: int -> bool, nBatchSize: nat, s: State, i: nat): State
    requires i < |s.threads| && s.nTotal >= 0 && s.nIdle >= 0
  {
    if s.queue == [] then
      if i == 0 && s.nTodo == 0 then
        s.(nTotal := s.nTotal - 1, fAllOk := true, added := [],
           answers := s.answers + [Answer(s.fAllOk, AllGood(ok, s.added))],
           threads := s.threads[i := Outside])
      else
        s.(nIdle := s.nIdle + 1, threads := s.threads[i := Asleep(false)])
    else
      var n := BatchSize(nBatchSize, |s.queue|, s.nTotal, s.nIdle);
      var k := |s.queue| - n;
      s.(queue := s.queue[..k], threads := s.threads[i := Working(s.queue[k..], 0, s.fAllOk)])
  }

  /** The clean-up of the previous batch, at the start of the next critical section. */
  ghost function CleanUp(s: State, i: nat): State
    requires i < |s.threads| && s.threads[i].Working?
  {
    var t := s.threads[i];
    var nTodo := s.nTodo - |t.batch|;
    var wakeMaster := nTodo == 0 && i != 0 && s.threads[0].Asleep?;
    s.(fAllOk := s.fAllOk && t.fOk, nTodo := nTodo,
       threads := if wakeMaster then s.threads[0 := Asleep(true)] else s.threads)
  }

  predicate Waiting(s: State, i: int) { 0 < i < |s.threads| && s.threads[i] == Asleep(false) }

  ghost predicate Enabled(s: State, a: Action)
    requires |s.threads| > 0
  {
    match a
    case Add(checks) => s.threads[0].Outside?
    case Notify(who) => s.threads[0].Notifying? && (!s.threads[0].all && (exists j :: Waiting(s, j)) ==> Waiting(s, who))
    case CallWait => s.threads[0].Outside?
    case Enter(i) => 0 <= i < |s.threads| && s.threads[i].Entering?
    case Execute(i) => 0 <= i < |s.threads| && s.threads[i].Working? && s.threads[i].done < |s.threads[i].batch|
    case Finish(i) => 0 <= i < |s.threads| && s.threads[i].Working? && s.threads[i].done == |s.threads[i].batch|
    case Wake(i) => 0 <= i < |s.threads| && s.threads[i].Asleep?
  }

  ghost function Next(ok: int -> bool, nBatchSize: nat, s: State, a: Action): State
    requires |s.threads| > 0 && Enabled(s, a) && s.nTotal >= 0 && s.nIdle >= 0 && (a.Wake? ==> s.nIdle > 0)
  {
    match a
    case Add(checks) =>
      if checks == [] then s else
      s.(queue := s.queue + checks, nTodo := s.nTodo + |checks|, added := s.added + checks,
         threads := s.threads[0 := Notifying(|checks| != 1)])
    case Notify(who) =>
      var woken := if s.threads[0].all then seq(|s.threads|, j requires 0 <= j < |s.threads| => if Waiting(s, j) then Asleep(true) else s.threads[j])
                   else if Waiting(s, who) then s.threads[who := Asleep(true)] else s.threads;
      s.(threads := woken[0 := Outside])
    case CallWait => s.(threads := s.threads[0 := Entering])
    case Enter(i) => Acquire(ok, nBatchSize, s.(nTotal := s.nTotal + 1), i)
    case Execute(i) =>
      var t := s.threads[i];
      s.(threads := s.threads[i := Working(t.batch, t.done + 1, if t.fOk then ok(t.batch[t.done]) else false)])
    case Finish(i) => Acquire(ok, nBatchSize, CleanUp(s, i), i)
    case Wake(i) => Acquire(ok, nBatchSize, s.(nIdle := s.nIdle - 1), i)
  }

  // ----- the invariant

  function Sum(f: Thread -> int, ts: seq<Thread>): int {
    if ts == [] then 0 else Sum(f, ts[..|ts| - 1]) + f(ts[|ts| - 1])
  }

  lemma {:induction false} SumPut(f: Thread -> int, ts: seq<Thread>, i: nat, t: Thread)
    requires i < |ts|
    ensures Sum(f, ts[i := t]) == Sum(f, ts) - f(ts[i]) + f(t)
  {
    var n := |ts| - 1;
    if i == n {
      assert ts[i := t][..n] == ts[..n];
    } else {
      SumPut(f, ts[..n], i, t);
      assert ts[i := t][..n] == ts[..n][i := t];
    }
  }

  function InFlight(t: Thread): int { if t.Working? then |t.batch| else 0 }
  function IsAsleep(t: Thread): int { if t.Asleep? then 1 else 0 }
  function IsInside(t: Thread): int { if t.Asleep? || t.Working? then 1 else 0 }

  ghost predicate ThreadOk(t: Thread, i: int) {
    && (t.Outside? || t.Notifying? ==> i == 0)
    && (t.Working? ==> |t.batch| > 0 && t.done <= |t.batch|)
  }

  /** All checks this thread still answers for are good so far. */
  ghost predicate Clean(ok: int -> bool, t: Thread) {
    t.Working? && t.done <= |t.batch| ==> t.fOk && AllGood(ok, t.batch[t.done..])
  }

  ghost predicate Counters(s: State) {
    && s.nTodo == |s.queue| + Sum(InFlight, s.threads)
    && s.nIdle == Sum(IsAsleep, s.threads)
    && s.nTotal == Sum(IsInside, s.threads)
  }

  ghost predicate Verdict(ok: int -> bool, s: State) {
    AllGood(ok, s.added) <==>
      s.fAllOk && AllGood(ok, s.queue) && forall i :: 0 <= i < |s.threads| ==> Clean(ok, s.threads[i])
  }

  ghost predicate MasterSafe(s: State)
    requires |s.threads| > 0
  {
    s.threads[0].Asleep? ==> s.queue == [] && (!s.threads[0].signalled ==> s.nTodo > 0)
  }

  ghost predicate Inv(ok: int -> bool, s: State) {
    && |s.threads| > 0
    && (forall i :: 0 <= i < |s.threads| ==> ThreadOk(s.threads[i], i))
    && Counters(s)
    && Verdict(ok, s)
    && MasterSafe(s)
    && (forall i :: 0 <= i < |s.answers| ==> s.answers[i].value == s.answers[i].allGood)
  }

  lemma {:induction false} SumNonNegative(f: Thread -> int, ts: seq<Thread>)
    requires forall t :: f(t) >= 0
    ensures Sum(f, ts) >= 0
  {
    if ts != [] { SumNonNegative(f, ts[..|ts| - 1]); }
  }

  lemma SumBound(f: Thread -> int, ts: seq<Thread>, i: nat)
    requires (forall t :: f(t) >= 0) && i < |ts| && f(Entering) == 0
    ensures Sum(f, ts) >= f(ts[i])
  {
    SumPut(f, ts, i, Entering);
    SumNonNegative(f, ts[i := Entering]);
  }

  lemma CountersNonNegative(ok: int -> bool, s: State)
    requires Inv(ok, s)
    ensures s.nIdle >= 0 && s.nTotal >= 0 && s.nTodo >= |s.queue|
    ensures forall i :: 0 <= i < |s.threads| && s.threads[i].Asleep? ==> s.nIdle > 0
    ensures forall i :: 0 <= i < |s.threads| && s.threads[i].Working? ==> s.nTodo >= |s.queue| + |s.threads[i].batch|
  {
    SumNonNegative(InFlight, s.threads);
    SumNonNegative(IsAsleep, s.threads);
    SumNonNegative(IsInside, s.threads);
    forall i | 0 <= i < |s.threads| && s.threads[i].Asleep? ensures s.nIdle > 0 { SumBound(IsAsleep, s.threads, i); }
    forall i | 0 <= i < |s.threads| && s.threads[i].Working? ensures s.nTodo >= |s.queue| + |s.threads[i].batch| { SumBound(InFlight, s.threads, i); }
  }

  // ----- the lock is held by thread i, which has put its batch away

  ghost predicate Held(ok: int -> bool, s: State, i: nat) {
    && i < |s.threads| && s.threads[i] == Entering
    && (forall j :: 0 <= j < |s.threads| ==> ThreadOk(s.threads[j], j))
    && s.nTodo == |s.queue| + Sum(InFlight, s.threads)
    && s.nIdle == Sum(IsAsleep, s.threads)
    && s.nTotal == Sum(IsInside, s.threads) + 1
    && Verdict(ok, s)
    && MasterSafe(s)
    && (forall j :: 0 <= j < |s.answers| ==> s.answers[j].value == s.answers[j].allGood)
  }

  lemma SplitGood(ok: int -> bool, cs: seq<int>, k: nat)
    requires k <= |cs|
    ensures AllGood(ok, cs) <==> AllGood(ok, cs[..k]) && AllGood(ok, cs[k..])
  {
    if AllGood(ok, cs[..k]) && AllGood(ok, cs[k..]) {
      forall j | 0 <= j < |cs| ensures ok(cs[j]) { if j < k { assert cs[..k][j] == cs[j]; } else { assert cs[k..][j - k] == cs[j]; } }
    }
  }

  lemma TakeBatch(ok: int -> bool, nBatchSize: nat, s: State, i: nat)
    requires Held(ok, s, i) && s.queue != [] && s.nIdle >= 0 && s.nTotal >= 0
    ensures Inv(ok, Acquire(ok, nBatchSize, s, i))
  {
    var n := BatchSize(nBatchSize, |s.queue|, s.nTotal, s.nIdle);
    var k := |s.queue| - n;
    var t := Working(s.queue[k..], 0, s.fAllOk);
    SumPut(InFlight, s.threads, i, t);
    SumPut(IsAsleep, s.threads, i, t);
    SumPut(IsInside, s.threads, i, t);
    SplitGood(ok, s.queue, k);
    assert t.batch[0..] == t.batch;
    VerdictPut(ok, s, i, t, s.queue[..k]);
  }

  /** Checks move from the queue to thread i. */
  lemma VerdictPut(ok: int -> bool, s: State, i: nat, t: Thread, queue: seq<int>)
    requires i < |s.threads| && Verdict(ok, s) && Clean(ok, s.threads[i])
    requires s.fAllOk ==> (AllGood(ok, s.queue) <==> AllGood(ok, queue) && Clean(ok, t))
    ensures Verdict(ok, s.(queue := queue, threads := s.threads[i := t]))
  {
    var ts := s.threads[i := t];
    assert (forall j :: 0 <= j < |ts| ==> Clean(ok, ts[j])) <==> Clean(ok, t) && (forall j :: 0 <= j < |ts| ==> Clean(ok, s.threads[j])) by {
      if forall j :: 0 <= j < |ts| ==> Clean(ok, ts[j]) {
        assert Clean(ok, ts[i]);
        forall j | 0 <= j < |ts| ensures Clean(ok, s.threads[j]) { if j != i { assert Clean(ok, ts[j]); } }
      }
    }
  }

  lemma FallAsleep(ok: int -> bool, nBatchSize: nat, s: State, i: nat)
    requires Held(ok, s, i) && s.queue == [] && !(i == 0 && s.nTodo == 0) && s.nIdle >= 0 && s.nTotal >= 0
    ensures Inv(ok, Acquire(ok, nBatchSize, s, i))
  {
    var t := Asleep(false);
    SumPut(InFlight, s.threads, i, t);
    SumPut(IsAsleep, s.threads, i, t);
    SumPut(IsInside, s.threads, i, t);
    SumNonNegative(InFlight, s.threads);
    VerdictPut(ok, s, i, t, s.queue);
  }

  /** With nothing left to do no thread answers for any check, so fAllOk is the verdict. */
  lemma ReturnVerdict(ok: int -> bool, nBatchSize: nat, s: State)
    requires Held(ok, s, 0) && s.queue == [] && s.nTodo == 0 && s.nIdle >= 0 && s.nTotal >= 0
    ensures s.fAllOk == AllGood(ok, s.added)
    ensures Inv(ok, Acquire(ok, nBatchSize, s, 0))
  {
    forall j | 0 <= j < |s.threads| ensures !s.threads[j].Working? && Clean(ok, s.threads[j]) {
      SumBound(InFlight, s.threads, j);
      assert ThreadOk(s.threads[j], j);
    }
    SumPut(InFlight, s.threads, 0, Outside);
    SumPut(IsAsleep, s.threads, 0, Outside);
    SumPut(IsInside, s.threads, 0, Outside);
  }

  lemma AcquireKeeps(ok: int -> bool, nBatchSize: nat, s: State, i: nat)
    requires Held(ok, s, i) && s.nIdle >= 0 && s.nTotal >= 0
    ensures Inv(ok, Acquire(ok, nBatchSize, s, i))
  {
    hide Held, Inv;
    if s.queue != [] { TakeBatch(ok, nBatchSize, s, i); }
    else if i == 0 && s.nTodo == 0 { ReturnVerdict(ok, nBatchSize, s); }
    else { FallAsleep(ok, nBatchSize, s, i); }
  }

  /** What Acquire does depends on nothing thread i held before. */
  lemma AcquireForgets(ok: int -> bool, nBatchSize: nat, s: State, i: nat)
    requires i < |s.threads| && s.nTotal >= 0 && s.nIdle >= 0
    ensures Acquire(ok, nBatchSize, s, i) == Acquire(ok, nBatchSize, s.(threads := s.threads[i := Entering]), i)
  {
    var ts := s.threads[i := Entering];
    assert ts[i := Outside] == s.threads[i := Outside] && ts[i := Asleep(false)] == s.threads[i := Asleep(false)];
    if s.queue != [] {
      var t := Acquire(ok, nBatchSize, s, i).threads[i];
      assert ts[i := t] == s.threads[i := t];
    }
  }

  // ----- every step keeps the invariant

  lemma EnterKeeps(ok: int -> bool, nBatchSize: nat, s: State, i: nat)
    requires Inv(ok, s) && Enabled(s, Enter(i)) && s.nTotal >= 0 && s.nIdle >= 0
    ensures Inv(ok, Next(ok, nBatchSize, s, Enter(i)))
  {
    AcquireKeeps(ok, nBatchSize, s.(nTotal := s.nTotal + 1), i);
  }

  lemma WakeKeeps(ok: int -> bool, nBatchSize: nat, s: State, i: nat)
    requires Inv(ok, s) && Enabled(s, Wake(i)) && s.nTotal >= 0 && s.nIdle > 0
    ensures Inv(ok, Next(ok, nBatchSize, s, Wake(i)))
  {
    hide Inv, Held, Acquire;
    var u := s.(nIdle := s.nIdle - 1);
    AcquireForgets(ok, nBatchSize, u, i);
    WokenHeld(ok, s, i);
    AcquireKeeps(ok, nBatchSize, u.(threads := u.threads[i := Entering]), i);
  }

  /** A thread that has woken up is as if it had just entered. */
  lemma WokenHeld(ok: int -> bool, s: State, i: nat)
    requires Inv(ok, s) && Enabled(s, Wake(i)) && s.nTotal >= 0 && s.nIdle > 0
    ensures Held(ok, s.(nIdle := s.nIdle - 1, threads := s.threads[i := Entering]), i)
  {
    hide Sum;
    var u := s.(nIdle := s.nIdle - 1);
    SumPut(InFlight, s.threads, i, Entering);
    SumPut(IsAsleep, s.threads, i, Entering);
    SumPut(IsInside, s.threads, i, Entering);
    VerdictPut(ok, u, i, Entering, u.queue);
  }

  lemma ExecuteKeeps(ok: int -> bool, nBatchSize: nat, s: State, i: nat)
    requires Inv(ok, s) && Enabled(s, Execute(i)) && s.nTotal >= 0 && s.nIdle >= 0
    ensures Inv(ok, Next(ok, nBatchSize, s, Execute(i)))
  {
    var t := s.threads[i];
    var u := Working(t.batch, t.done + 1, if t.fOk then ok(t.batch[t.done]) else false);
    SumPut(InFlight, s.threads, i, u);
    SumPut(IsAsleep, s.threads, i, u);
    SumPut(IsInside, s.threads, i, u);
    SplitGood(ok, t.batch[t.done..], 1);
    assert t.batch[t.done..][1..] == t.batch[t.done + 1..] && t.batch[t.done..][..1] == [t.batch[t.done]];
    assert AllGood(ok, [t.batch[t.done]]) <==> ok(t.batch[t.done]) by { assert [t.batch[t.done]][0] == t.batch[t.done]; }
    assert Clean(ok, t) <==> Clean(ok, u);
    SwapClean(ok, s, i, u);
  }

  lemma SwapClean(ok: int -> bool, s: State, i: nat, u: Thread)
    requires i < |s.threads| && Verdict(ok, s) && (Clean(ok, s.threads[i]) <==> Clean(ok, u))
    ensures Verdict(ok, s.(threads := s.threads[i := u]))
  {
    var ts := s.threads[i := u];
    if forall j :: 0 <= j < |ts| ==> Clean(ok, ts[j]) {
      assert Clean(ok, ts[i]);
      forall j | 0 <= j < |ts| ensures Clean(ok, s.threads[j]) { if j != i { assert Clean(ok, ts[j]); } }
    }
  }

  /** The result of a finished batch becomes part of fAllOk. */
  lemma CleanUpVerdict(ok: int -> bool, s: State, i: nat)
    requires i < |s.threads| && Verdict(ok, s) && s.threads[i].Working? && s.threads[i].done == |s.threads[i].batch|
    ensures Verdict(ok, s.(fAllOk := s.fAllOk && s.threads[i].fOk, threads := s.threads[i := Entering]))
  {
    var ts := s.threads[i := Entering];
    assert Clean(ok, s.threads[i]) <==> s.threads[i].fOk;
    if s.threads[i].fOk && forall j :: 0 <= j < |ts| ==> Clean(ok, ts[j]) {
      forall j | 0 <= j < |ts| ensures Clean(ok, s.threads[j]) { if j != i { assert Clean(ok, ts[j]); } }
    }
  }

  /** The state once thread i has handed in its result but nobody was notified yet. */
  ghost function HandIn(s: State, i: nat): State
    requires i < |s.threads| && s.threads[i].Working?
  {
    s.(fAllOk := s.fAllOk && s.threads[i].fOk, nTodo := s.nTodo - |s.threads[i].batch|, threads := s.threads[i := Entering])
  }

  ghost predicate HeldQuietly(ok: int -> bool, s: State, i: nat) {
    && i < |s.threads| && s.threads[i] == Entering
    && (forall j :: 0 <= j < |s.threads| ==> ThreadOk(s.threads[j], j))
    && s.nTodo == |s.queue| + Sum(InFlight, s.threads)
    && s.nIdle == Sum(IsAsleep, s.threads)
    && s.nTotal == Sum(IsInside, s.threads) + 1
    && Verdict(ok, s)
    && (s.threads[0].Asleep? ==> s.queue == [])
    && (forall j :: 0 <= j < |s.answers| ==> s.answers[j].value == s.answers[j].allGood)
  }

  lemma HandInHeld(ok: int -> bool, s: State, i: nat)
    requires Inv(ok, s) && Enabled(s, Finish(i))
    ensures HeldQuietly(ok, HandIn(s, i), i) && HandIn(s, i).nTodo >= 0
  {
    hide Verdict, Sum;
    CleanUpVerdict(ok, s, i);
    SumPut(InFlight, s.threads, i, Entering);
    SumPut(IsAsleep, s.threads, i, Entering);
    SumPut(IsInside, s.threads, i, Entering);
    SumNonNegative(InFlight, s.threads[i := Entering]);
    VerdictOfTodo(ok, s.(fAllOk := s.fAllOk && s.threads[i].fOk, threads := s.threads[i := Entering]), HandIn(s, i).nTodo);
  }

  lemma VerdictOfTodo(ok: int -> bool, s: State, nTodo: int)
    requires Verdict(ok, s)
    ensures Verdict(ok, s.(nTodo := nTodo))
  {
  }

  lemma SignalMaster(ok: int -> bool, v: State, i: nat)
    requires HeldQuietly(ok, v, i) && i != 0 && v.threads[0].Asleep?
    ensures Held(ok, v.(threads := v.threads[0 := Asleep(true)]), i)
  {
    SumPut(InFlight, v.threads, 0, Asleep(true));
    SumPut(IsAsleep, v.threads, 0, Asleep(true));
    SumPut(IsInside, v.threads, 0, Asleep(true));
    SwapClean(ok, v, 0, Asleep(true));
  }

  lemma FinishKeeps(ok: int -> bool, nBatchSize: nat, s: State, i: nat)
    requires Inv(ok, s) && Enabled(s, Finish(i)) && s.nTotal >= 0 && s.nIdle >= 0
    ensures Inv(ok, Next(ok, nBatchSize, s, Finish(i)))
  {
    hide Verdict, Sum, Acquire, Inv;
    var u, v := CleanUp(s, i), HandIn(s, i);
    AcquireForgets(ok, nBatchSize, u, i);
    HandInHeld(ok, s, i);
    if v.nTodo == 0 && i != 0 && s.threads[0].Asleep? {
      SignalMaster(ok, v, i);
      assert u.threads[i := Entering] == v.threads[0 := Asleep(true)];
      AcquireKeeps(ok, nBatchSize, v.(threads := v.threads[0 := Asleep(true)]), i);
    } else {
      AcquireKeeps(ok, nBatchSize, v, i);
    }
  }

  lemma AddKeeps(ok: int -> bool, nBatchSize: nat, s: State, checks: seq<int>)
    requires Inv(ok, s) && Enabled(s, Add(checks)) && s.nTotal >= 0 && s.nIdle >= 0
    ensures Inv(ok, Next(ok, nBatchSize, s, Add(checks)))
  {
    if checks != [] {
      var t := Notifying(|checks| != 1);
      SumPut(InFlight, s.threads, 0, t);
      SumPut(IsAsleep, s.threads, 0, t);
      SumPut(IsInside, s.threads, 0, t);
      SplitGood(ok, s.queue + checks, |s.queue|);
      SplitGood(ok, s.added + checks, |s.added|);
      assert (s.queue + checks)[..|s.queue|] == s.queue && (s.queue + checks)[|s.queue|..] == checks;
      assert (s.added + checks)[..|s.added|] == s.added && (s.added + checks)[|s.added|..] == checks;
      SwapClean(ok, s, 0, t);
    }
  }

  lemma CallWaitKeeps(ok: int -> bool, nBatchSize: nat, s: State)
    requires Inv(ok, s) && Enabled(s, CallWait) && s.nTotal >= 0 && s.nIdle >= 0
    ensures Inv(ok, Next(ok, nBatchSize, s, CallWait))
  {
    SumPut(InFlight, s.threads, 0, Entering);
    SumPut(IsAsleep, s.threads, 0, Entering);
    SumPut(IsInside, s.threads, 0, Entering);
    SwapClean(ok, s, 0, Entering);
  }

  /** Signalling sleeping workers changes nothing but their flags. */
  ghost predicate OnlySignals(ts: seq<Thread>, us: seq<Thread>) {
    |us| == |ts| && forall j :: 0 <= j < |ts| ==> us[j] == ts[j] || (ts[j].Asleep? && us[j] == Asleep(true) && j > 0)
  }

  lemma {:induction false} SumSignals(f: Thread -> int, ts: seq<Thread>, us: seq<Thread>)
    requires OnlySignals(ts, us) && f(Asleep(false)) == f(Asleep(true))
    ensures Sum(f, us) == Sum(f, ts)
  {
    if ts != [] {
      var n := |ts| - 1;
      SumSignals(f, ts[..n], us[..n]);
    }
  }

  /** Apart from the master's own state, a notification only signals. */
  lemma NotifySignals(ok: int -> bool, nBatchSize: nat, s: State, who: int)
    requires Inv(ok, s) && Enabled(s, Notify(who)) && s.nTotal >= 0 && s.nIdle >= 0
    ensures var r := Next(ok, nBatchSize, s, Notify(who)); var us := r.threads[0 := s.threads[0]];
      && |r.threads| == |s.threads| && r == s.(threads := r.threads) && r.threads[0] == Outside
      && OnlySignals(s.threads, us) && us[0 := Outside] == r.threads
  {
    hide Counters, Verdict, MasterSafe;
  }

  lemma NotifySum(f: Thread -> int, ts: seq<Thread>, us: seq<Thread>, rs: seq<Thread>)
    requires OnlySignals(ts, us) && |ts| > 0 && rs == us[0 := Outside] && us[0] == ts[0] && f(Asleep(false)) == f(Asleep(true))
    ensures Sum(f, rs) == Sum(f, ts) - f(ts[0]) + f(Outside)
  {
    hide Sum;
    SumSignals(f, ts, us);
    SumPut(f, us, 0, Outside);
  }

  lemma NotifyKeeps(ok: int -> bool, nBatchSize: nat, s: State, who: int)
    requires Inv(ok, s) && Enabled(s, Notify(who)) && s.nTotal >= 0 && s.nIdle >= 0
    ensures Inv(ok, Next(ok, nBatchSize, s, Notify(who)))
  {
    hide Sum, Next;
    NotifySignals(ok, nBatchSize, s, who);
    var r := Next(ok, nBatchSize, s, Notify(who));
    var us := r.threads[0 := s.threads[0]];
    NotifySum(InFlight, s.threads, us, r.threads);
    NotifySum(IsAsleep, s.threads, us, r.threads);
    NotifySum(IsInside, s.threads, us, r.threads);
    assert forall j :: 0 <= j < |us| ==> r.threads[j] == if j == 0 then Outside else us[j];
    assert forall j :: 0 <= j < |us| ==> (Clean(ok, r.threads[j]) <==> Clean(ok, s.threads[j]));
  }

  lemma StepKeeps(ok: int -> bool, nBatchSize: nat, s: State, a: Action)
    requires Inv(ok, s) && Enabled(s, a)
    ensures s.nTotal >= 0 && s.nIdle >= 0 && (a.Wake? ==> s.nIdle > 0)
    ensures Inv(ok, Next(ok, nBatchSize, s, a))
  {
    CountersNonNegative(ok, s);
    hide Inv;
    match a
    case Add(checks) => AddKeeps(ok, nBatchSize, s, checks);
    case Notify(who) => NotifyKeeps(ok, nBatchSize, s, who);
    case CallWait => CallWaitKeeps(ok, nBatchSize, s);
    case Enter(i) => EnterKeeps(ok, nBatchSize, s, i);
    case Execute(i) => ExecuteKeeps(ok, nBatchSize, s, i);
    case Finish(i) => FinishKeeps(ok, nBatchSize, s, i);
    case Wake(i) => WakeKeeps(ok, nBatchSize, s, i);
  }

  // ----- whole runs

  ghost function Init(workers: nat): State {
    State([Outside] + seq(workers, i => Entering), [], 0, 0, true, 0, [], [])
  }

  lemma {:induction false} SumZero(f: Thread -> int, ts: seq<Thread>)
    requires forall i :: 0 <= i < |ts| ==> f(ts[i]) == 0
    ensures Sum(f, ts) == 0
  {
    if ts != [] { SumZero(f, ts[..|ts| - 1]); }
  }

  lemma InitOk(ok: int -> bool, workers: nat)
    ensures Inv(ok, Init(workers))
  {
    var ts := Init(workers).threads;
    SumZero(InFlight, ts);
    SumZero(IsAsleep, ts);
    SumZero(IsInside, ts);
  }

  /** s is reached from the start by some sequence of enabled steps. */
  ghost predicate Reaches(ok: int -> bool, nBatchSize: nat, workers: nat, trace: seq<Action>, s: State)
    decreases |trace|
  {
    if trace == [] then s == Init(workers) else
    var a := trace[|trace| - 1];
    exists r :: Reaches(ok, nBatchSize, workers, trace[..|trace| - 1], r)
      && |r.threads| > 0 && Enabled(r, a) && r.nTotal >= 0 && r.nIdle >= 0 && (a.Wake? ==> r.nIdle > 0)
      && s == Next(ok, nBatchSize, r, a)
  }

  /** Every interleaving keeps the invariant. */
  lemma {:induction false} ReachableOk(ok: int -> bool, nBatchSize: nat, workers: nat, trace: seq<Action>, s: State)
    requires Reaches(ok, nBatchSize, workers, trace, s)
    ensures Inv(ok, s)
    decreases |trace|
  {
    if trace == [] {
      InitOk(ok, workers);
    } else {
      var a := trace[|trace| - 1];
      var r :| Reaches(ok, nBatchSize, workers, trace[..|trace| - 1], r)
        && |r.threads| > 0 && Enabled(r, a) && r.nTotal >= 0 && r.nIdle >= 0 && (a.Wake? ==> r.nIdle > 0)
        && s == Next(ok, nBatchSize, r, a);
      ReachableOk(ok, nBatchSize, workers, trace[..|trace| - 1], r);
      StepKeeps(ok, nBatchSize, r, a);
    }
  }

  /** A step that has what the operations of Next need. */
  ghost predicate CanStep(s: State, a: Action) {
    |s.threads| > 0 && Enabled(s, a) && s.nTotal >= 0 && s.nIdle >= 0 && (a.Wake? ==> s.nIdle > 0)
  }

  /** An execution: the states passed through and the actions between them. */
  ghost predicate Execution(ok: int -> bool, nBatchSize: nat, workers: nat, run: seq<State>, trace: seq<Action>) {
    && |run| == |trace| + 1 && run[0] == Init(workers)
    && forall k :: 0 <= k < |trace| ==> CanStep(run[k], trace[k]) && run[k + 1] == Next(ok, nBatchSize, run[k], trace[k])
  }

  lemma {:induction false} ExecutionReaches(ok: int -> bool, nBatchSize: nat, workers: nat, run: seq<State>, trace: seq<Action>, k: nat)
    requires Execution(ok, nBatchSize, workers, run, trace) && k <= |trace|
    ensures Reaches(ok, nBatchSize, workers, trace[..k], run[k])
  {
    hide Next, Enabled;
    if k > 0 {
      ExecutionReaches(ok, nBatchSize, workers, run, trace, k - 1);
      assert trace[..k][..k - 1] == trace[..k - 1];
      assert CanStep(run[k - 1], trace[k - 1]);
    }
  }

  ghost predicate InWait(s: State)
    requires |s.threads| > 0
  {
    s.threads[0].Entering? || s.threads[0].Asleep? || s.threads[0].Working?
  }

  /** Step k of an execution is one in which Wait returns. */
  ghost predicate Returns(run: seq<State>, k: int) {
    && 0 <= k < |run| - 1 && |run[k].threads| > 0 && |run[k + 1].threads| > 0
    && InWait(run[k]) && run[k + 1].threads[0].Outside?
  }

  /** The checks handed to Add before step k and after the last return of Wait. */
  ghost function Posted(run: seq<State>, trace: seq<Action>, k: nat): seq<int>
    requires k <= |trace|
  {
    if k == 0 || Returns(run, k - 1) then []
    else Posted(run, trace, k - 1) + if trace[k - 1].Add? then trace[k - 1].checks else []
  }

  /** One step records the checks it was given, or answers for all recorded ones and starts afresh. */
  lemma StepRecords(ok: int -> bool, nBatchSize: nat, s: State, a: Action)
    requires CanStep(s, a) && Inv(ok, s)
    ensures var t := Next(ok, nBatchSize, s, a); var good := AllGood(ok, s.added);
      && |t.threads| == |s.threads|
      && if InWait(s) && t.threads[0].Outside?
         then t.added == [] && t.answers == s.answers + [Answer(good, good)]
         else t.added == s.added + (if a.Add? then a.checks else []) && t.answers == s.answers
  {
    StepKeeps(ok, nBatchSize, s, a);
    hide AllGood, Verdict, Counters, BatchSize, MasterSafe;
    var t := Next(ok, nBatchSize, s, a);
    if |t.answers| == |s.answers| + 1 { assert t.answers[|s.answers|].value == t.answers[|s.answers|].allGood; }
  }

  lemma {:induction false} PostedIsAdded(ok: int -> bool, nBatchSize: nat, workers: nat, run: seq<State>, trace: seq<Action>, k: nat)
    requires Execution(ok, nBatchSize, workers, run, trace) && k <= |trace|
    ensures Inv(ok, run[k]) && run[k].added == Posted(run, trace, k)
  {
    hide Next, Enabled, Inv, Reaches;
    ExecutionReaches(ok, nBatchSize, workers, run, trace, k);
    ReachableOk(ok, nBatchSize, workers, trace[..k], run[k]);
    if k > 0 {
      PostedIsAdded(ok, nBatchSize, workers, run, trace, k - 1);
      assert CanStep(run[k - 1], trace[k - 1]);
      StepRecords(ok, nBatchSize, run[k - 1], trace[k - 1]);
    }
  }

  /**
   In every execution each return of Wait gives one answer, which is the conjunction of exactly
   the checks handed to Add since the return before; no other step gives an answer.
   */
  lemma WaitReturnsConjunction(ok: int -> bool, nBatchSize: nat, workers: nat, run: seq<State>, trace: seq<Action>, k: nat)
    requires Execution(ok, nBatchSize, workers, run, trace) && k < |trace|
    ensures Returns(run, k) ==>
      && |run[k + 1].answers| == |run[k].answers| + 1 && run[k + 1].answers[..|run[k].answers|] == run[k].answers
      && run[k + 1].answers[|run[k].answers|].value == AllGood(ok, Posted(run, trace, k))
    ensures !Returns(run, k) ==> run[k + 1].answers == run[k].answers
    ensures run[k].nTodo == |run[k].queue| + Sum(InFlight, run[k].threads)
  {
    hide Next, Enabled, AllGood, Verdict;
    PostedIsAdded(ok, nBatchSize, workers, run, trace, k);
    assert CanStep(run[k], trace[k]);
    StepRecords(ok, nBatchSize, run[k], trace[k]);
  }

  /** CallWait brings the master into Wait, and only the master's own steps take it out or in. */
  lemma WaitBegins(ok: int -> bool, nBatchSize: nat, s: State, a: Action)
    requires CanStep(s, a)
    ensures var t := Next(ok, nBatchSize, s, a);
      && |t.threads| == |s.threads|
      && (a.CallWait? ==> InWait(t))
      && (InWait(s) != InWait(t) ==> a == CallWait || a == Enter(0) || a == Finish(0) || a == Wake(0))
      && (InWait(s) && !InWait(t) ==> t.threads[0].Outside? && t.queue == [] && t.nTodo == 0)
  {
    hide BatchSize, AllGood;
  }

  /** After Add a sleeping worker is signalled, and all of them if more than one check was added. */
  lemma AddWakes(ok: int -> bool, nBatchSize: nat, s: State, checks: seq<int>, who: int, j: int)
    requires CanStep(s, Add(checks)) && checks != [] && Waiting(s, j)
    requires CanStep(Next(ok, nBatchSize, s, Add(checks)), Notify(who))
    ensures var t := Next(ok, nBatchSize, Next(ok, nBatchSize, s, Add(checks)), Notify(who));
      && |t.threads| == |s.threads| && t.threads[0].Outside?
      && (|checks| > 1 ==> t.threads[j] == Asleep(true))
      && exists i :: 0 < i < |s.threads| && s.threads[i] == Asleep(false) && t.threads[i] == Asleep(true)
  {
    var u := Next(ok, nBatchSize, s, Add(checks));
    assert Waiting(u, j);
    var i := if |checks| > 1 then j else who;
    assert Waiting(u, i);
    assert Next(ok, nBatchSize, u, Notify(who)).threads[i] == Asleep(true);
  }

  /** A step some thread takes without having to be woken by chance. */
  ghost predicate Unprompted(s: State, a: Action)
    requires |s.threads| > 0
  {
    Enabled(s, a) && (a.Enter? || a.Execute? || a.Finish? || (a.Wake? && s.threads[a.i].signalled))
  }

  lemma {:induction false} SomeoneWorks(ts: seq<Thread>) returns (i: nat)
    requires Sum(InFlight, ts) > 0
    ensures i < |ts| && ts[i].Working?
  {
    var n := |ts| - 1;
    if ts[n].Working? { i := n; } else { i := SomeoneWorks(ts[..n]); }
  }

  lemma Progress(ok: int -> bool, s: State)
    requires Inv(ok, s) && InWait(s)
    ensures exists a :: Unprompted(s, a)
  {
    match s.threads[0]
    case Entering => assert Unprompted(s, Enter(0));
    case Working(batch, done, _) =>
      assert ThreadOk(s.threads[0], 0);
      assert Unprompted(s, if done < |batch| then Execute(0) else Finish(0));
    case Asleep(signalled) =>
      if signalled {
        assert Unprompted(s, Wake(0));
      } else {
        var i := SomeoneWorks(s.threads);
        assert ThreadOk(s.threads[i], i);
        assert Unprompted(s, if s.threads[i].done < |s.threads[i].batch| then Execute(i) else Finish(i));
      }
  }

  /** No wake-up is lost: while the master is in Wait some thread can go on, and with nothing to do the master is signalled. */
  lemma NoLostWakeup(ok: int -> bool, nBatchSize: nat, workers: nat, trace: seq<Action>, s: State)
    requires Reaches(ok, nBatchSize, workers, trace, s)
    ensures |s.threads| > 0 && !(s.threads[0] == Asleep(false) && s.nTodo == 0)
    ensures InWait(s) ==> exists a :: Unprompted(s, a)
  {
    ReachableOk(ok, nBatchSize, workers, trace, s);
    if InWait(s) { Progress(ok, s); }
  }

  // ----- Wait comes to an end

  function Weight(t: Thread): int {
    match t
    case Entering => 2
    case Asleep(signalled) => if signalled then 1 else 0
    case Working(batch, done, _) => 3 + Max(0, |batch| - done)
    case _ => 0
  }

  ghost function Measure(s: State): (m: int)
    ensures m >= 0
  {
    SumNonNegative(Weight, s.threads);
    5 * |s.queue| + Sum(Weight, s.threads)
  }

  lemma AcquireMeasure(ok: int -> bool, nBatchSize: nat, s: State, i: nat)
    requires i < |s.threads| && s.nTotal >= 0 && s.nIdle >= 0
    ensures var t := Acquire(ok, nBatchSize, s, i);
      Measure(t) <= Measure(s) - Weight(s.threads[i])
  {
    SumPut(Weight, s.threads, i, Acquire(ok, nBatchSize, s, i).threads[i]);
  }

  /** Outside Add and Notify every step that is not a chance wake-up makes progress, and a chance wake-up undoes none. */
  lemma StepMeasure(ok: int -> bool, nBatchSize: nat, s: State, a: Action)
    requires Inv(ok, s) && Enabled(s, a) && s.nTotal >= 0 && s.nIdle >= 0 && (a.Wake? ==> s.nIdle > 0)
    requires a.Enter? || a.Execute? || a.Finish? || a.Wake?
    ensures Measure(Next(ok, nBatchSize, s, a)) <= Measure(s)
    ensures Unprompted(s, a) ==> Measure(Next(ok, nBatchSize, s, a)) < Measure(s)
  {
    hide Verdict, Counters, MasterSafe, Acquire;
    assert ThreadOk(s.threads[a.i], a.i);
    match a
    case Enter(i) => AcquireMeasure(ok, nBatchSize, s.(nTotal := s.nTotal + 1), i);
    case Execute(i) => SumPut(Weight, s.threads, i, Next(ok, nBatchSize, s, a).threads[i]);
    case Finish(i) =>
      AcquireMeasure(ok, nBatchSize, CleanUp(s, i), i);
      SumPut(Weight, s.threads, 0, Asleep(true));
    case Wake(i) => AcquireMeasure(ok, nBatchSize, s.(nIdle := s.nIdle - 1), i);
  }

  /** t follows from s by steps of any kind, each taken while the master is in Wait; useful of them are unprompted. */
  ghost predicate Proceeds(ok: int -> bool, nBatchSize: nat, s: State, steps: seq<Action>, useful: nat, t: State)
    decreases |steps|
  {
    if steps == [] then s == t && useful == 0 else
    var a := steps[0];
    && |s.threads| > 0 && InWait(s) && Enabled(s, a) && s.nTotal >= 0 && s.nIdle >= 0 && (a.Wake? ==> s.nIdle > 0)
    && (Unprompted(s, a) ==> useful > 0)
    && Proceeds(ok, nBatchSize, Next(ok, nBatchSize, s, a), steps[1..], if Unprompted(s, a) then useful - 1 else useful, t)
  }

  lemma {:induction false} ProceedsBounded(ok: int -> bool, nBatchSize: nat, s: State, steps: seq<Action>, useful: nat, t: State)
    requires Inv(ok, s) && Proceeds(ok, nBatchSize, s, steps, useful, t)
    ensures Inv(ok, t) && useful <= Measure(s)
    decreases |steps|
  {
    hide Inv, Measure, Next;
    if steps != [] {
      var a := steps[0];
      StepKeeps(ok, nBatchSize, s, a);
      StepMeasure(ok, nBatchSize, s, a);
      ProceedsBounded(ok, nBatchSize, Next(ok, nBatchSize, s, a), steps[1..], if Unprompted(s, a) then useful - 1 else useful, t);
    }
  }

  /**
   However the threads are scheduled and however often they wake up by chance, a call of Wait sees
   a bounded number of unprompted steps, and as long as it lasts one is possible: a schedule that
   goes on taking them brings the master out of Wait.
   */
  lemma WaitTerminates(ok: int -> bool, nBatchSize: nat, workers: nat, trace: seq<Action>, s: State, steps: seq<Action>, useful: nat, t: State)
    requires Reaches(ok, nBatchSize, workers, trace, s) && Proceeds(ok, nBatchSize, s, steps, useful, t)
    ensures useful <= Measure(s)
    ensures |t.threads| > 0 && (InWait(t) ==> exists a :: Unprompted(t, a))
  {
    hide Measure;
    ReachableOk(ok, nBatchSize, workers, trace, s);
    ProceedsBounded(ok, nBatchSize, s, steps, useful, t);
    if InWait(t) { Progress(ok, t); }
  }
}
