/**
 The verification queue shared by one master and any number of workers. A thread holds the
 mutex for one critical section at a time, so the protocol is a state machine whose steps are
 critical sections, local work outside the lock, and wake-ups, notified or spurious.
 */
module CheckQueue {
  import opened Basics
  import Numbers

  /** A check and what running it will answer. */
  datatype Check = Check(id: nat, good: bool)

  predicate AllGood(s: seq<Check>) { forall i :: 0 <= i < |s| ==> s[i].good }

  // ---------- the shared state, one critical section at a time ----------

  datatype Queue = Queue(items: seq<Check>, nWorkers: int, nIdle: int, nTodo: int, allOk: bool, quit: bool, batchSize: nat)

  /** How a critical section ends. */
  datatype Outcome = Return(ok: bool) | Sleep | Take(batch: seq<Check>, ok: bool)

  function Reverse(s: seq<Check>): seq<Check> {
    seq(|s|, i requires 0 <= i < |s| => s[|s| - 1 - i])
  }

  lemma {:induction false} ReverseSame(s: seq<Check>)
    ensures multiset(Reverse(s)) == multiset(s)
  {
    if s != [] {
      var last, rest := s[|s| - 1], s[..|s| - 1];
      ReverseSame(rest);
      assert s == rest + [last];
      assert Reverse(s) == [last] + Reverse(rest);
    }
  }

  /** How many checks a thread takes at once. */
  function BatchSize(q: Queue): (n: nat)
    requires q.items != [] && q.nWorkers >= 0 && q.nIdle >= 0
    ensures 1 <= n <= |q.items| && n <= Max(1, q.batchSize)
  {
    Max(1, Min(q.batchSize, |q.items| / (q.nWorkers + q.nIdle + 1)))
  }

  /** Entering the lock for the first time. */
  function Register(q: Queue): Queue { q.(nWorkers := q.nWorkers + 1) }

  /** Reporting a finished batch of `n` checks. */
  function Report(q: Queue, n: nat, ok: bool): Queue { q.(allOk := q.allOk && ok, nTodo := q.nTodo - n) }

  /** The rest of the critical section: return, fall asleep, or take a batch from the back. */
  function Decide(q: Queue, master: bool): (Queue, Outcome)
    requires q.nWorkers >= 0 && q.nIdle >= 0
  {
    if q.items == [] then
      if (master || q.quit) && q.nTodo == 0
      then (q.(nWorkers := q.nWorkers - 1, allOk := if master then true else q.allOk), Return(q.allOk))
      else (q.(nIdle := q.nIdle + 1), Sleep)
    else
      var n := BatchSize(q);
      var k := |q.items| - n;
      (q.(items := q.items[..k]), Take(Reverse(q.items[k..]), q.allOk))
  }

  /** Waking up inside the lock. */
  function Awaken(q: Queue): Queue { q.(nIdle := q.nIdle - 1) }

  function Append(q: Queue, checks: seq<Check>): Queue {
    q.(items := q.items + checks, nTodo := q.nTodo + |checks|)
  }

  // ---------- threads ----------

  /** Where a thread is; thread 0 is the master, which is `Outside` while it is not waiting. */
  datatype Pc =
    | Outside
    | Entering
    | Asleep(notified: bool)
    | Busy(batch: seq<Check>, ok: bool)
    | Finished(batch: seq<Check>, ok: bool)

  /**
   The whole system. `added` lists the checks added since the last wait ended, `done` those of
   them that were reported, `answers` what each wait returned and for which checks.
   */
  datatype Sys = Sys(q: Queue, threads: seq<Pc>, added: seq<Check>, done: seq<Check>, answers: seq<(bool, seq<Check>)>)

  function Load(p: Pc): seq<Check> { if p.Busy? || p.Finished? then p.batch else [] }

  function Flying(ts: seq<Pc>): multiset<Check> {
    if ts == [] then multiset{} else Flying(ts[..|ts| - 1]) + multiset(Load(ts[|ts| - 1]))
  }

  function Count(ts: seq<Pc>, f: Pc -> bool): nat {
    if ts == [] then 0 else Count(ts[..|ts| - 1], f) + if f(ts[|ts| - 1]) then 1 else 0
  }

  function IsAsleep(): Pc -> bool { (p: Pc) => p.Asleep? }
  function IsInside(): Pc -> bool { (p: Pc) => p.Asleep? || p.Busy? || p.Finished? }

  lemma {:induction false} FlyingUpdate(ts: seq<Pc>, t: nat, p: Pc)
    requires t < |ts|
    ensures Flying(ts[t := p]) + multiset(Load(ts[t])) == Flying(ts) + multiset(Load(p))
  {
    hide Load;
    var n := |ts| - 1;
    var us := ts[t := p];
    if t == n {
      assert us[..n] == ts[..n];
      Commute(Flying(ts[..n]), multiset(Load(p)), multiset(Load(ts[n])));
    } else {
      FlyingUpdate(ts[..n], t, p);
      assert us[..n] == ts[..n][t := p];
      Shift(Flying(us[..n]), Flying(ts[..n]), multiset(Load(ts[n])), multiset(Load(ts[t])), multiset(Load(p)));
    }
  }

  lemma Commute(a: multiset<Check>, x: multiset<Check>, y: multiset<Check>)
    ensures a + x + y == a + y + x
  {
  }

  lemma Shift(a: multiset<Check>, b: multiset<Check>, c: multiset<Check>, x: multiset<Check>, y: multiset<Check>)
    requires a + x == b + y
    ensures (a + c) + x == (b + c) + y
  {
    assert (a + c) + x == (a + x) + c && (b + c) + y == (b + y) + c;
  }

  lemma {:induction false} CountUpdate(ts: seq<Pc>, t: nat, p: Pc, f: Pc -> bool)
    requires t < |ts|
    ensures Count(ts[t := p], f) + (if f(ts[t]) then 1 else 0) == Count(ts, f) + (if f(p) then 1 else 0)
  {
    var n := |ts| - 1;
    if t == n {
      assert ts[t := p][..n] == ts[..n];
    } else {
      CountUpdate(ts[..n], t, p, f);
      assert ts[t := p][..n] == ts[..n][t := p];
    }
  }

  lemma {:induction false} FlyingSome(ts: seq<Pc>) returns (t: nat)
    requires |Flying(ts)| > 0
    ensures t < |ts| && Load(ts[t]) != []
  {
    var n := |ts| - 1;
    if Load(ts[n]) != [] {
      t := n;
    } else {
      t := FlyingSome(ts[..n]);
    }
  }

  // ---------- the steps ----------

  /** Thread `t` ends its critical section with outcome `o`; only the master's return is an answer. */
  function Settle(s: Sys, t: nat, q: Queue): Sys
    requires t < |s.threads| && q.nWorkers >= 0 && q.nIdle >= 0
  {
    var (q', o) := Decide(q, t == 0);
    match o
    case Return(ok) =>
      if t == 0
      then Sys(q', s.threads[t := Outside], [], [], s.answers + [(ok, s.added)])
      else s.(q := q', threads := s.threads[t := Outside])
    case Sleep => s.(q := q', threads := s.threads[t := Asleep(false)])
    case Take(batch, ok) => s.(q := q', threads := s.threads[t := Busy(batch, ok)])
  }

  function Notify(ts: seq<Pc>, t: nat): seq<Pc>
    requires t < |ts|
  {
    if ts[t].Asleep? then ts[t := Asleep(true)] else ts
  }

  /** Which sleeping workers an addition of `n` checks wakes: none, one (any), or all of them. */
  ghost predicate Notified(ts: seq<Pc>, n: nat, ts': seq<Pc>) {
    && |ts'| == |ts|
    && (forall t :: 0 <= t < |ts| ==> ts'[t] == ts[t] || (t != 0 && ts[t].Asleep? && ts'[t] == Asleep(true)))
    && (n > 1 ==> forall t :: 1 <= t < |ts| && ts[t].Asleep? ==> ts'[t] == Asleep(true))
    && (n == 1 && (exists t :: 1 <= t < |ts| && ts[t] == Asleep(false)) ==>
          exists t :: 1 <= t < |ts| && ts[t] == Asleep(false) && ts'[t] == Asleep(true))
  }

  ghost predicate AddStep(s: Sys, checks: seq<Check>, s': Sys) {
    && s.threads != [] && s.threads[0] == Outside
    && Notified(s.threads, |checks|, s'.threads)
    && s' == s.(q := Append(s.q, checks), threads := s'.threads, added := s.added + checks)
  }

  /** The master starts to wait, or a worker starts its loop. */
  ghost predicate StartStep(s: Sys, t: nat, s': Sys) {
    t < |s.threads| && s.threads[t] == Outside && s' == s.(threads := s.threads[t := Entering])
  }

  ghost predicate EnterStep(s: Sys, t: nat, s': Sys) {
    && t < |s.threads| && s.threads[t] == Entering
    && s.q.nWorkers >= -1 && s.q.nIdle >= 0
    && s' == Settle(s, t, Register(s.q))
  }

  /** Running the checks of a batch, outside the lock. */
  ghost predicate WorkStep(s: Sys, t: nat, s': Sys) {
    && t < |s.threads| && s.threads[t].Busy?
    && s' == s.(threads := s.threads[t := Finished(s.threads[t].batch, s.threads[t].ok && AllGood(s.threads[t].batch))])
  }

  ghost predicate ReportStep(s: Sys, t: nat, s': Sys) {
    && t < |s.threads| && s.threads[t].Finished?
    && s.q.nWorkers >= 0 && s.q.nIdle >= 0
    && var q := Report(s.q, |s.threads[t].batch|, s.threads[t].ok);
       var ts := if q.nTodo == 0 && t != 0 then Notify(s.threads, 0) else s.threads;
       s' == Settle(s.(threads := ts, done := s.done + s.threads[t].batch), t, q)
  }

  /** A sleeping thread wakes, whether it was notified or not. */
  ghost predicate WakeStep(s: Sys, t: nat, s': Sys) {
    && t < |s.threads| && s.threads[t].Asleep?
    && s.q.nWorkers >= 0 && s.q.nIdle >= 1
    && s' == Settle(s, t, Awaken(s.q))
  }

  /** Shutting down takes no lock; it wakes every worker and the master that sleep at that moment. */
  ghost predicate QuitStep(s: Sys, s': Sys) {
    && s' == s.(q := s.q.(quit := true), threads := s'.threads) && |s'.threads| == |s.threads|
    && forall t :: 0 <= t < |s.threads| ==>
         s'.threads[t] == if s.threads[t].Asleep? then Asleep(true) else s.threads[t]
  }

  /** The end of a critical section of thread `t`, whatever brought it there. */
  ghost predicate LockStep(s: Sys, t: nat, s': Sys) {
    EnterStep(s, t, s') || ReportStep(s, t, s') || WakeStep(s, t, s')
  }

  /** Shutting down between the moment thread `t` decides to sleep and the moment it does: `t` hears nothing. */
  ghost predicate RacingQuitStep(s: Sys, t: nat, s1: Sys, s': Sys) {
    && LockStep(s, t, s1) && t < |s1.threads| && s1.threads[t] == Asleep(false)
    && |s'.threads| == |s1.threads| && s' == s1.(q := s1.q.(quit := true), threads := s'.threads)
    && forall u :: 0 <= u < |s1.threads| ==>
         s'.threads[u] == if s1.threads[u].Asleep? && u != t then Asleep(true) else s1.threads[u]
  }

  ghost predicate Next(s: Sys, s': Sys) {
    || (exists checks :: AddStep(s, checks, s'))
    || (exists t :: StartStep(s, t, s')) || (exists t :: EnterStep(s, t, s'))
    || (exists t :: WorkStep(s, t, s')) || (exists t :: ReportStep(s, t, s'))
    || (exists t :: WakeStep(s, t, s')) || QuitStep(s, s') || (exists t, s1 :: RacingQuitStep(s, t, s1, s'))
  }

  ghost predicate Init(s: Sys, batchSize: nat) {
    && s.q == Queue([], 0, 0, 0, true, false, batchSize)
    && s.threads != [] && (forall t :: 0 <= t < |s.threads| ==> s.threads[t] == Outside)
    && s.added == [] && s.done == [] && s.answers == []
  }

  // ---------- the invariant ----------

  /** The flag a thread carries is right unless the common flag is down already. */
  ghost predicate Honest(p: Pc, allOk: bool) {
    && (p.Busy? || p.Finished? ==> p.batch != [])
    && (p.Busy? && !p.ok ==> !allOk)
    && (p.Finished? && p.ok ==> AllGood(p.batch))
    && (p.Finished? && !p.ok ==> !allOk || !AllGood(p.batch))
  }

  /** Every check that was added is queued, in flight or reported, and in just one of these ways. */
  ghost predicate Conserved(s: Sys) {
    && multiset(s.added) == multiset(s.q.items) + Flying(s.threads) + multiset(s.done)
    && s.q.nTodo == |s.q.items| + |Flying(s.threads)|
  }

  ghost predicate Flags(s: Sys) {
    (s.q.allOk <==> AllGood(s.done)) && AllHonest(s.threads, s.q.allOk)
  }

  ghost predicate Counters(s: Sys) {
    s.q.nIdle == Count(s.threads, IsAsleep()) && s.q.nWorkers == Count(s.threads, IsInside())
  }

  /** The master sleeps un-notified only while other threads hold all that is left to do. */
  ghost predicate MasterWaits(s: Sys) {
    s.threads != [] && (s.threads[0] == Asleep(false) ==> s.q.items == [] && s.q.nTodo > 0)
  }

  predicate Awake(p: Pc) { p.Busy? || p.Finished? || p.Entering? || p == Asleep(true) }

  /** While checks are queued, the workers are not all asleep without a notification. */
  ghost predicate WorkersWake(s: Sys) {
    s.q.items != [] && (exists t :: 1 <= t < |s.threads| && s.threads[t] == Asleep(false)) ==>
      exists t :: 0 <= t < |s.threads| && Awake(s.threads[t])
  }

  /** What every wait returned is whether all the checks added for it are good. */
  ghost predicate Answered(s: Sys) {
    forall i :: 0 <= i < |s.answers| ==> (s.answers[i].0 <==> AllGood(s.answers[i].1))
  }

  ghost predicate Inv(s: Sys) {
    Conserved(s) && Flags(s) && Counters(s) && MasterWaits(s) && WorkersWake(s) && Answered(s)
  }

  // ---------- every step keeps it ----------

  /** The state inside the critical section of thread `t`, whose place is vacant for the moment. */
  ghost predicate Mid(s: Sys, t: nat, q: Queue) {
    && t < |s.threads|
    && var v := s.(q := q, threads := s.threads[t := Outside]);
       && Conserved(v) && Flags(v) && Answered(v)
       && q.nIdle == Count(v.threads, IsAsleep()) && q.nWorkers == Count(v.threads, IsInside()) + 1
       && (v.threads[0] == Asleep(false) ==> q.items == [] && q.nTodo > 0)
  }

  lemma SettleCounts(ts: seq<Pc>, t: nat, p: Pc)
    requires t < |ts|
    ensures var v, w := ts[t := Outside], ts[t := p];
            && Count(w, IsAsleep()) == Count(v, IsAsleep()) + (if p.Asleep? then 1 else 0)
            && Count(w, IsInside()) == Count(v, IsInside()) + (if IsInside()(p) then 1 else 0)
            && Flying(w) == Flying(v) + multiset(Load(p))
  {
    var v := ts[t := Outside];
    assert v[t := p] == ts[t := p];
    CountUpdate(v, t, p, IsAsleep());
    CountUpdate(v, t, p, IsInside());
    FlyingUpdate(v, t, p);
  }

  lemma SameGood(a: seq<Check>, b: seq<Check>)
    requires multiset(a) == multiset(b)
    ensures AllGood(a) <==> AllGood(b)
  {
    assert forall i :: 0 <= i < |a| ==> a[i] in multiset(b);
    assert forall i :: 0 <= i < |b| ==> b[i] in multiset(a);
  }

  lemma {:induction false} NoneFlying(ts: seq<Pc>)
    requires |Flying(ts)| == 0
    ensures Flying(ts) == multiset{} && forall t :: 0 <= t < |ts| ==> Load(ts[t]) == []
  {
    if ts != [] {
      NoneFlying(ts[..|ts| - 1]);
    }
  }

  ghost predicate AllHonest(ts: seq<Pc>, allOk: bool) {
    forall t :: 0 <= t < |ts| ==> Honest(ts[t], allOk)
  }

  lemma HonestUpdate(ts: seq<Pc>, t: nat, p: Pc, allOk: bool)
    requires t < |ts| && AllHonest(ts[t := Outside], allOk) && Honest(p, allOk)
    ensures AllHonest(ts[t := p], allOk)
  {
    var vacant, filled := ts[t := Outside], ts[t := p];
    forall u | 0 <= u < |filled|
      ensures Honest(filled[u], allOk)
    {
      assert Honest(vacant[u], allOk);
    }
  }

  lemma SettleReturn(s: Sys, t: nat, q: Queue)
    requires Mid(s, t, q) && Decide(q, t == 0).1.Return?
    ensures Inv(Settle(s, t, q))
  {
    hide Count, Flying, AllGood;
    var v := s.(q := q, threads := s.threads[t := Outside]);
    NoneFlying(v.threads);
    if t == 0 {
      assert multiset(s.added) == multiset(s.done);
      SameGood(s.added, s.done);
      assert AllGood([]) by { NoneBad(); }
    }
  }

  lemma NoneBad()
    ensures AllGood([])
  {
  }

  lemma SettleSleep(s: Sys, t: nat, q: Queue)
    requires Mid(s, t, q) && Decide(q, t == 0).1.Sleep?
    ensures Inv(Settle(s, t, q))
  {
    hide Count, Flying, AllGood;
    SettleCounts(s.threads, t, Asleep(false));
    HonestUpdate(s.threads, t, Asleep(false), q.allOk);
  }

  lemma TakenItems(items: seq<Check>, k: nat)
    requires k <= |items|
    ensures var batch := Reverse(items[k..]);
            multiset(items) == multiset(items[..k]) + multiset(batch) && |items| == k + |multiset(batch)|
  {
    hide Reverse;
    ReverseSame(items[k..]);
    assert items == items[..k] + items[k..];
    assert |multiset(items[k..])| == |items[k..]|;
  }

  lemma SettleTake(s: Sys, t: nat, q: Queue)
    requires Mid(s, t, q) && Decide(q, t == 0).1.Take?
    ensures Inv(Settle(s, t, q))
  {
    hide Count, Flying, AllGood, Reverse, BatchSize;
    var k := |q.items| - BatchSize(q);
    var batch := Reverse(q.items[k..]);
    TakenItems(q.items, k);
    SettleCounts(s.threads, t, Busy(batch, q.allOk));
    HonestUpdate(s.threads, t, Busy(batch, q.allOk), q.allOk);
    assert Awake(Settle(s, t, q).threads[t]);
  }

  lemma SettleKeeps(s: Sys, t: nat, q: Queue)
    requires Mid(s, t, q)
    ensures Inv(Settle(s, t, q))
  {
    hide Mid, Inv, Settle, Decide;
    MidCounts(s, t, q);
    match Decide(q, t == 0).1
    case Return(_) => SettleReturn(s, t, q);
    case Sleep => SettleSleep(s, t, q);
    case Take(_, _) => SettleTake(s, t, q);
  }

  lemma MidCounts(s: Sys, t: nat, q: Queue)
    requires Mid(s, t, q)
    ensures t < |s.threads| && q.nWorkers >= 0 && q.nIdle >= 0
  {
    hide Conserved, Flags, Answered, Count;
  }

  lemma Vacate(s: Sys, t: nat)
    requires Inv(s) && t < |s.threads|
    ensures var v := s.threads[t := Outside];
            && Flying(s.threads) == Flying(v) + multiset(Load(s.threads[t]))
            && Count(s.threads, IsAsleep()) == Count(v, IsAsleep()) + (if s.threads[t].Asleep? then 1 else 0)
            && Count(s.threads, IsInside()) == Count(v, IsInside()) + (if IsInside()(s.threads[t]) then 1 else 0)
            && AllHonest(v, s.q.allOk)
  {
    hide Count, Flying, AllGood;
    SettleCounts(s.threads, t, s.threads[t]);
    assert s.threads[t := s.threads[t]] == s.threads;
    var v := s.threads[t := Outside];
    forall u | 0 <= u < |v|
      ensures Honest(v[u], s.q.allOk)
    {
      assert Honest(s.threads[u], s.q.allOk);
    }
  }

  lemma EnterKeeps(s: Sys, t: nat, s': Sys)
    requires Inv(s) && EnterStep(s, t, s')
    ensures Inv(s')
  {
    hide Count, Flying, AllGood, AllHonest, Settle;
    Vacate(s, t);
    assert Mid(s, t, Register(s.q));
    SettleKeeps(s, t, Register(s.q));
  }

  lemma WakeKeeps(s: Sys, t: nat, s': Sys)
    requires Inv(s) && WakeStep(s, t, s')
    ensures Inv(s')
  {
    hide Count, Flying, AllGood, AllHonest, Settle;
    Vacate(s, t);
    assert Mid(s, t, Awaken(s.q));
    SettleKeeps(s, t, Awaken(s.q));
  }

  lemma GoodConcat(a: seq<Check>, b: seq<Check>)
    ensures AllGood(a + b) <==> AllGood(a) && AllGood(b)
  {
    assert forall i :: 0 <= i < |a| ==> (a + b)[i] == a[i];
    assert forall i :: 0 <= i < |b| ==> (a + b)[|a| + i] == b[i];
  }

  /** Lowering the common flag excuses every thread. */
  lemma HonestLower(ts: seq<Pc>, allOk: bool, lower: bool)
    requires AllHonest(ts, allOk) && (lower ==> allOk)
    ensures AllHonest(ts, lower)
  {
  }

  /** Waking sleepers by notification changes no load and no count. */
  ghost predicate Woken(ts: seq<Pc>, ts': seq<Pc>) {
    |ts'| == |ts| && forall t :: 0 <= t < |ts| ==> ts'[t] == ts[t] || (ts[t].Asleep? && ts'[t] == Asleep(true))
  }

  lemma {:induction false} WokenFlying(ts: seq<Pc>, ts': seq<Pc>)
    requires Woken(ts, ts')
    ensures Flying(ts') == Flying(ts)
  {
    if ts != [] {
      WokenFlying(ts[..|ts| - 1], ts'[..|ts| - 1]);
      assert Load(ts[|ts| - 1]) == Load(ts'[|ts| - 1]);
    }
  }

  lemma {:induction false} WokenCount(ts: seq<Pc>, ts': seq<Pc>)
    requires Woken(ts, ts')
    ensures Count(ts', IsAsleep()) == Count(ts, IsAsleep()) && Count(ts', IsInside()) == Count(ts, IsInside())
  {
    if ts != [] {
      WokenCount(ts[..|ts| - 1], ts'[..|ts| - 1]);
    }
  }

  lemma WokenHonest(ts: seq<Pc>, ts': seq<Pc>, allOk: bool)
    requires Woken(ts, ts') && AllHonest(ts, allOk)
    ensures AllHonest(ts', allOk)
  {
    hide AllGood;
    forall t | 0 <= t < |ts'|
      ensures Honest(ts'[t], allOk)
    {
      assert Honest(ts[t], allOk);
    }
  }

  lemma WokenSame(ts: seq<Pc>, ts': seq<Pc>, allOk: bool)
    requires Woken(ts, ts')
    ensures Flying(ts') == Flying(ts)
    ensures Count(ts', IsAsleep()) == Count(ts, IsAsleep()) && Count(ts', IsInside()) == Count(ts, IsInside())
    ensures AllHonest(ts, allOk) ==> AllHonest(ts', allOk)
  {
    hide Woken, AllHonest, Flying, Count;
    WokenFlying(ts, ts');
    WokenCount(ts, ts');
    if AllHonest(ts, allOk) {
      WokenHonest(ts, ts', allOk);
    }
  }

  lemma NotifyFacts(s: Sys, t: nat)
    requires Inv(s) && t < |s.threads| && t != 0
    ensures var ts, us := s.threads, Notify(s.threads, 0);
            && |us| == |ts| && us[t] == ts[t] && us[0] != Asleep(false)
            && Flying(us[t := Outside]) == Flying(ts[t := Outside])
            && Count(us[t := Outside], IsAsleep()) == Count(ts[t := Outside], IsAsleep())
            && Count(us[t := Outside], IsInside()) == Count(ts[t := Outside], IsInside())
            && (AllHonest(ts[t := Outside], s.q.allOk) ==> AllHonest(us[t := Outside], s.q.allOk))
  {
    hide Count, Flying, AllGood;
    var ts, us := s.threads, Notify(s.threads, 0);
    assert Woken(ts[t := Outside], us[t := Outside]);
    WokenSame(ts[t := Outside], us[t := Outside], s.q.allOk);
  }

  lemma ReportKeeps(s: Sys, t: nat, s': Sys)
    requires Inv(s) && ReportStep(s, t, s')
    ensures Inv(s')
  {
    hide Count, Flying, AllGood, Settle, Notify;
    var p := s.threads[t];
    var q := Report(s.q, |p.batch|, p.ok);
    var ts := if q.nTodo == 0 && t != 0 then Notify(s.threads, 0) else s.threads;
    var m := s.(threads := ts, done := s.done + p.batch);
    Vacate(s, t);
    GoodConcat(s.done, p.batch);
    assert Honest(p, s.q.allOk);
    if q.nTodo == 0 && t != 0 {
      NotifyFacts(s, t);
    }
    HonestLower(ts[t := Outside], s.q.allOk, q.allOk);
    hide AllHonest, Honest;
    assert Mid(m, t, q);
    SettleKeeps(m, t, q);
  }

  lemma WorkKeeps(s: Sys, t: nat, s': Sys)
    requires Inv(s) && WorkStep(s, t, s')
    ensures Inv(s')
  {
    hide Count, Flying;
    var p := s.threads[t];
    var p' := Finished(p.batch, p.ok && AllGood(p.batch));
    Vacate(s, t);
    SettleCounts(s.threads, t, p');
    assert Honest(p, s.q.allOk);
    HonestUpdate(s.threads, t, p', s.q.allOk);
    hide AllGood, AllHonest;
    assert Awake(s'.threads[t]);
  }

  lemma StartKeeps(s: Sys, t: nat, s': Sys)
    requires Inv(s) && StartStep(s, t, s')
    ensures Inv(s')
  {
    hide Count, Flying, AllGood;
    Vacate(s, t);
    SettleCounts(s.threads, t, Entering);
    HonestUpdate(s.threads, t, Entering, s.q.allOk);
    hide AllHonest;
    assert Awake(s'.threads[t]);
  }

  lemma AddKeeps(s: Sys, checks: seq<Check>, s': Sys)
    requires Inv(s) && AddStep(s, checks, s')
    ensures Inv(s')
  {
    hide Count, Flying, AllGood;
    AddWakes(s, checks, s');
    assert Woken(s.threads, s'.threads);
    WokenSame(s.threads, s'.threads, s.q.allOk);
    hide AllHonest, Woken, WorkersWake;
  }

  lemma AddWakes(s: Sys, checks: seq<Check>, s': Sys)
    requires WorkersWake(s) && AddStep(s, checks, s')
    ensures WorkersWake(s')
  {
    if s'.q.items != [] && exists t :: 1 <= t < |s.threads| && s'.threads[t] == Asleep(false) {
      var t :| 1 <= t < |s.threads| && s'.threads[t] == Asleep(false);
      assert s.threads[t] == Asleep(false);
      if |checks| == 0 {
        assert s.q.items != [];
        var u :| 0 <= u < |s.threads| && Awake(s.threads[u]);
        assert Awake(s'.threads[u]);
      } else {
        var u :| 1 <= u < |s.threads| && s.threads[u] == Asleep(false) && s'.threads[u] == Asleep(true);
        assert Awake(s'.threads[u]);
      }
    }
  }

  lemma QuitKeeps(s: Sys, s': Sys)
    requires Inv(s) && QuitStep(s, s')
    ensures Inv(s')
  {
    hide Count, Flying, AllGood;
    assert Woken(s.threads, s'.threads);
    WokenSame(s.threads, s'.threads, s.q.allOk);
    hide AllHonest, Woken;
  }

  lemma LockKeeps(s: Sys, t: nat, s': Sys)
    requires Inv(s) && LockStep(s, t, s')
    ensures Inv(s')
  {
    hide Inv, EnterStep, ReportStep, WakeStep;
    if EnterStep(s, t, s') {
      EnterKeeps(s, t, s');
    } else if ReportStep(s, t, s') {
      ReportKeeps(s, t, s');
    } else {
      WakeKeeps(s, t, s');
    }
  }

  lemma RacingQuitKeeps(s: Sys, t: nat, s1: Sys, s': Sys)
    requires Inv(s) && RacingQuitStep(s, t, s1, s')
    ensures Inv(s')
  {
    hide Count, Flying, AllGood, EnterStep, ReportStep, WakeStep;
    LockKeeps(s, t, s1);
    assert Woken(s1.threads, s'.threads);
    WokenSame(s1.threads, s'.threads, s1.q.allOk);
    hide AllHonest, Woken;
    WokenWake(s1, s');
  }

  lemma WokenWake(s: Sys, s': Sys)
    requires WorkersWake(s) && Woken(s.threads, s'.threads) && s'.q.items == s.q.items
    ensures WorkersWake(s')
  {
    if s'.q.items != [] && exists t :: 1 <= t < |s.threads| && s'.threads[t] == Asleep(false) {
      var t :| 1 <= t < |s.threads| && s'.threads[t] == Asleep(false);
      assert s.threads[t] == Asleep(false);
      var u :| 0 <= u < |s.threads| && Awake(s.threads[u]);
      assert Awake(s'.threads[u]);
    }
  }

  lemma NextKeeps(s: Sys, s': Sys)
    requires Inv(s) && Next(s, s')
    ensures Inv(s')
  {
    hide Inv, AddStep, StartStep, EnterStep, WorkStep, ReportStep, WakeStep, QuitStep, RacingQuitStep;
    if checks :| AddStep(s, checks, s') {
      AddKeeps(s, checks, s');
    } else if t: nat :| StartStep(s, t, s') {
      StartKeeps(s, t, s');
    } else if t: nat :| EnterStep(s, t, s') {
      EnterKeeps(s, t, s');
    } else if t: nat :| WorkStep(s, t, s') {
      WorkKeeps(s, t, s');
    } else if t: nat :| ReportStep(s, t, s') {
      ReportKeeps(s, t, s');
    } else if t: nat :| WakeStep(s, t, s') {
      WakeKeeps(s, t, s');
    } else if QuitStep(s, s') {
      QuitKeeps(s, s');
    } else {
      var t: nat, s1 :| RacingQuitStep(s, t, s1, s');
      RacingQuitKeeps(s, t, s1, s');
    }
  }

  // ---------- runs ----------

  ghost predicate Behaviour(run: seq<Sys>, batchSize: nat) {
    run != [] && Init(run[0], batchSize) && forall i :: 0 <= i < |run| - 1 ==> Next(run[i], run[i + 1])
  }

  lemma InitInv(s: Sys, batchSize: nat)
    requires Init(s, batchSize)
    ensures Inv(s)
  {
    InitCounts(s.threads);
  }

  lemma {:induction false} InitCounts(ts: seq<Pc>)
    requires forall t :: 0 <= t < |ts| ==> ts[t] == Outside
    ensures Flying(ts) == multiset{} && Count(ts, IsAsleep()) == 0 && Count(ts, IsInside()) == 0
  {
    if ts != [] {
      InitCounts(ts[..|ts| - 1]);
    }
  }

  lemma {:induction false} EveryState(run: seq<Sys>, batchSize: nat, i: nat)
    requires Behaviour(run, batchSize) && i < |run|
    ensures Inv(run[i])
  {
    hide Inv, Init, Next;
    if i == 0 {
      InitInv(run[0], batchSize);
    } else {
      EveryState(run, batchSize, i - 1);
      NextKeeps(run[i - 1], run[i]);
    }
  }

  /** In every run, each wait returned exactly the conjunction of the checks added for it. */
  lemma EveryAnswer(run: seq<Sys>, batchSize: nat, i: nat, n: nat)
    requires Behaviour(run, batchSize) && i < |run| && n < |run[i].answers|
    ensures run[i].answers[n].0 <==> AllGood(run[i].answers[n].1)
  {
    hide Behaviour, Conserved, Flags, Counters, MasterWaits, WorkersWake;
    EveryState(run, batchSize, i);
  }

  /**
   No check is lost, duplicated or taken twice: with pairwise different ids, no id is both
   queued and in flight, and no two threads hold the same one.
   */
  lemma TakenOnce(s: Sys, c: Check)
    requires Inv(s) && multiset(s.added)[c] <= 1
    ensures multiset(s.q.items)[c] + Flying(s.threads)[c] + multiset(s.done)[c] == multiset(s.added)[c]
    ensures forall t, u :: 0 <= t < u < |s.threads| ==> !(c in Load(s.threads[t]) && c in Load(s.threads[u]))
  {
    hide Flags, Counters, MasterWaits, WorkersWake, Answered;
    forall t, u | 0 <= t < u < |s.threads|
      ensures !(c in Load(s.threads[t]) && c in Load(s.threads[u]))
    {
      FlyingTwo(s.threads, t, u, c);
    }
  }

  lemma {:induction false} FlyingTwo(ts: seq<Pc>, t: nat, u: nat, c: Check)
    requires t < u < |ts|
    ensures Flying(ts)[c] >= multiset(Load(ts[t]))[c] + multiset(Load(ts[u]))[c]
  {
    if u == |ts| - 1 {
      FlyingOne(ts[..u], t, c);
    } else {
      FlyingTwo(ts[..|ts| - 1], t, u, c);
    }
  }

  lemma {:induction false} FlyingOne(ts: seq<Pc>, t: nat, c: Check)
    requires t < |ts|
    ensures Flying(ts)[c] >= multiset(Load(ts[t]))[c]
  {
    if t < |ts| - 1 {
      FlyingOne(ts[..|ts| - 1], t, c);
    }
  }

  /**
   No lost wake-up: whenever the master sleeps without a notification, some worker holds
   checks that it has not reported, and that worker can go on.
   */
  lemma MasterNotStranded(s: Sys) returns (t: nat)
    requires Inv(s) && s.threads[0] == Asleep(false)
    ensures 1 <= t < |s.threads| && (s.threads[t].Busy? || s.threads[t].Finished?) && Load(s.threads[t]) != []
    ensures s.q.items == [] && s.q.nTodo == |Flying(s.threads)| > 0
  {
    hide Flags, Counters, WorkersWake, Answered;
    t := FlyingSome(s.threads);
  }

  /** While anything is left to do and the master waits, some thread can go on without a spurious wake-up. */
  lemma Progress(s: Sys) returns (t: nat)
    requires Inv(s) && s.q.nTodo > 0 && s.threads[0] != Outside
    ensures t < |s.threads| && Awake(s.threads[t])
  {
    hide Flags, Counters, WorkersWake, Answered, Conserved;
    if s.threads[0] == Asleep(false) {
      t := MasterNotStranded(s);
    } else {
      t := 0;
    }
  }

  /** The reports never take more from the counter than it holds. */
  lemma NoUnderflow(s: Sys, t: nat)
    requires Inv(s) && t < |s.threads| && s.threads[t].Finished?
    ensures |s.threads[t].batch| <= s.q.nTodo
  {
    hide Flags, Counters, MasterWaits, WorkersWake, Answered, Flying;
    Vacate(s, t);
  }

  // ---------- every wait ends ----------

  /** A bound on the steps a thread can take with what it holds. */
  function Weight(p: Pc): nat {
    match p
    case Outside => 0
    case Entering => 2
    case Asleep(notified) => if notified then 2 else 1
    case Busy(batch, _) => 5 * |batch|
    case Finished(batch, _) => 4 * |batch|
  }

  function Weights(ts: seq<Pc>): nat {
    if ts == [] then 0 else Weights(ts[..|ts| - 1]) + Weight(ts[|ts| - 1])
  }

  function Remaining(s: Sys): nat { 6 * |s.q.items| + Weights(s.threads) }

  /** A step of a thread inside its loop. */
  ghost predicate ThreadStep(s: Sys, t: nat, s': Sys) { LockStep(s, t, s') || WorkStep(s, t, s') }

  lemma {:induction false} WeightUpdate(ts: seq<Pc>, t: nat, p: Pc)
    requires t < |ts|
    ensures Weights(ts[t := p]) + Weight(ts[t]) == Weights(ts) + Weight(p)
  {
    hide Weight;
    var n := |ts| - 1;
    if t == n {
      assert ts[t := p][..n] == ts[..n];
    } else {
      WeightUpdate(ts[..n], t, p);
      assert ts[t := p][..n] == ts[..n][t := p];
    }
  }

  /** A critical section leaves no more to do than the thread brought with it, and less if it takes a batch. */
  lemma SettleShrinks(s: Sys, t: nat, q: Queue)
    requires t < |s.threads| && q.nWorkers >= 0 && q.nIdle >= 0
    ensures var s' := Settle(s, t, q);
            && Remaining(s') + Weight(s.threads[t]) <= 6 * |q.items| + Weights(s.threads) + 1
            && (!s'.threads[t].Asleep? ==> Remaining(s') + Weight(s.threads[t]) <= 6 * |q.items| + Weights(s.threads))
            && (s'.threads[t].Busy? ==> Remaining(s') + Weight(s.threads[t]) < 6 * |q.items| + Weights(s.threads))
  {
    hide Weights, BatchSize;
    WeightUpdate(s.threads, t, Settle(s, t, q).threads[t]);
  }

  /** Whatever a thread does, either nothing has changed or less remains to be done. */
  lemma StepShrinks(s: Sys, t: nat, s': Sys)
    requires Inv(s) && ThreadStep(s, t, s')
    ensures s' == s || Remaining(s') < Remaining(s)
  {
    hide Inv, EnterStep, WorkStep, ReportStep, WakeStep, Remaining;
    if EnterStep(s, t, s') {
      EnterShrinks(s, t, s');
    } else if ReportStep(s, t, s') {
      ReportShrinks(s, t, s');
    } else if WakeStep(s, t, s') {
      WakeShrinks(s, t, s');
    } else {
      WorkShrinks(s, t, s');
    }
  }

  lemma EnterShrinks(s: Sys, t: nat, s': Sys)
    requires EnterStep(s, t, s')
    ensures Remaining(s') < Remaining(s)
  {
    hide Settle, Weights;
    SettleShrinks(s, t, Register(s.q));
  }

  lemma WorkShrinks(s: Sys, t: nat, s': Sys)
    requires Inv(s) && WorkStep(s, t, s')
    ensures Remaining(s') < Remaining(s)
  {
    hide Conserved, Counters, MasterWaits, WorkersWake, Answered, Weights, AllGood;
    assert Honest(s.threads[t], s.q.allOk);
    WeightUpdate(s.threads, t, s'.threads[t]);
  }

  lemma ReportShrinks(s: Sys, t: nat, s': Sys)
    requires Inv(s) && ReportStep(s, t, s')
    ensures Remaining(s') < Remaining(s)
  {
    hide Conserved, Counters, MasterWaits, WorkersWake, Answered, Weights, AllGood, Settle;
    var p := s.threads[t];
    assert Honest(p, s.q.allOk);
    var q := Report(s.q, |p.batch|, p.ok);
    var ts := if q.nTodo == 0 && t != 0 then Notify(s.threads, 0) else s.threads;
    WeightUpdate(s.threads, 0, ts[0]);
    assert s.threads[0 := s.threads[0]] == s.threads;
    SettleShrinks(s.(threads := ts, done := s.done + p.batch), t, q);
  }

  lemma WakeShrinks(s: Sys, t: nat, s': Sys)
    requires WakeStep(s, t, s')
    ensures s' == s || Remaining(s') < Remaining(s)
  {
    hide Weights, BatchSize;
    SettleShrinks(s, t, Awaken(s.q));
    assert s.threads[t := s.threads[t]] == s.threads;
  }

  lemma {:induction false} WeightsBound(ts: seq<Pc>)
    ensures Weights(ts) <= 5 * |Flying(ts)| + 2 * |ts|
  {
    if ts != [] {
      WeightsBound(ts[..|ts| - 1]);
      assert |multiset(Load(ts[|ts| - 1]))| == |Load(ts[|ts| - 1])|;
    }
  }

  /** While the master waits, some thread can take a step that changes something. */
  lemma CanGoOn(s: Sys) returns (t: nat, s': Sys)
    requires Inv(s) && Waiting(s)
    ensures ThreadStep(s, t, s') && s' != s
  {
    hide Flags, WorkersWake, Answered, Conserved, Flying, Count, Settle;
    if s.threads[0] == Asleep(false) {
      t := MasterNotStranded(s);
    } else {
      t := 0;
    }
    s' := StepOf(s, t);
  }

  /** The next step of a thread that is not asleep or was notified. */
  lemma StepOf(s: Sys, t: nat) returns (s': Sys)
    requires Counters(s) && t < |s.threads| && Awake(s.threads[t])
    ensures ThreadStep(s, t, s') && s' != s && if s.threads[t].Busy? then WorkStep(s, t, s') else LockStep(s, t, s')
  {
    hide Counters, BatchSize, AllGood;
    CountersFit(s, t);
    var p := s.threads[t];
    match p {
      case Entering =>
        s' := Settle(s, t, Register(s.q));
        assert EnterStep(s, t, s');
      case Asleep(_) =>
        s' := Settle(s, t, Awaken(s.q));
        assert WakeStep(s, t, s');
      case Busy(batch, ok) =>
        s' := s.(threads := s.threads[t := Finished(batch, ok && AllGood(batch))]);
        assert WorkStep(s, t, s');
      case Finished(batch, ok) =>
        var q := Report(s.q, |batch|, ok);
        var ts := if q.nTodo == 0 && t != 0 then Notify(s.threads, 0) else s.threads;
        s' := Settle(s.(threads := ts, done := s.done + batch), t, q);
        assert ReportStep(s, t, s');
    }
    assert s'.threads[t] != s.threads[t];
  }

  lemma CountersFit(s: Sys, t: nat)
    requires Counters(s) && t < |s.threads|
    ensures s.q.nWorkers >= 0 && s.q.nIdle >= if s.threads[t].Asleep? then 1 else 0
  {
    hide Count;
    CountUpdate(s.threads, t, Outside, IsAsleep());
  }

  ghost predicate Changes(s: Sys, s': Sys) { s' != s && exists t :: ThreadStep(s, t, s') }

  ghost predicate Stirring(s: Sys) { exists t: nat :: t < |s.threads| && Awake(s.threads[t]) }

  ghost predicate Lively(s: Sys) { exists s' :: Changes(s, s') }

  /** Thread steps that each change something. */
  ghost predicate Steps(run: seq<Sys>) {
    run != [] && forall i :: 0 <= i < |run| - 1 ==> Changes(run[i], run[i + 1])
  }

  ghost predicate Waiting(s: Sys) { s.threads != [] && s.threads[0] != Outside }

  lemma {:induction false} StepsShrink(run: seq<Sys>)
    requires Steps(run) && Inv(run[0])
    ensures Inv(run[|run| - 1]) && Remaining(run[|run| - 1]) + |run| - 1 <= Remaining(run[0])
  {
    hide Inv, Remaining, ThreadStep;
    if |run| > 1 {
      var n := |run| - 1;
      StepsShrink(run[..n]);
      assert Changes(run[n - 1], run[n - 1 + 1]);
      var t: nat :| ThreadStep(run[n - 1], t, run[n]);
      StepShrinks(run[n - 1], t, run[n]);
      StepKeeps(run[n - 1], t, run[n]);
    }
  }

  lemma StepKeeps(s: Sys, t: nat, s': Sys)
    requires Inv(s) && ThreadStep(s, t, s')
    ensures Inv(s')
  {
    hide Inv, LockStep, WorkStep;
    if LockStep(s, t, s') {
      LockKeeps(s, t, s');
    } else {
      WorkKeeps(s, t, s');
    }
  }

  /**
   A wait comes to an end: as long as the master has not returned some thread can take a step
   that changes something, and there are at most six such steps for each check that is left and
   two for each thread.
   */
  lemma WaitEnds(run: seq<Sys>) returns (t: nat, s': Sys)
    requires Steps(run) && Inv(run[0]) && Waiting(run[|run| - 1])
    ensures ThreadStep(run[|run| - 1], t, s') && s' != run[|run| - 1]
    ensures |run| <= 6 * run[0].q.nTodo + 2 * |run[0].threads|
  {
    hide Inv, Remaining, ThreadStep;
    StepsShrink(run);
    RemainingBound(run[0]);
    t, s' := CanGoOn(run[|run| - 1]);
    StepShrinks(run[|run| - 1], t, s');
  }

  lemma RemainingBound(s: Sys)
    requires Inv(s)
    ensures Remaining(s) <= 6 * s.q.nTodo + 2 * |s.threads|
  {
    hide Flags, Counters, MasterWaits, WorkersWake, Answered, Flying, Weights;
    WeightsBound(s.threads);
  }

  /** The step with which the master leaves answers for exactly the checks that were added. */
  lemma LeavingAnswers(s: Sys, t: nat, s': Sys)
    requires Inv(s) && ThreadStep(s, t, s') && Waiting(s) && !Waiting(s')
    ensures s'.answers == s.answers + [(AllGood(s.added), s.added)]
  {
    LeavingGrows(s, t, s');
    hide Inv, ThreadStep, AllGood;
    StepKeeps(s, t, s');
    AnsweredLast(s');
  }

  lemma AnsweredLast(s: Sys)
    requires Inv(s) && s.answers != []
    ensures var (ok, checks) := s.answers[|s.answers| - 1]; ok <==> AllGood(checks)
  {
    hide Conserved, Flags, Counters, MasterWaits, WorkersWake, AllGood;
  }

  lemma LeavingGrows(s: Sys, t: nat, s': Sys)
    requires ThreadStep(s, t, s') && Waiting(s) && !Waiting(s')
    ensures exists ok :: s'.answers == s.answers + [(ok, s.added)]
  {
    hide Settle, AllGood;
    if EnterStep(s, t, s') {
      SettleLeaves(s, t, Register(s.q));
    } else if WakeStep(s, t, s') {
      SettleLeaves(s, t, Awaken(s.q));
    } else if ReportStep(s, t, s') {
      var q := Report(s.q, |s.threads[t].batch|, s.threads[t].ok);
      var ts := if q.nTodo == 0 && t != 0 then Notify(s.threads, 0) else s.threads;
      SettleLeaves(s.(threads := ts, done := s.done + s.threads[t].batch), t, q);
    }
  }

  lemma SettleLeaves(s: Sys, t: nat, q: Queue)
    requires t < |s.threads| && q.nWorkers >= 0 && q.nIdle >= 0
    ensures var s' := Settle(s, t, q);
            |s'.threads| == |s.threads| && (Waiting(s) && !Waiting(s') ==> s'.answers == s.answers + [(q.allOk, s.added)])
  {
    hide BatchSize;
  }

  // ---------- how a critical section ends ----------

  /** A batch is the largest share of the queue within the configured size, but at least one check. */
  lemma BatchSizeMost(q: Queue)
    requires q.items != [] && q.nWorkers >= 0 && q.nIdle >= 0
    ensures var n, threads := BatchSize(q), q.nWorkers + q.nIdle + 1;
            && (n == 1 || (n <= q.batchSize && n * threads <= |q.items|))
            && (n + 1 > q.batchSize || (n + 1) * threads > |q.items|)
  {
    LargestShare(|q.items|, q.nWorkers + q.nIdle + 1, q.batchSize, BatchSize(q));
  }

  lemma LargestShare(x: nat, d: nat, limit: nat, n: nat)
    requires d > 0 && n == Max(1, Min(limit, Numbers.Quotient(x, d)))
    ensures (n == 1 || (n <= limit && n * d <= x)) && (n + 1 > limit || (n + 1) * d > x)
  {
    var k := Numbers.Quotient(x, d);
    Numbers.DivMod(x, d);
    Numbers.MulAdd(k, 1, d);
    hide Numbers.Quotient;
    if n <= k {
      Numbers.MulMono(n, k, d);
    }
    if k <= n {
      Numbers.MulMono(k + 1, n + 1, d);
    }
  }

  /**
   The end of a critical section. A thread returns exactly if nothing is queued or in flight and it
   is the master or the queue was told to quit; it sleeps exactly if nothing is queued and it does
   not return; otherwise it takes checks from the back, with the common flag.
   */
  lemma AfterLock(s: Sys, t: nat, s': Sys)
    requires LockStep(s, t, s')
    ensures t < |s.threads| == |s'.threads|
    ensures s'.threads[t] == Outside <==> s.q.items == [] && s'.q.nTodo == 0 && (t == 0 || s.q.quit)
    ensures s'.threads[t] == Asleep(false) <==> s.q.items == [] && !(s'.q.nTodo == 0 && (t == 0 || s.q.quit))
    ensures s'.threads[t].Busy? <==> s.q.items != []
    ensures s'.threads[t].Busy? ==> TookBack(s.q.items, s'.q.items, s'.threads[t].batch) && s'.threads[t].ok == s'.q.allOk
    ensures s'.q.quit == s.q.quit && forall u :: 1 <= u < |s.threads| && u != t ==> s'.threads[u] == s.threads[u]
    ensures t != 0 && s.threads[0] == Outside ==> s'.threads[0] == Outside
  {
    hide Settle;
    if EnterStep(s, t, s') {
      SettleOutcome(s, t, Register(s.q));
    } else if ReportStep(s, t, s') {
      var q := Report(s.q, |s.threads[t].batch|, s.threads[t].ok);
      var ts := if q.nTodo == 0 && t != 0 then Notify(s.threads, 0) else s.threads;
      SettleOutcome(s.(threads := ts, done := s.done + s.threads[t].batch), t, q);
    } else {
      SettleOutcome(s, t, Awaken(s.q));
    }
  }

  /** The batch is the end of the queue, last check first, and is not empty. */
  ghost predicate TookBack(items: seq<Check>, items': seq<Check>, batch: seq<Check>) {
    && items' < items && |batch| == |items| - |items'|
    && forall i :: 0 <= i < |batch| ==> batch[i] == items[|items| - 1 - i]
  }

  lemma SettleOutcome(s: Sys, t: nat, q: Queue)
    requires t < |s.threads| && q.nWorkers >= 0 && q.nIdle >= 0
    ensures var s' := Settle(s, t, q);
            && |s'.threads| == |s.threads| && s'.q.nTodo == q.nTodo && s'.q.quit == q.quit
            && (s'.threads[t] == Outside <==> q.items == [] && q.nTodo == 0 && (t == 0 || q.quit))
            && (s'.threads[t] == Asleep(false) <==> q.items == [] && !(q.nTodo == 0 && (t == 0 || q.quit)))
            && (s'.threads[t].Busy? <==> q.items != [])
            && (s'.threads[t].Busy? ==> TookBack(q.items, s'.q.items, s'.threads[t].batch) && s'.threads[t].ok == s'.q.allOk)
            && (s'.q.items != [] ==> q.items != [])
            && (forall u :: 0 <= u < |s.threads| && u != t ==> s'.threads[u] == s.threads[u])
  {
    hide BatchSize;
  }

  // ---------- shutting down ----------

  /** The queue was told to quit while the master is not waiting. */
  ghost predicate ShutDown(s: Sys) { s.q.quit && s.threads != [] && s.threads[0] == Outside }

  /** Two workers of which one can go to sleep while the other still holds checks. */
  ghost predicate Contended(s: Sys) {
    s.q.nTodo > 0 && exists a, b :: Rivals(s, a, b)
  }

  ghost predicate Rivals(s: Sys, a: nat, b: nat) {
    && 1 <= a < |s.threads| && 1 <= b < |s.threads| && a != b && Awake(s.threads[a])
    && (Awake(s.threads[b]) || (s.threads[b] == Asleep(false) && s.q.items != []))
  }

  /** A worker that enters or wakes after Quit, with nothing left to do, leaves. */
  lemma QuitLeaves(s: Sys, t: nat, s': Sys)
    requires s.q.quit && s.q.nTodo == 0 && Conserved(s) && LockStep(s, t, s') && !s.threads[t].Finished?
    ensures s'.threads[t] == Outside
  {
    hide Flying;
    AfterLock(s, t, s');
    TodoKept(s, t, s');
  }

  /** Only a report changes how much is left to do. */
  lemma TodoKept(s: Sys, t: nat, s': Sys)
    requires LockStep(s, t, s')
    ensures s'.q.nTodo == s.q.nTodo - |Reported(s.threads[t])|
  {
    hide Settle;
    if EnterStep(s, t, s') {
      SettleOutcome(s, t, Register(s.q));
    } else if ReportStep(s, t, s') {
      var q := Report(s.q, |s.threads[t].batch|, s.threads[t].ok);
      var ts := if q.nTodo == 0 && t != 0 then Notify(s.threads, 0) else s.threads;
      SettleOutcome(s.(threads := ts, done := s.done + s.threads[t].batch), t, q);
    } else {
      SettleOutcome(s, t, Awaken(s.q));
    }
  }

  function Reported(p: Pc): seq<Check> { if p.Finished? then p.batch else [] }

  lemma HolderCounts(s: Sys, t: nat)
    requires Inv(s) && t < |s.threads|
    ensures |Load(s.threads[t])| + |s.q.items| <= s.q.nTodo
    ensures s.threads[t].Busy? || s.threads[t].Finished? ==> Load(s.threads[t]) != []
  {
    hide Counters, MasterWaits, WorkersWake, Answered, Flying, AllGood;
    assert Honest(s.threads[t], s.q.allOk);
    Vacate(s, t);
    Sizes(Flying(s.threads[t := Outside]), Load(s.threads[t]));
  }

  lemma Sizes(a: multiset<Check>, b: seq<Check>)
    ensures |a + multiset(b)| == |a| + |b|
  {
    assert |multiset(b)| == |b|;
  }

  /** If nothing is queued, some thread holds what is left to do. */
  lemma SomeHolder(s: Sys) returns (t: nat)
    requires Inv(s) && s.q.items == [] && s.q.nTodo > 0
    ensures t < |s.threads| && Load(s.threads[t]) != []
  {
    hide Flags, Counters, MasterWaits, WorkersWake, Answered;
    t := FlyingSome(s.threads);
  }

  /** The sleep of a worker that was awake. */
  ghost predicate Dozes(s: Sys, s': Sys, t: nat) {
    1 <= t < |s.threads| == |s'.threads| && Awake(s.threads[t]) && s'.threads[t] == Asleep(false)
  }

  /** Without rivals no step puts a worker to sleep, and none brings rivals about. */
  lemma CalmStep(s: Sys, t: nat, s': Sys)
    requires Inv(s) && ShutDown(s) && !Contended(s) && ThreadStep(s, t, s') && s' != s
    ensures ShutDown(s') && !Contended(s') && |s'.threads| == |s.threads| && 1 <= t < |s.threads|
    ensures s'.threads[t] != Asleep(false) && forall u :: 1 <= u < |s.threads| && u != t ==> s'.threads[u] == s.threads[u]
  {
    hide Inv, EnterStep, ReportStep, WakeStep, Contended;
    if WorkStep(s, t, s') {
      CalmWork(s, t, s');
    } else {
      AfterLock(s, t, s');
      TodoKept(s, t, s');
      LockBounds(s, t, s');
      if s.q.nTodo > 0 {
        CalmLock(s, t, s');
      } else {
        NoWorkLeft(s, t);
        NoContest(s');
      }
    }
  }

  lemma NoContest(s: Sys)
    ensures s.q.nTodo <= 0 ==> !Contended(s)
  {
  }

  lemma NoWorkLeft(s: Sys, t: nat)
    requires Inv(s) && s.q.nTodo <= 0 && t < |s.threads|
    ensures s.q.nTodo == 0 && s.q.items == [] && !s.threads[t].Busy? && !s.threads[t].Finished?
  {
    hide Inv;
    HolderCounts(s, t);
  }

  /** A lock step is taken by a thread that enters, reports or sleeps; an idle one that stays asleep changes nothing. */
  lemma LockBounds(s: Sys, t: nat, s': Sys)
    requires LockStep(s, t, s')
    ensures t < |s.threads| && (s.threads[t].Entering? || s.threads[t].Finished? || s.threads[t].Asleep?)
    ensures s.threads[t] == Asleep(false) == s'.threads[t] ==> s' == s
    ensures s'.q.items == [] || s'.threads[t].Busy?
  {
    hide BatchSize;
    if WakeStep(s, t, s') {
      assert s.threads[t := s.threads[t]] == s.threads;
    }
  }

  lemma CalmWork(s: Sys, t: nat, s': Sys)
    requires ShutDown(s) && !Contended(s) && WorkStep(s, t, s')
    ensures ShutDown(s') && !Contended(s') && |s'.threads| == |s.threads| && 1 <= t < |s.threads|
    ensures s'.threads[t] != Asleep(false) && forall u :: 1 <= u < |s.threads| && u != t ==> s'.threads[u] == s.threads[u]
  {
    forall a, b | Rivals(s', a, b)
      ensures s.q.nTodo <= 0
    {
      assert Rivals(s, a, b) || Rivals(s, b, a);
    }
  }

  lemma CalmLock(s: Sys, t: nat, s': Sys)
    requires Inv(s) && ShutDown(s) && !Contended(s) && s.q.nTodo > 0 && LockStep(s, t, s') && s' != s
    requires 1 <= t < |s.threads| == |s'.threads|
    ensures s'.threads[t] != Asleep(false) && !Contended(s')
  {
    hide Inv, EnterStep, ReportStep, WakeStep;
    AfterLock(s, t, s');
    TodoKept(s, t, s');
    LockBounds(s, t, s');
    HolderCounts(s, t);
    NotUnnotified(s, t, s');
    if s.q.items == [] {
      var w := SomeHolder(s);
      assert Awake(s.threads[w]) && w >= 1;
      if w == t {
        LoneHolder(s, t);
      } else {
        NoRivals(s, t, w);
      }
    }
    forall a: nat, b: nat
      ensures Rivals(s', a, b) ==> s'.q.nTodo <= 0
    {
      NoRivals(s, t, a);
      NoRivals(s, t, b);
    }
  }

  /** Without rivals, a worker that sleeps without a notification has nothing to take. */
  lemma NotUnnotified(s: Sys, t: nat, s': Sys)
    requires Inv(s) && ShutDown(s) && !Contended(s) && s.q.nTodo > 0 && LockStep(s, t, s') && s' != s && 1 <= t < |s.threads|
    ensures Awake(s.threads[t])
  {
    hide Conserved, Flags, Counters, MasterWaits, Answered, EnterStep, ReportStep, WakeStep;
    AfterLock(s, t, s');
    LockBounds(s, t, s');
    if s.threads[t] == Asleep(false) && s.q.items != [] {
      var u :| 0 <= u < |s.threads| && Awake(s.threads[u]);
      NoRivals(s, u, t);
    } else {
      TodoKept(s, t, s');
    }
  }

  /** A worker without rivals that holds checks, with an empty queue, holds all that is left. */
  lemma LoneHolder(s: Sys, t: nat)
    requires Inv(s) && ShutDown(s) && !Contended(s) && 1 <= t < |s.threads| && s.q.items == [] && Load(s.threads[t]) != []
    ensures |Load(s.threads[t])| == s.q.nTodo
  {
    hide Flags, Counters, MasterWaits, WorkersWake, Answered, Flying;
    var v := s.threads[t := Outside];
    Vacate(s, t);
    Sizes(Flying(v), Load(s.threads[t]));
    if |Flying(v)| > 0 {
      var w := FlyingSome(v);
      NoRivals(s, t, w);
    }
  }

  lemma NoRivals(s: Sys, a: nat, b: nat)
    requires !Contended(s)
    ensures s.q.nTodo > 0 ==> !Rivals(s, a, b)
  {
  }

  /** A run of changing steps at whose end a worker that was awake goes to sleep without a notification. */
  ghost predicate Strands(run: seq<Sys>, t: nat) { Steps(run) && |run| >= 2 && Dozes(run[|run| - 2], run[|run| - 1], t) }

  /** Without rivals every run stays calm. */
  lemma {:induction false} CalmRun(run: seq<Sys>)
    requires Steps(run) && Inv(run[0]) && ShutDown(run[0]) && !Contended(run[0])
    ensures Inv(run[|run| - 1]) && ShutDown(run[|run| - 1]) && !Contended(run[|run| - 1])
    ensures |run[|run| - 1].threads| == |run[0].threads| && forall t :: !Strands(run, t)
    ensures forall t :: 1 <= t < |run[0].threads| && run[|run| - 1].threads[t] == Asleep(false) ==> run[0].threads[t] == Asleep(false)
  {
    hide Inv, ShutDown, Contended, ThreadStep;
    if |run| > 1 {
      var n := |run| - 1;
      CalmRun(run[..n]);
      assert Changes(run[n - 1], run[n - 1 + 1]);
      var t: nat :| ThreadStep(run[n - 1], t, run[n]);
      CalmStep(run[n - 1], t, run[n]);
      StepKeeps(run[n - 1], t, run[n]);
    }
  }

  /**
   After a Quit with the master outside and without rivals, the changing steps are bounded, one is
   possible as long as a worker is awake, and at the end every worker has left but those that
   slept without a notification all along.
   */
  lemma ShutdownEnds(run: seq<Sys>)
    requires Steps(run) && Inv(run[0]) && ShutDown(run[0]) && !Contended(run[0])
    ensures |run| <= 6 * run[0].q.nTodo + 2 * |run[0].threads| + 1 && |run[|run| - 1].threads| == |run[0].threads|
    ensures Stirring(run[|run| - 1]) ==> Lively(run[|run| - 1])
    ensures forall t :: 1 <= t < |run[0].threads| && !Awake(run[|run| - 1].threads[t]) ==>
              run[|run| - 1].threads[t] == Outside || run[0].threads[t] == Asleep(false)
  {
    hide Inv, ShutDown, Contended, ThreadStep, Remaining;
    CalmRun(run);
    StepsShrink(run);
    RemainingBound(run[0]);
    var last := run[|run| - 1];
    if Stirring(last) {
      var t: nat :| t < |last.threads| && Awake(last.threads[t]);
      InvCounters(last);
      var s' := StepOf(last, t);
      assert Changes(last, s');
    }
  }

  lemma InvCounters(s: Sys)
    requires Inv(s)
    ensures Counters(s)
  {
  }

  /** A Quit notifies every sleeping worker, except one that raced it into its sleep. */
  lemma QuitNotifies(s: Sys, s': Sys, t: nat, s1: Sys)
    ensures QuitStep(s, s') ==> forall u :: 0 <= u < |s'.threads| ==> s'.threads[u] != Asleep(false)
    ensures RacingQuitStep(s, t, s1, s') ==> forall u :: 0 <= u < |s'.threads| && s'.threads[u] == Asleep(false) ==> u == t
  {
  }

  /** With rivals some run strands a worker that was awake. */
  lemma {:induction false} Stranding(s: Sys) returns (run: seq<Sys>, t: nat)
    requires Inv(s) && ShutDown(s) && Contended(s)
    ensures Strands(run, t) && run[0] == s
    decreases Remaining(s)
  {
    hide Inv, Remaining, Dozes, LockStep;
    var a: nat, b: nat :| Rivals(s, a, b);
    var s1, u, dozes := RivalStep(s, a, b);
    if dozes {
      run, t := [s, s1], u;
    } else {
      StepShrinks(s, u, s1);
      StepKeeps(s, u, s1);
      var rest;
      rest, t := Stranding(s1);
      run := [s] + rest;
      StepsMore(s, u, rest);
    }
  }

  lemma StepsMore(s: Sys, t: nat, rest: seq<Sys>)
    requires Steps(rest) && ThreadStep(s, t, rest[0]) && rest[0] != s
    ensures Steps([s] + rest)
  {
    hide ThreadStep;
    var run := [s] + rest;
    forall i | 0 <= i < |run| - 1
      ensures Changes(run[i], run[i + 1])
    {
      if i > 0 {
        assert Changes(rest[i - 1], rest[i - 1 + 1]);
      }
    }
  }

  /** Of two rivals one can go to sleep at once, or some step leaves them rivals. */
  lemma RivalStep(s: Sys, a: nat, b: nat) returns (s': Sys, t: nat, dozes: bool)
    requires Inv(s) && ShutDown(s) && s.q.nTodo > 0 && Rivals(s, a, b)
    ensures ThreadStep(s, t, s') && s' != s && (if dozes then Dozes(s, s', t) else ShutDown(s') && Contended(s'))
  {
    hide Inv, EnterStep, ReportStep, WakeStep, Contended;
    InvCounters(s);
    if s.q.items == [] {
      var w := SomeHolder(s);
      t := if a != w then a else b;
      s' := StepOf(s, t);
      dozes := !s.threads[t].Busy?;
      if dozes {
        AfterLock(s, t, s');
        TodoKept(s, t, s');
        TwoHolders(s, t, w);
      } else {
        Still(s', t, w);
      }
    } else if s.threads[b] == Asleep(false) {
      t, dozes := b, false;
      s' := WakeOf(s, b);
      AfterLock(s, b, s');
      TodoKept(s, b, s');
      Still(s', a, b);
    } else {
      t, dozes := a, false;
      s' := StepOf(s, a);
      if !s.threads[a].Busy? {
        AfterLock(s, a, s');
        TodoKept(s, a, s');
        HolderCounts(s, a);
      }
      Still(s', a, b);
    }
  }

  lemma Still(s: Sys, a: nat, b: nat)
    requires s.q.nTodo > 0 && Rivals(s, a, b)
    ensures Contended(s)
  {
  }

  lemma WakeOf(s: Sys, t: nat) returns (s': Sys)
    requires Counters(s) && t < |s.threads| && s.threads[t].Asleep? && s.q.items != []
    ensures LockStep(s, t, s') && s' != s
  {
    hide Counters, EnterStep, ReportStep;
    CountersFit(s, t);
    s' := Settle(s, t, Awaken(s.q));
    assert WakeStep(s, t, s');
    AfterLock(s, t, s');
  }

  lemma TwoHolders(s: Sys, t: nat, u: nat)
    requires Inv(s) && t < |s.threads| && u < |s.threads| && t != u
    ensures |Load(s.threads[t])| + |Load(s.threads[u])| <= s.q.nTodo
  {
    hide Flags, Counters, MasterWaits, WorkersWake, Answered, Flying, Count;
    Vacate(s, t);
    var v := s.threads[t := Outside];
    SettleCounts(v, u, v[u]);
    assert v[u := v[u]] == v;
    Sizes(Flying(v), Load(s.threads[t]));
    Sizes(Flying(v[u := Outside]), Load(v[u]));
  }

  /**
   After a Quit with the master outside, some run strands a worker that was awake if and only if
   checks are left and two workers compete for them.
   */
  lemma QuitExact(s: Sys)
    requires Inv(s) && ShutDown(s)
    ensures (exists run, t: nat :: Strands(run, t) && run[0] == s) <==> Contended(s)
  {
    hide Inv, ShutDown, Contended, Steps, Dozes;
    if Contended(s) {
      var run, t := Stranding(s);
    } else {
      forall run, t: nat | Strands(run, t)
        ensures run[0] != s
      {
        if run[0] == s {
          CalmRun(run);
        }
      }
    }
  }

  /** One worker holds the last check and another was just notified by the Quit. */
  function BusyAtQuit(): Sys {
    Sys(Queue([], 2, 1, 1, true, true, 128), [Outside, Busy([Check(1, true)], true), Asleep(true)], [Check(1, true)], [], [])
  }

  /** From there some run leaves the notified worker, or the busy one, asleep. */
  lemma QuitWhileBusy() returns (run: seq<Sys>, t: nat)
    ensures Inv(BusyAtQuit()) && ShutDown(BusyAtQuit()) && Strands(run, t) && run[0] == BusyAtQuit()
  {
    BusyInv();
    var s := BusyAtQuit();
    assert Rivals(s, 1, 2);
    Still(s, 1, 2);
    hide Inv, Strands, Contended;
    run, t := Stranding(s);
  }

  lemma BusyInv()
    ensures Inv(BusyAtQuit())
  {
    var s := BusyAtQuit();
    var c := Check(1, true);
    var ts := s.threads;
    var one, two := [Outside], [Outside, Busy([c], true)];
    assert ts[..2] == two && two[..1] == one && one[..0] == [];
    assert Flying(one) == multiset{};
    assert Flying(two) == multiset{c};
    assert Flying(ts) == multiset{c};
    assert Count(one, IsAsleep()) == 0 && Count(one, IsInside()) == 0;
    assert Count(two, IsAsleep()) == 0 && Count(two, IsInside()) == 1;
    assert multiset([c]) == multiset{c};
  }

  // ---------- the object ----------

  /** The shared fields; each method is what one thread does while it holds the mutex. */
  class SharedQueue {
    var queue: seq<Check>
    var nWorkers: int
    var nIdleWorkers: int
    var nTodo: int
    var fAllOk: bool
    var fQuit: bool
    const nBatchSize: nat

    ghost function Value(): Queue
      reads this
    {
      Queue(queue, nWorkers, nIdleWorkers, nTodo, fAllOk, fQuit, nBatchSize)
    }

    constructor (batchSize: nat)
      ensures Value() == Queue([], 0, 0, 0, true, false, batchSize)
    {
      queue, nWorkers, nIdleWorkers, nTodo, fAllOk, fQuit, nBatchSize := [], 0, 0, 0, true, false, batchSize;
    }

    /** Report the previous batch, or register on the first turn; then go on as in `Proceed`. */
    method Enter(nNow: nat, fOk: bool, fMaster: bool) returns (o: Outcome, notifyMaster: bool)
      requires nWorkers >= 0 && nIdleWorkers >= 0
      modifies this
      ensures var q := if nNow > 0 then Report(old(Value()), nNow, fOk) else Register(old(Value()));
              (Value(), o) == Decide(q, fMaster) && (notifyMaster <==> nNow > 0 && q.nTodo == 0 && !fMaster)
    {
      notifyMaster := false;
      if nNow > 0 {
        fAllOk := fAllOk && fOk;
        nTodo := nTodo - nNow;
        if nTodo == 0 && !fMaster {
          notifyMaster := true;
        }
      } else {
        nWorkers := nWorkers + 1;
      }
      o := Proceed(fMaster);
    }

    method Wake(fMaster: bool) returns (o: Outcome)
      requires nWorkers >= 0 && nIdleWorkers >= 1
      modifies this
      ensures (Value(), o) == Decide(Awaken(old(Value())), fMaster)
    {
      nIdleWorkers := nIdleWorkers - 1;
      o := Proceed(fMaster);
    }

    method Proceed(fMaster: bool) returns (o: Outcome)
      requires nWorkers >= 0 && nIdleWorkers >= 0
      modifies this
      ensures (Value(), o) == Decide(old(Value()), fMaster)
    {
      if queue == [] {
        if (fMaster || fQuit) && nTodo == 0 {
          nWorkers := nWorkers - 1;
          o := Return(fAllOk);
          if fMaster {
            fAllOk := true;
          }
        } else {
          nIdleWorkers := nIdleWorkers + 1;
          o := Sleep;
        }
      } else {
        var n := BatchSize(Queue(queue, nWorkers, nIdleWorkers, nTodo, fAllOk, fQuit, nBatchSize));
        ghost var was := queue;
        ghost var k := |was| - n;
        var vChecks := [];
        for i := 0 to n
          invariant queue == was[..|was| - i] && vChecks == Reverse(was[|was| - i..])
          invariant nWorkers == old(nWorkers) && nIdleWorkers == old(nIdleWorkers) && nTodo == old(nTodo)
          invariant fAllOk == old(fAllOk) && fQuit == old(fQuit)
        {
          ReverseGrow(was, |was| - i);
          assert was[..|was| - i][..|was| - i - 1] == was[..|was| - i - 1];
          vChecks := vChecks + [queue[|queue| - 1]];
          queue := queue[..|queue| - 1];
        }
        o := Take(vChecks, fAllOk);
      }
    }

    /** Queue checks; the caller notifies one worker for one check and all of them for more. */
    method Add(vChecks: seq<Check>) returns (notifyOne: bool, notifyAll: bool)
      modifies this
      ensures Value() == Append(old(Value()), vChecks)
      ensures (notifyOne <==> |vChecks| == 1) && (notifyAll <==> |vChecks| > 1)
    {
      for i := 0 to |vChecks|
        invariant Value() == old(Value()).(items := old(queue) + vChecks[..i])
      {
        queue := queue + [vChecks[i]];
        assert vChecks[..i + 1] == vChecks[..i] + [vChecks[i]];
      }
      nTodo := nTodo + |vChecks|;
      notifyOne, notifyAll := false, false;
      if |vChecks| == 1 {
        notifyOne := true;
      } else if |vChecks| > 1 {
        notifyAll := true;
      }
    }
  }

  lemma ReverseGrow(s: seq<Check>, k: nat)
    requires 0 < k <= |s|
    ensures Reverse(s[k - 1..]) == Reverse(s[k..]) + [s[k - 1]]
  {
  }

  /** Running a batch stops at the first check that fails. */
  method RunBatch(vChecks: seq<Check>, ok: bool) returns (fOk: bool, ghost ran: nat)
    ensures fOk <==> ok && AllGood(vChecks)
    ensures (!ok ==> ran == 0) && (fOk ==> ran == |vChecks|)
    ensures ok && !fOk ==> 0 < ran <= |vChecks| && AllGood(vChecks[..ran - 1]) && !vChecks[ran - 1].good
  {
    fOk, ran := ok, 0;
    for i := 0 to |vChecks|
      invariant fOk <==> ok && AllGood(vChecks[..i])
      invariant !ok ==> ran == 0
      invariant fOk ==> ran == i
      invariant ok && !fOk ==> 0 < ran <= i && AllGood(vChecks[..ran - 1]) && !vChecks[ran - 1].good
    {
      if fOk {
        fOk, ran := vChecks[i].good, i + 1;
      }
    }
    assert vChecks[..|vChecks|] == vChecks;
  }
}
