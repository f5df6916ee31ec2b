/** The lists over whole runs: who is woken by what, and that every list is in order of arrival. */
module ThreadsQueues {
  import opened Base
  import opened Threads
  import opened ThreadsInv
  import opened ThreadsKin
  import opened ThreadsRun
  import opened ThreadsFamily

  // ---- waking ----

  /** The step ends the waiting on c: a broadcast, the exit of a child of the thread c belongs to, or the owner's last
      release of the lock c belongs to. */
  ghost predicate Wakes(s: State, a: Action, c: Cond)
    requires s.tp in s.thr && Enabled(s, a)
  {
    || a == Interrupt(c) || a == DoBroadcast(c)
    || (a == DoExit && s.thr[s.tp].parent.Some? && c == ChildExit(s.thr[s.tp].parent.value))
    || (c.LockCv? && a == DoRelease(c.lock) && s.locks[c.lock] == Lock(Some(s.tp), 1))
  }

  /** What a step does to the list of c. */
  lemma StepWaiters(s: State, a: Action, c: Cond)
    requires s.tp in s.thr && Enabled(s, a) && LocksOk(s)
    ensures Waiters(Step(s, a), c) ==
      if Wakes(s, a, c) then [] else if a == DoList && s.thr[s.tp].cond == Some(c) then Waiters(s, c) + [s.tp] else Waiters(s, c)
  {
    hide LocksOk, Acquire, Release, Join, FreeSlot, Unlink;
    match a
    case DoRelease(l) =>
      LockFacts(s, l);
      ReleaseWaiters(s, l, c);
    case DoAcquire(l) => SameWaiters(s, l, c);
    case DoJoin(tid) => JoinWaiters(s, tid, c);
    case _ =>
  }

  lemma LockFacts(s: State, l: nat)
    requires LocksOk(s) && l in s.locks
    ensures LockOk(s, l)
  {
  }

  lemma SameWaiters(s: State, l: nat, c: Cond)
    requires s.tp in s.thr && l in s.locks
    ensures Waiters(Acquire(s, l), c) == Waiters(s, c)
  {
  }

  lemma JoinWaiters(s: State, tid: nat, c: Cond)
    requires s.tp in s.thr
    ensures Waiters(Join(s, tid), c) == Waiters(s, c)
  {
    hide AnyMatch, FirstReapable;
  }

  lemma ReleaseWaiters(s: State, l: nat, c: Cond)
    requires s.tp in s.thr && l in s.locks && LockOk(s, l)
    ensures Waiters(Release(s, l), c) == if c == LockCv(l) && s.locks[l] == Lock(Some(s.tp), 1) then [] else Waiters(s, c)
  {
    hide Unlink;
  }

  /** A listed waiter goes on waiting until a step wakes its condition; then it is ready. */
  lemma WokenExactly(s: State, a: Action, c: Cond, u: nat)
    requires Inv(s) && Enabled(s, a) && u in Waiters(s, c)
    ensures var s' := Step(s, a);
      && u in s'.thr
      && (Wakes(s, a, c) ==> u in s'.ready && s'.thr[u].st == Ready)
      && (!Wakes(s, a, c) ==> u in Waiters(s', c) && s'.thr[u].st == Waiting)
  {
    StepInv(s, a);
    hide Inv, ListsOk, StatesOk, LocksOk;
    InvLists(s);
    StepWaiters(s, a, c);
    var s' := Step(s, a);
    InvLists(s');
    if Wakes(s, a, c) {
      WokenReady(s, a, c);
      hide Step, Waiters, Wakes;
      ReadyFacts(s', u);
    } else {
      hide Step, Waiters, Wakes;
      WaiterFacts(s', c, u);
    }
  }

  lemma InvLists(s: State)
    requires Inv(s)
    ensures s.tp in s.thr && ListsOk(s) && StatesOk(s) && IdleOk(s) && LocksOk(s)
  {
  }

  lemma WaiterFacts(s: State, c: Cond, u: nat)
    requires ListsOk(s) && u in Waiters(s, c)
    ensures u in s.thr && s.thr[u].st == Waiting && s.thr[u].cond == Some(c)
  {
    hide Waiters, NoDup;
  }

  lemma ReadyFacts(s: State, u: nat)
    requires ListsOk(s) && u in s.ready
    ensures u in s.thr && s.thr[u].st == Ready
  {
    hide Waiters, NoDup;
  }

  lemma WokenReady(s: State, a: Action, c: Cond)
    requires s.tp in s.thr && Enabled(s, a) && Wakes(s, a, c)
    ensures forall u :: u in Waiters(s, c) ==> u in Step(s, a).ready
  {
    hide Unlink;
  }

  // ---- the waiting lists ----

  /** When each thread was last listed, after a step made at time t. */
  ghost function ListedNext(s: State, a: Action, listed: map<nat, nat>, t: nat): map<nat, nat> {
    if a == DoList then listed[s.tp := t] else listed
  }

  ghost function ListedAfter(s: State, acts: seq<Action>, listed: map<nat, nat>, t: nat): map<nat, nat>
    requires Possible(s, acts)
    decreases |acts|
  {
    if acts == [] then listed else ListedAfter(Step(s, acts[0]), acts[1..], ListedNext(s, acts[0], listed, t), t + 1)
  }

  /** The list is in the order of these times, all before t. */
  ghost predicate InOrder(w: seq<nat>, at: map<nat, nat>, t: nat) {
    && (forall i :: 0 <= i < |w| ==> w[i] in at && at[w[i]] < t)
    && forall i, j :: 0 <= i < j < |w| ==> at[w[i]] < at[w[j]]
  }

  ghost predicate Arrivals(s: State, listed: map<nat, nat>, t: nat) {
    forall c :: InOrder(Waiters(s, c), listed, t)
  }

  lemma StepArrivals(s: State, a: Action, listed: map<nat, nat>, t: nat)
    requires Inv(s) && Enabled(s, a) && Arrivals(s, listed, t)
    ensures Arrivals(Step(s, a), ListedNext(s, a, listed, t), t + 1)
  {
    hide Inv, Step, Waiters, Wakes, Enabled, ListsOk, StatesOk, LocksOk;
    InvLists(s);
    forall c ensures InOrder(Waiters(Step(s, a), c), ListedNext(s, a, listed, t), t + 1) {
      ListerApart(s, a, c);
      StepWaiters(s, a, c);
      assert InOrder(Waiters(s, c), listed, t);
    }
  }

  lemma ListerApart(s: State, a: Action, c: Cond)
    requires s.tp in s.thr && ListsOk(s) && StatesOk(s) && Enabled(s, a)
    ensures a == DoList ==> s.tp !in Waiters(s, c)
  {
    assert PcOk(s, s.tp);
    hide Waiters, NoDup, StatesOk;
  }

  lemma {:induction false} RunArrivals(s: State, acts: seq<Action>, listed: map<nat, nat>, t: nat)
    requires Inv(s) && Possible(s, acts) && Arrivals(s, listed, t)
    ensures Arrivals(After(s, acts), ListedAfter(s, acts, listed, t), t + |acts|)
    decreases |acts|
  {
    if acts != [] {
      StepInv(s, acts[0]);
      StepArrivals(s, acts[0], listed, t);
      hide Inv, Step, Arrivals, ListedNext;
      RunArrivals(Step(s, acts[0]), acts[1..], ListedNext(s, acts[0], listed, t), t + 1);
    }
  }

  /** In every run from the start the threads on a condition's list stand in the order in which they came. */
  lemma WaitersInOrder(locks: set<nat>, acts: seq<Action>, c: Cond, i: nat, j: nat)
    requires Possible(Start(locks), acts) && i < j < |Waiters(After(Start(locks), acts), c)|
    ensures var w := Waiters(After(Start(locks), acts), c); var at := ListedAfter(Start(locks), acts, map[], 0);
      w[i] in at && w[j] in at && at[w[i]] < at[w[j]]
  {
    var s := Start(locks);
    StartInv(locks);
    assert forall d :: Waiters(s, d) == [];
    assert Arrivals(s, map[], 0);
    RunArrivals(s, acts, map[], 0);
    assert InOrder(Waiters(After(s, acts), c), ListedAfter(s, acts, map[], 0), |acts|);
  }

  // ---- the ready list ----

  /** A step takes at most the head off the ready list, to run it, and puts threads only behind the others. */
  lemma StepReady(s: State, a: Action) returns (more: seq<nat>)
    requires Inv(s) && Enabled(s, a)
    ensures var s' := Step(s, a);
      if a == DoYield || a == DoSuspend
      then more == Requeued(s) && s.ready + more != [] && s'.tp == (s.ready + more)[0] && s'.ready == (s.ready + more)[1..]
      else s'.ready == s.ready + more && s'.tp == s.tp
  {
    hide Inv, Step, Enabled;
    InvTp(s);
    if a == DoYield || a == DoSuspend {
      more := Requeued(s);
      SuspendReadies(s, a);
    } else {
      OtherReadies(s, a);
      more := Step(s, a).ready[|s.ready|..];
    }
  }

  /** The thread that suspends queues up again when it only yields. */
  ghost function Requeued(s: State): seq<nat> {
    if s.tp in s.thr && s.thr[s.tp].st == Self then [s.tp] else []
  }

  lemma SuspendReadies(s: State, a: Action)
    requires Inv(s) && Enabled(s, a) && (a == DoYield || a == DoSuspend)
    ensures s.ready + Requeued(s) != [] && Step(s, a).tp == (s.ready + Requeued(s))[0] && Step(s, a).ready == (s.ready + Requeued(s))[1..]
  {
    hide Inv, Waiters, ListsOk, LocksOk;
    InvLists(s);
    assert PcOk(s, s.tp);
    hide StatesOk;
    SomeoneReady(s);
    assert Requeue(s).ready == s.ready + Requeued(s);
    assert Step(s, a) == Suspend(s);
    hide Step;
  }

  lemma OtherReadies(s: State, a: Action)
    requires s.tp in s.thr && Enabled(s, a) && a != DoYield && a != DoSuspend
    ensures s.ready <= Step(s, a).ready && Step(s, a).tp == s.tp
  {
    hide Waiters, AnyMatch, FirstReapable, Unlink, FreeSlot;
  }

  /** Since when each thread on the ready list has been there, after a step made at time t. */
  ghost function SinceNext(s: State, a: Action, since: map<nat, nat>, t: nat): map<nat, nat>
    requires s.tp in s.thr && Enabled(s, a)
  {
    map u | u in Step(s, a).ready :: if u in s.ready && u in since then since[u] else t
  }

  ghost function SinceAfter(s: State, acts: seq<Action>, since: map<nat, nat>, t: nat): map<nat, nat>
    requires Possible(s, acts)
    decreases |acts|
  {
    if acts == [] then since else SinceAfter(Step(s, acts[0]), acts[1..], SinceNext(s, acts[0], since, t), t + 1)
  }

  /** The ready list is in the order of these times, all before t. */
  ghost predicate Patient(q: seq<nat>, since: map<nat, nat>, t: nat) {
    && (forall i :: 0 <= i < |q| ==> q[i] in since && since[q[i]] < t)
    && forall i, j :: 0 <= i < j < |q| ==> since[q[i]] <= since[q[j]]
  }

  /** Threads put behind the others at time t, with the head perhaps taken off. */
  lemma PatientMore(q: seq<nat>, more: seq<nat>, q': seq<nat>, since: map<nat, nat>, since': map<nat, nat>, t: nat)
    requires Patient(q, since, t) && (q' == q + more || (q + more != [] && q' == (q + more)[1..]))
    requires forall x :: x in more ==> x !in q
    requires forall x :: x in q' ==> x in since' && since'[x] == if x in q && x in since then since[x] else t
    ensures Patient(q', since', t + 1)
  {
    var d := |q| + |more| - |q'|;
    forall i | 0 <= i < |q'| ensures q'[i] == (q + more)[i + d] && (i + d < |q| ==> since'[q'[i]] == since[q[i + d]]) && (i + d >= |q| ==> since'[q'[i]] == t) {
      assert q'[i] in q';
    }
  }

  lemma StepPatient(s: State, a: Action, since: map<nat, nat>, t: nat)
    requires Inv(s) && Enabled(s, a) && Patient(s.ready, since, t)
    ensures Patient(Step(s, a).ready, SinceNext(s, a, since, t), t + 1)
  {
    StepInv(s, a);
    hide Inv, Step, Patient, Enabled, StatesOk, LocksOk;
    InvLists(s);
    InvLists(Step(s, a));
    var more := StepReady(s, a);
    if a == DoYield || a == DoSuspend {
      if s.thr[s.tp].st == Self {
        RunnerUnlisted(s);
      }
    } else {
      NewcomersApart(s.ready, more);
    }
    hide ListsOk;
    PatientMore(s.ready, more, Step(s, a).ready, since, SinceNext(s, a, since, t), t);
  }

  lemma NewcomersApart(q: seq<nat>, more: seq<nat>)
    requires NoDup(q + more)
    ensures forall x :: x in more ==> x !in q
  {
    var all := q + more;
    forall x | x in more ensures x !in q {
      var k :| 0 <= k < |more| && more[k] == x;
      assert all[|q| + k] == x;
      forall i | 0 <= i < |q| ensures q[i] != x {
        assert q[i] == all[i];
      }
    }
  }

  lemma RunnerUnlisted(s: State)
    requires s.tp in s.thr && ListsOk(s) && s.thr[s.tp].st == Self
    ensures s.tp !in s.ready
  {
    hide Waiters, NoDup;
  }

  lemma {:induction false} RunPatient(s: State, acts: seq<Action>, since: map<nat, nat>, t: nat)
    requires Inv(s) && Possible(s, acts) && Patient(s.ready, since, t)
    ensures Patient(After(s, acts).ready, SinceAfter(s, acts, since, t), t + |acts|)
    decreases |acts|
  {
    if acts != [] {
      StepInv(s, acts[0]);
      StepPatient(s, acts[0], since, t);
      hide Inv, Step, Patient, SinceNext;
      RunPatient(Step(s, acts[0]), acts[1..], SinceNext(s, acts[0], since, t), t + 1);
    }
  }

  /** In every run from the start, whenever a thread suspends while others are ready, the one that runs next has been
      ready at least as long as every other. */
  lemma LongestReadyRuns(locks: set<nat>, acts: seq<Action>, a: Action, u: nat)
    requires Possible(Start(locks), acts)
    requires var s := After(Start(locks), acts); s.tp in s.thr && Enabled(s, a) && (a == DoYield || a == DoSuspend) && u in s.ready
    ensures var s := After(Start(locks), acts); var since := SinceAfter(Start(locks), acts, map[IDLE := 0], 1); var next := Step(s, a).tp;
      next in s.ready && next in since && u in since && since[next] <= since[u]
  {
    var s0 := Start(locks);
    StartInv(locks);
    assert Patient(s0.ready, map[IDLE := 0], 1);
    RunPatient(s0, acts, map[IDLE := 0], 1);
    RunInv(s0, acts);
    hide Inv, Start;
    var s := After(s0, acts);
    var more := StepReady(s, a);
    hide Step;
    var k :| 0 <= k < |s.ready| && s.ready[k] == u;
    assert s.ready[0] == (s.ready + more)[0];
  }
}
