/** Locks, and whole runs of the thread manager. */
module ThreadsRun {
  import opened Base
  import opened Threads
  import opened ThreadsInv
  import opened ThreadsKin

  // ---- taking a lock ----

  lemma TakeLocks(s: State, l: nat)
    requires s.tp in s.thr && LocksOk(s) && l in s.locks && s.locks[l].owner.None?
    ensures LocksOk(Take(s, l))
  {
    var s' := Take(s, l);
    assert forall d :: Waiters(s', d) == Waiters(s, d);
    hide Waiters;
    assert HoldsOk(s, s.tp) && LockOk(s, l);
    forall u | u in s'.thr ensures HoldsOk(s', u) {
      assert HoldsOk(s, u);
    }
    forall k | k in s'.locks ensures LockOk(s', k) {
      assert LockOk(s, k);
    }
  }

  lemma TakeStates(s: State, l: nat)
    requires s.tp in s.thr && ListsOk(s) && StatesOk(s) && IdleOk(s) && s.thr[s.tp].pc.Code?
    ensures ListsOk(Take(s, l)) && StatesOk(Take(s, l)) && IdleOk(Take(s, l))
  {
    var s' := Take(s, l);
    assert forall d :: Waiters(s', d) == Waiters(s, d);
    hide Waiters, NoDup;
    forall u | u in s'.thr ensures PlacedOk(s', u) && PcOk(s', u) {
      assert PlacedOk(s, u) && PcOk(s, u);
    }
  }

  lemma TakeInv(s: State, l: nat)
    requires Inv(s) && s.thr[s.tp].pc.Code? && l in s.locks && s.locks[l].owner.None?
    ensures Inv(Take(s, l))
  {
    hide TableOk, ListsOk, StatesOk, IdleOk, ParentsOk, JoinsOk, LocksOk, JoinOk, Waiters;
    TpIn(s);
    var s' := Take(s, l);
    SelfUnlisted(s);
    TakeStates(s, l);
    TakeLocks(s, l);
    KinTable(s, s');
    JoinOne(s, s', s.tp);
    KinJoins(s, s', s.tp);
  }

  /** Only the count of l changes. */
  lemma CountInv(s: State, l: nat, n: nat)
    requires Inv(s) && l in s.locks && s.locks[l].owner.Some? && n >= 1
    ensures Inv(s.(locks := s.locks[l := Lock(s.locks[l].owner, n)]))
  {
    var s' := s.(locks := s.locks[l := Lock(s.locks[l].owner, n)]);
    hide TableOk, ListsOk, StatesOk, IdleOk, ParentsOk, JoinsOk, JoinOk, LocksOk, Waiters;
    TpIn(s);
    CountLocks(s, l, n);
    KinTable(s, s');
    JoinOne(s, s', s.tp);
    KinJoins(s, s', s.tp);
    CountStates(s, s');
  }

  lemma CountStates(s: State, s': State)
    requires s.tp in s.thr && ListsOk(s) && StatesOk(s) && IdleOk(s) && s' == s.(locks := s'.locks)
    ensures ListsOk(s') && StatesOk(s') && IdleOk(s')
  {
    assert forall d :: Waiters(s', d) == Waiters(s, d);
    hide Waiters, NoDup;
    forall u | u in s'.thr ensures PlacedOk(s', u) && PcOk(s', u) {
      assert PlacedOk(s, u) && PcOk(s, u);
    }
  }

  lemma CountLocks(s: State, l: nat, n: nat)
    requires LocksOk(s) && l in s.locks && s.locks[l].owner.Some? && n >= 1
    ensures LocksOk(s.(locks := s.locks[l := Lock(s.locks[l].owner, n)]))
  {
    var s' := s.(locks := s.locks[l := Lock(s.locks[l].owner, n)]);
    assert forall d :: Waiters(s', d) == Waiters(s, d);
    hide Waiters;
    forall u | u in s'.thr ensures HoldsOk(s', u) {
      assert HoldsOk(s, u);
    }
    forall k | k in s'.locks ensures LockOk(s', k) {
      assert LockOk(s, k);
    }
  }

  lemma InvTp(s: State)
    requires Inv(s)
    ensures s.tp in s.thr
  {
  }

  lemma AcquireInv(s: State, l: nat)
    requires Inv(s) && s.thr[s.tp].pc.Code? && s.tp != IDLE && l in s.locks
    ensures Inv(Acquire(s, l))
  {
    hide Inv, Take, MarkWait;
    InvTp(s);
    if s.locks[l].owner == Some(s.tp) && s.thr[s.tp].pc == Code(Caller) {
      CountInv(s, l, s.locks[l].count + 1);
    } else if s.locks[l].owner.Some? {
      MarkWaitInv(s, LockCv(l), Locking(l));
    } else {
      TakeInv(s, l);
    }
  }

  // ---- releasing a lock ----

  lemma {:induction false} UnlinkIs(ls: seq<nat>, l: nat)
    requires NoDup(ls)
    ensures NoDup(Unlink(ls, l)) && forall k :: k in Unlink(ls, l) <==> k in ls && k != l
  {
    if ls != [] && ls[0] != l {
      TailDistinct(ls);
      UnlinkIs(ls[1..], l);
      NoDupAppend([ls[0]], Unlink(ls[1..], l));
    } else if ls != [] {
      TailDistinct(ls);
    }
  }

  /** The lock given up, its waiters not yet woken. */
  function Dropped(s: State, l: nat): State
    requires s.tp in s.thr && l in s.locks
  {
    Put(s, s.tp, s.thr[s.tp].(locks := Unlink(s.thr[s.tp].locks, l))).(locks := s.locks[l := Lock(None, 0)])
  }

  lemma DroppedStates(s: State, l: nat)
    requires s.tp in s.thr && l in s.locks && ListsOk(s) && StatesOk(s) && IdleOk(s) && s.thr[s.tp].pc.Code?
    ensures ListsOk(Dropped(s, l)) && StatesOk(Dropped(s, l)) && IdleOk(Dropped(s, l))
  {
    var s' := Dropped(s, l);
    assert forall d :: Waiters(s', d) == Waiters(s, d);
    hide Waiters, NoDup, Unlink;
    forall u | u in s'.thr ensures PlacedOk(s', u) && PcOk(s', u) {
      assert PlacedOk(s, u) && PcOk(s, u);
    }
  }

  lemma DroppedLocks(s: State, l: nat)
    requires s.tp in s.thr && l in s.locks && LocksOk(s) && s.locks[l].owner == Some(s.tp) && s.thr[s.tp].pc.Code?
    ensures forall k :: k in s.locks ==> LockOk(Dropped(s, l), k) || (k == l && Dropped(s, l).locks[k] == Lock(None, 0))
    ensures forall u :: u in s.thr ==> HoldsOk(Dropped(s, l), u)
    ensures forall k :: Waiters(Dropped(s, l), LockCv(k)) != [] ==> k in s.locks
  {
    var s' := Dropped(s, l);
    assert forall d :: Waiters(s', d) == Waiters(s, d);
    hide Waiters;
    assert HoldsOk(s, s.tp);
    UnlinkIs(s.thr[s.tp].locks, l);
    hide Unlink;
    forall u | u in s.thr ensures HoldsOk(s', u) {
      assert HoldsOk(s, u);
    }
    forall k | k in s.locks && k != l ensures LockOk(s', k) {
      assert LockOk(s, k);
    }
  }

  lemma ReleaseInv(s: State, l: nat)
    requires Inv(s) && s.thr[s.tp].pc == Code(Caller) && l in s.locks
    ensures Inv(Release(s, l))
  {
    hide Inv, Unlink, Broadcast;
    InvTp(s);
    if s.locks[l].owner == Some(s.tp) {
      if s.locks[l].count > 1 {
        CountInv(s, l, s.locks[l].count - 1);
      } else {
        FreeInv(s, l);
      }
    }
  }

  lemma FreeInv(s: State, l: nat)
    requires Inv(s) && s.thr[s.tp].pc == Code(Caller) && l in s.locks && s.locks[l].owner == Some(s.tp)
    ensures Inv(Broadcast(Dropped(s, l), LockCv(l)))
  {
    hide TableOk, ListsOk, StatesOk, IdleOk, ParentsOk, JoinsOk, LocksOk, JoinOk, Waiters, Broadcast, LockOk, HoldsOk, Unlink;
    TpIn(s);
    var s1, c := Dropped(s, l), LockCv(l);
    SelfUnlisted(s);
    DroppedStates(s, l);
    DroppedLocks(s, l);
    KinTable(s, s1);
    JoinOne(s, s1, s.tp);
    KinJoins(s, s1, s.tp);
    JoinsParts(s1);
    BroadcastTable(s1, c);
    BroadcastLists(s1, c);
    BroadcastStates(s1, c);
    BroadcastTree(s1, c);
    BroadcastJoins(s1, c);
    BroadcastLocks(s1, c);
  }

  lemma JoinsParts(s: State)
    requires JoinsOk(s)
    ensures forall u :: u in s.thr ==> JoinOk(s, u)
  {
  }

  // ---- every run ----

  /** thrmgr_init: main runs, idle is ready. */
  function Start(locks: set<nat>): State {
    State(map[MAIN := Thread(0, Self, None, None, Code(Caller), []), IDLE := Thread(NTHR - 1, Ready, None, Some(MAIN), Code(Caller), [])],
          seq(NTHR, i => if i == 0 then Some(MAIN) else if i == NTHR - 1 then Some(IDLE) else None),
          [IDLE], map[], map l | l in locks :: Lock(None, 0), MAIN, 2)
  }

  lemma StartInv(locks: set<nat>)
    ensures Inv(Start(locks))
  {
    StartTable(locks);
    StartLists(locks);
    StartLocks(locks);
    hide TableOk, ListsOk, StatesOk, IdleOk, ParentsOk, JoinsOk, LocksOk;
  }

  lemma StartTable(locks: set<nat>)
    ensures TableOk(Start(locks)) && ParentsOk(Start(locks))
  {
    var s := Start(locks);
    assert s.thr.Keys == {MAIN, IDLE};
  }

  lemma StartLists(locks: set<nat>)
    ensures Start(locks).tp in Start(locks).thr && ListsOk(Start(locks)) && StatesOk(Start(locks)) && IdleOk(Start(locks)) && JoinsOk(Start(locks))
  {
    var s := Start(locks);
    assert s.thr.Keys == {MAIN, IDLE};
    assert forall c :: Waiters(s, c) == [];
    hide Waiters;
  }

  lemma StartLocks(locks: set<nat>)
    ensures LocksOk(Start(locks))
  {
    var s := Start(locks);
    assert s.thr.Keys == {MAIN, IDLE};
    assert forall c :: Waiters(s, c) == [];
    hide Waiters;
  }

  /** Every step keeps the invariant. */
  lemma StepInv(s: State, a: Action)
    requires Inv(s) && Enabled(s, a)
    ensures Inv(Step(s, a))
  {
    hide Inv, Broadcast, Suspend, MarkWait, ListWait, SpawnMark, SpawnInsert, Exit, Join, Acquire, Release;
    InvTp(s);
    match a
    case Interrupt(c) => BroadcastInv(s, c);
    case DoBroadcast(c) => BroadcastInv(s, c);
    case DoYield => SuspendInv(s);
    case DoSuspend => SuspendInv(s);
    case DoWait(c) => MarkWaitInv(s, c, Caller);
    case DoList => ListWaitInv(s);
    case DoSpawn => SpawnMarkInv(s);
    case DoInsert => SpawnInsertInv(s);
    case DoExit => ExitInv(s);
    case DoJoin(tid) => JoinInv(s, tid);
    case DoAcquire(l) => AcquireInv(s, l);
    case DoRelease(l) => ReleaseInv(s, l);
  }

  /** Each action could happen when its turn came. */
  ghost predicate Possible(s: State, acts: seq<Action>)
    decreases |acts|
  {
    acts != [] ==> s.tp in s.thr && Enabled(s, acts[0]) && Possible(Step(s, acts[0]), acts[1..])
  }

  ghost function After(s: State, acts: seq<Action>): State
    requires Possible(s, acts)
    decreases |acts|
  {
    if acts == [] then s else After(Step(s, acts[0]), acts[1..])
  }

  /** For every interleaving of thread steps and interrupts. */
  lemma {:induction false} RunInv(s: State, acts: seq<Action>)
    requires Inv(s) && Possible(s, acts)
    ensures Inv(After(s, acts))
    decreases |acts|
  {
    if acts != [] {
      StepInv(s, acts[0]);
      hide Inv;
      RunInv(Step(s, acts[0]), acts[1..]);
    }
  }

  // ---- what the invariant means ----

  /** The number of lists a thread is on, counting repetitions. */
  ghost predicate OnOneList(s: State, u: nat) {
    && NoDup(s.ready) && (forall c :: NoDup(Waiters(s, c)))
    && (u in s.ready ==> forall c :: u !in Waiters(s, c))
    && forall c, d :: u in Waiters(s, c) && u in Waiters(s, d) ==> c == d
  }

  lemma OneList(s: State, u: nat)
    requires ListsOk(s) && u in s.thr
    ensures OnOneList(s, u)
    ensures u in s.ready ==> s.thr[u].st == Ready
    ensures forall c :: u in Waiters(s, c) ==> s.thr[u].st == Waiting && s.thr[u].cond == Some(c)
  {
    hide Waiters, NoDup;
    forall c | u in Waiters(s, c) ensures s.thr[u].st == Waiting && s.thr[u].cond == Some(c) {
    }
  }

  /** A thread is on one list at most and once; READY means on the ready list; a waiter is WAITING on that
      condition; EXITED means on none. */
  lemma ListsMeaning(s: State, u: nat)
    requires Inv(s) && u in s.thr
    ensures OnOneList(s, u)
    ensures u in s.ready ==> s.thr[u].st == Ready
    ensures s.thr[u].st == Ready ==> u in s.ready || s.thr[s.tp].pc == SpawnMarked(u)
    ensures forall c :: u in Waiters(s, c) ==> s.thr[u].st == Waiting && s.thr[u].cond == Some(c)
    ensures s.thr[u].st == Waiting && u != s.tp ==> s.thr[u].cond.Some? && u in Waiters(s, s.thr[u].cond.value)
    ensures s.thr[u].st == Exited ==> u !in s.ready && forall c :: u !in Waiters(s, c)
    ensures s.thr[u].st == Self ==> u == s.tp
  {
    hide Waiters, NoDup, TableOk, ListsOk, JoinsOk, LocksOk, ParentsOk, OnOneList, IdleOk;
    InvTp(s);
    OneList(s, u);
    assert PlacedOk(s, u);
    hide StatesOk;
  }

  /** No two threads hold a lock, and a lock nobody holds has nobody waiting. */
  lemma LocksMeaning(s: State, l: nat, u: nat, v: nat)
    requires Inv(s) && u in s.thr && v in s.thr && l in s.thr[u].locks
    ensures l in s.locks && s.locks[l].owner == Some(u) && s.locks[l].count >= 1
    ensures l in s.thr[v].locks ==> u == v
    ensures forall i, j :: 0 <= i < |s.thr[u].locks| && 0 <= j < |s.thr[u].locks| && s.thr[u].locks[i] == l == s.thr[u].locks[j] ==> i == j
  {
    hide TableOk, ListsOk, StatesOk, ParentsOk, JoinsOk;
    assert HoldsOk(s, u) && HoldsOk(s, v);
    assert LockOk(s, l);
  }

  lemma NobodyStranded(s: State, l: nat)
    requires Inv(s) && l in s.locks && s.locks[l].owner.None?
    ensures Waiters(s, LockCv(l)) == [] && forall u :: u in s.thr ==> l !in s.thr[u].locks
  {
    hide TableOk, ListsOk, StatesOk, ParentsOk, JoinsOk;
    assert LockOk(s, l);
    forall u | u in s.thr ensures l !in s.thr[u].locks {
      assert HoldsOk(s, u);
    }
  }

  /** Waiting for a lock is not queueing for it: whoever asks first once it is free gets it, so a thread that
      releases a lock and asks again overtakes everybody who was waiting. */
  lemma Overtakes(s: State, l: nat)
    requires Inv(s) && s.thr[s.tp].pc == Code(Caller) && l in s.locks && s.locks[l] == Lock(Some(s.tp), 1)
    ensures var s1 := Release(s, l);
      && s1.tp == s.tp && s.tp in s1.thr && l in s1.locks && s1.locks[l].owner.None? && s1.thr[s.tp].pc == Code(Caller)
      && Acquire(s1, l).locks[l].owner == Some(s.tp)
      && forall u :: u in Waiters(s, LockCv(l)) ==> u in s1.ready && u != s.tp
  {
    InvTp(s);
    SelfUnlisted(s);
    hide Inv, Unlink;
  }

  /** p is u, or its parent, or its parent's parent, and so on. */
  ghost predicate Ancestor(s: State, u: nat, p: nat)
    decreases u
  {
    u == p || (u in s.thr && s.thr[u].parent.Some? && s.thr[u].parent.value < u && Ancestor(s, s.thr[u].parent.value, p))
  }

  /** Following parents from any thread of the table ends at main. */
  lemma {:induction false} RootedAtMain(s: State, u: nat)
    requires ParentsOk(s) && u in s.thr
    ensures Ancestor(s, u, MAIN)
    decreases u
  {
    if u != MAIN {
      RootedAtMain(s, s.thr[u].parent.value);
    }
  }

  /** A thread blocked in thread_join has a matching child that has not exited. */
  lemma JoinerHasChild(s: State, u: nat)
    requires Inv(s) && u in s.thr && s.thr[u].st == Waiting && s.thr[u].cond == Some(ChildExit(u))
    ensures ContOf(s.thr[u].pc).Joining? && exists c :: LiveChild(s, u, ContOf(s.thr[u].pc).tid, c)
  {
    hide TableOk, ListsOk, StatesOk, ParentsOk, LocksOk;
    assert JoinOk(s, u);
  }

  /** The idle thread is running or on the ready list, so a thread that suspends finds another to run. */
  lemma NextExists(s: State)
    requires Inv(s) && MaySuspend(s)
    ensures Requeue(s).ready != [] && Suspend(s).tp == Requeue(s).ready[0] && Suspend(s).thr[Suspend(s).tp].st == Self
    ensures s.thr[IDLE].st == Self || IDLE in s.ready
  {
    InvTp(s);
    hide TableOk, ParentsOk, JoinsOk, LocksOk, Waiters;
    SomeoneReady(s);
    assert PlacedOk(s, IDLE);
  }

  lemma StepBirths(s: State, a: Action)
    requires Inv(s) && Enabled(s, a)
    ensures s.births <= Step(s, a).births
    ensures forall u :: u in Step(s, a).thr && u !in s.thr ==> u >= s.births
  {
    hide Inv, Waiters, Broadcast, Suspend, SpawnMark, Join, Release, Exit, Acquire, ListWait, MarkWait, SpawnInsert;
    InvTp(s);
    match a
    case Interrupt(c) => BroadcastBirths(s, c);
    case DoBroadcast(c) => BroadcastBirths(s, c);
    case DoYield => SuspendBirths(s);
    case DoSuspend => SuspendBirths(s);
    case DoWait(c) => NoBirth(s, c, Caller);
    case DoList => ListBirths(s);
    case DoSpawn => SpawnBirths(s);
    case DoInsert => ListBirths(s);
    case DoExit => ExitBirths(s);
    case DoJoin(tid) => JoinBirths(s, tid);
    case DoAcquire(l) => AcquireBirths(s, l);
    case DoRelease(l) => ReleaseBirths(s, l);
  }

  /** No thread is added. */
  ghost predicate Barren(s: State, s': State) {
    s'.births == s.births && forall u :: u in s'.thr ==> u in s.thr
  }

  lemma BroadcastBirths(s: State, c: Cond)
    ensures Barren(s, Broadcast(s, c))
  {
    hide Waiters;
  }

  lemma SuspendBirths(s: State)
    requires s.tp in s.thr
    ensures Barren(s, Suspend(s))
  {
  }

  lemma NoBirth(s: State, c: Cond, k: Cont)
    requires s.tp in s.thr
    ensures Barren(s, MarkWait(s, c, k))
  {
  }

  lemma ListBirths(s: State)
    requires s.tp in s.thr
    ensures s.thr[s.tp].pc.WaitMarked? && s.thr[s.tp].cond.Some? ==> Barren(s, ListWait(s))
    ensures s.thr[s.tp].pc.SpawnMarked? ==> Barren(s, SpawnInsert(s))
  {
    hide Waiters;
  }

  lemma SpawnBirths(s: State)
    requires s.tp in s.thr
    ensures s.births <= SpawnMark(s).births && forall u :: u in SpawnMark(s).thr && u !in s.thr ==> u >= s.births
  {
    hide FreeSlot;
  }

  lemma ExitBirths(s: State)
    requires s.tp in s.thr
    ensures Barren(s, Exit(s))
  {
    hide Waiters;
  }

  lemma JoinBirths(s: State, tid: nat)
    requires s.tp in s.thr
    ensures Barren(s, Join(s, tid))
  {
    hide AnyMatch;
  }

  lemma AcquireBirths(s: State, l: nat)
    requires s.tp in s.thr && l in s.locks
    ensures Barren(s, Acquire(s, l))
  {
  }

  lemma ReleaseBirths(s: State, l: nat)
    requires s.tp in s.thr && l in s.locks
    ensures Barren(s, Release(s, l))
  {
    hide Waiters, Unlink;
  }

  /** A reclaimed thread never comes back, so no thread is reclaimed twice. */
  lemma {:induction false} ReclaimedForGood(s: State, acts: seq<Action>, u: nat)
    requires Inv(s) && Possible(s, acts) && u < s.births && u !in s.thr
    ensures u !in After(s, acts).thr
    decreases |acts|
  {
    if acts != [] {
      StepInv(s, acts[0]);
      StepBirths(s, acts[0]);
      hide Inv, Step;
      ReclaimedForGood(Step(s, acts[0]), acts[1..], u);
    }
  }
}
