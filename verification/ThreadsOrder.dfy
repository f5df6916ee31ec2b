/** Who gets a lock next, over every run. */
module ThreadsOrder {
  import opened Base
  import opened Threads
  import opened ThreadsInv
  import opened ThreadsKin
  import opened ThreadsRun

  // ---- a thread that waits for a lock is inside lock_acquire ----

  ghost predicate AskerOk(s: State, u: nat)
    requires u in s.thr
  {
    s.thr[u].st == Waiting && s.thr[u].cond.Some? && s.thr[u].cond.value.LockCv? ==>
      ContOf(s.thr[u].pc) == Locking(s.thr[u].cond.value.lock)
  }

  ghost predicate QueueOk(s: State) {
    forall u :: u in s.thr ==> AskerOk(s, u)
  }

  /** The threads that are in both states and wait for a lock in the second do so as in the first. */
  lemma QueueKept(s: State, s': State)
    requires QueueOk(s)
    requires forall u :: u in s'.thr && s'.thr[u].st == Waiting && s'.thr[u].cond.Some? && s'.thr[u].cond.value.LockCv? ==>
      || (u in s.thr && s.thr[u].st == Waiting && s.thr[u].cond == s'.thr[u].cond && ContOf(s.thr[u].pc) == ContOf(s'.thr[u].pc))
      || ContOf(s'.thr[u].pc) == Locking(s'.thr[u].cond.value.lock)
    ensures QueueOk(s')
  {
    forall u | u in s'.thr ensures AskerOk(s', u) {
      assert u in s.thr ==> AskerOk(s, u);
    }
  }

  /** What the invariant says about one thread. */
  lemma OneThread(s: State, u: nat)
    requires Inv(s) && u in s.thr
    ensures s.tp in s.thr && PcOk(s, u) && (u in s.ready ==> s.thr[u].st == Ready)
    ensures forall c :: u in Waiters(s, c) ==> s.thr[u].st == Waiting && s.thr[u].cond == Some(c)
  {
    hide TableOk, JoinsOk, LocksOk, ParentsOk, IdleOk, Waiters, NoDup, PlacedOk, OnOneList;
    InvTp(s);
    OneList(s, u);
    hide ListsOk;
  }

  lemma BroadcastQueue(s: State, c: Cond)
    requires QueueOk(s)
    ensures QueueOk(Broadcast(s, c))
  {
    hide Waiters;
    QueueKept(s, Broadcast(s, c));
  }

  lemma PutQueue(s: State, u: nat, t: Thread)
    requires QueueOk(s) && (t.st == Waiting && t.cond.Some? && t.cond.value.LockCv? ==> ContOf(t.pc) == Locking(t.cond.value.lock))
    ensures QueueOk(Put(s, u, t))
  {
    QueueKept(s, Put(s, u, t));
  }

  lemma JoinQueue(s: State, tid: nat)
    requires QueueOk(s) && s.tp in s.thr && s.thr[s.tp].st == Self
    ensures QueueOk(Join(s, tid))
  {
    hide AnyMatch, Waiters;
    var s1 := Put(s, s.tp, s.thr[s.tp].(pc := Code(Caller)));
    PutQueue(s, s.tp, s.thr[s.tp].(pc := Code(Caller)));
    QueueKept(s, MarkWait(s, ChildExit(s.tp), Joining(tid)));
    var r := FirstReapable(s, s.tp, tid, 1);
    if r.Some? {
      QueueKept(s1, Reclaim(s1, r.value));
    }
  }

  lemma ReleaseQueue(s: State, l: nat)
    requires QueueOk(s) && s.tp in s.thr && l in s.locks && s.thr[s.tp].st == Self
    ensures QueueOk(Release(s, l))
  {
    hide Unlink, Broadcast;
    if s.locks[l].owner == Some(s.tp) && s.locks[l].count <= 1 {
      QueueKept(s, Dropped(s, l));
      BroadcastQueue(Dropped(s, l), LockCv(l));
    } else {
      QueueKept(s, Release(s, l));
    }
  }

  lemma ExitQueue(s: State)
    requires QueueOk(s) && s.tp in s.thr
    ensures QueueOk(Exit(s))
  {
    hide Broadcast;
    var t := s.thr[s.tp];
    PutQueue(s, s.tp, t.(st := Exited, pc := ExitMarked));
    if t.parent.Some? {
      BroadcastQueue(Put(s, s.tp, t.(st := Exited, pc := ExitMarked)), ChildExit(t.parent.value));
    }
  }

  lemma StepQueue(s: State, a: Action)
    requires Inv(s) && QueueOk(s) && Enabled(s, a)
    ensures QueueOk(Step(s, a))
  {
    hide Inv, Broadcast, Join, Release, Exit, Suspend, QueueOk, Waiters, MarkWait, ListWait, SpawnMark, SpawnInsert, Acquire;
    InvTp(s);
    RunnerUnlisted(s);
    match a
    case Interrupt(c) => BroadcastQueue(s, c);
    case DoBroadcast(c) => BroadcastQueue(s, c);
    case DoYield => SuspendQueue(s);
    case DoSuspend => SuspendQueue(s);
    case DoWait(c) => WaitQueue(s, c);
    case DoList => ListQueue(s);
    case DoSpawn => SpawnQueue(s);
    case DoInsert => InsertQueue(s);
    case DoExit => ExitQueue(s);
    case DoJoin(tid) => JoinQueue(s, tid);
    case DoAcquire(l) => AcquireQueue(s, l);
    case DoRelease(l) => ReleaseQueue(s, l);
  }

  lemma WaitQueue(s: State, c: Cond)
    requires QueueOk(s) && s.tp in s.thr && c.Event?
    ensures QueueOk(MarkWait(s, c, Caller))
  {
    OneChanged(s, MarkWait(s, c, Caller));
  }

  lemma ListQueue(s: State)
    requires QueueOk(s) && s.tp in s.thr && s.thr[s.tp].pc.WaitMarked? && s.thr[s.tp].cond.Some?
    ensures QueueOk(ListWait(s))
  {
    assert AskerOk(s, s.tp);
    OneChanged(s, ListWait(s));
  }

  lemma SpawnQueue(s: State)
    requires QueueOk(s) && s.tp in s.thr && s.thr[s.tp].st == Self
    ensures QueueOk(SpawnMark(s))
  {
    hide FreeSlot;
    OneChanged(s, SpawnMark(s));
  }

  lemma InsertQueue(s: State)
    requires QueueOk(s) && s.tp in s.thr && s.thr[s.tp].pc.SpawnMarked?
    ensures QueueOk(SpawnInsert(s))
  {
    assert AskerOk(s, s.tp);
    OneChanged(s, SpawnInsert(s));
  }

  lemma AcquireQueue(s: State, l: nat)
    requires QueueOk(s) && s.tp in s.thr && s.thr[s.tp].st == Self && l in s.locks
    ensures QueueOk(Acquire(s, l))
  {
    OneChanged(s, Acquire(s, l));
  }

  /** Only the running thread changed, or a new one that does not wait was added. */
  lemma OneChanged(s: State, s': State)
    requires QueueOk(s) && s.tp in s'.thr
    requires s'.thr[s.tp].st == Waiting && s'.thr[s.tp].cond.Some? && s'.thr[s.tp].cond.value.LockCv? ==>
      ContOf(s'.thr[s.tp].pc) == Locking(s'.thr[s.tp].cond.value.lock)
    requires forall u :: u in s'.thr && u != s.tp ==> (u in s.thr && s'.thr[u] == s.thr[u]) || s'.thr[u].st == Ready
    ensures QueueOk(s')
  {
    QueueKept(s, s');
  }

  lemma SuspendQueue(s: State)
    requires QueueOk(s) && s.tp in s.thr
    ensures QueueOk(Suspend(s))
  {
    QueueKept(s, Requeue(s));
    QueueKept(Requeue(s), Suspend(s));
  }

  lemma {:induction false} RunQueue(s: State, acts: seq<Action>)
    requires Inv(s) && QueueOk(s) && Possible(s, acts)
    ensures Inv(After(s, acts)) && QueueOk(After(s, acts))
    decreases |acts|
  {
    if acts != [] {
      StepInv(s, acts[0]);
      StepQueue(s, acts[0]);
      hide Inv, Step, QueueOk;
      RunQueue(Step(s, acts[0]), acts[1..]);
    }
  }

  // ---- the line of those who were woken ----

  ghost predicate HeadFirst(q: seq<nat>, w: seq<nat>)
    requires w != []
  {
    exists i :: 0 <= i < |q| && q[i] == w[0] && forall j :: 1 <= j < |w| ==> w[j] in q[i + 1..]
  }

  /** Lock l is free, the threads of w are inside lock_acquire(l), and the first of them runs before the others. */
  ghost predicate InLine(s: State, l: nat, w: seq<nat>) {
    && w != [] && l in s.locks && s.locks[l].owner.None?
    && (forall j :: 0 <= j < |w| ==> w[j] in s.thr && s.thr[w[j]].pc == Code(Locking(l)))
    && (forall j :: 1 <= j < |w| ==> w[j] in s.ready)
    && (s.tp == w[0] || HeadFirst(s.ready, w))
  }

  lemma HeadFirstMore(q: seq<nat>, q': seq<nat>, w: seq<nat>)
    requires w != [] && HeadFirst(q, w) && q <= q'
    ensures HeadFirst(q', w)
  {
    var i :| 0 <= i < |q| && q[i] == w[0] && forall j :: 1 <= j < |w| ==> w[j] in q[i + 1..];
    forall j | 1 <= j < |w| ensures w[j] in q'[i + 1..] {
      var k :| 0 <= k < |q[i + 1..]| && q[i + 1..][k] == w[j];
      assert q'[i + 1..][k] == w[j];
    }
  }

  /** Taking the head off the list makes the first of w the head, or leaves it in front of the others. */
  lemma HeadFirstPop(q: seq<nat>, w: seq<nat>)
    requires w != [] && HeadFirst(q, w)
    ensures q != [] && (q[0] == w[0] || HeadFirst(q[1..], w)) && forall j :: 1 <= j < |w| ==> w[j] in q[1..]
  {
    var i :| 0 <= i < |q| && q[i] == w[0] && forall j :: 1 <= j < |w| ==> w[j] in q[i + 1..];
    forall j | 1 <= j < |w| ensures w[j] in q[1..] {
      var k :| 0 <= k < |q[i + 1..]| && q[i + 1..][k] == w[j];
      assert q[1..][i + k] == w[j];
    }
    if i > 0 {
      assert q[1..][i - 1] == w[0] && q[1..][i..] == q[i + 1..];
    }
  }

  /** A thread that runs its own code, or the loop of lock_acquire, is not on the ready list. */
  lemma RunnerUnlisted(s: State)
    requires Inv(s)
    ensures s.tp in s.thr && (s.thr[s.tp].pc.Code? ==> s.tp !in s.ready && s.thr[s.tp].st == Self)
  {
    hide Inv, Waiters;
    InvTp(s);
    OneThread(s, s.tp);
  }

  /** While somebody outside w runs, all of w are on the ready list. */
  lemma LineReady(s: State, l: nat, w: seq<nat>)
    requires Inv(s) && InLine(s, l, w)
    ensures s.tp in s.thr
    ensures s.tp in w ==> s.tp == w[0]
    ensures s.tp !in w ==> forall j :: 0 <= j < |w| ==> w[j] in s.ready && s.thr[w[j]].st == Ready
  {
    hide Inv, Waiters, PcOk;
    InvTp(s);
    RunnerUnlisted(s);
    if s.tp != w[0] {
      var i :| 0 <= i < |s.ready| && s.ready[i] == w[0] && forall j :: 1 <= j < |w| ==> w[j] in s.ready[i + 1..];
    }
    forall j | 0 <= j < |w| && w[j] in s.ready ensures s.thr[w[j]].st == Ready {
      OneThread(s, w[j]);
    }
  }

  /** A step that neither switches nor touches the threads of w or the lock. */
  ghost predicate Aside(s: State, s': State, l: nat, w: seq<nat>) {
    && s'.tp == s.tp && s.ready <= s'.ready
    && l in s'.locks && l in s.locks && s'.locks[l] == s.locks[l]
    && forall j :: 0 <= j < |w| ==> w[j] in s.thr && w[j] in s'.thr && s'.thr[w[j]].pc == s.thr[w[j]].pc
  }

  lemma AsideLine(s: State, s': State, l: nat, w: seq<nat>)
    requires InLine(s, l, w) && Aside(s, s', l, w)
    ensures InLine(s', l, w)
  {
    if s.tp != w[0] {
      HeadFirstMore(s.ready, s'.ready, w);
    }
  }

  lemma WokenAside(s: State, c: Cond, l: nat, w: seq<nat>)
    requires l in s.locks && forall j :: 0 <= j < |w| ==> w[j] in s.thr
    ensures Aside(s, Broadcast(s, c), l, w)
  {
    hide Waiters;
  }

  lemma OwnAside(s: State, a: Action, l: nat, w: seq<nat>)
    requires Inv(s) && Enabled(s, a) && InLine(s, l, w) && s.tp !in w && a != DoAcquire(l) && !a.DoYield? && !a.DoSuspend?
    ensures Aside(s, Step(s, a), l, w)
  {
    hide Inv, Waiters, HeadFirst, Broadcast, Join, Release, Exit, SpawnMark, Acquire;
    LineReady(s, l, w);
    Unborn(s, w);
    match a
    case Interrupt(c) => WokenAside(s, c, l, w);
    case DoBroadcast(c) => WokenAside(s, c, l, w);
    case DoJoin(tid) => JoinAside(s, tid, l, w);
    case DoRelease(k) => ReleaseAside(s, k, l, w);
    case DoExit => ExitAside(s, l, w);
    case DoSpawn => SpawnAside(s, l, w);
    case DoAcquire(k) => AcquireAside(s, k, l, w);
    case _ =>
  }

  lemma ReleaseAside(s: State, k: nat, l: nat, w: seq<nat>)
    requires s.tp in s.thr && s.tp !in w && k in s.locks && l in s.locks && s.locks[l].owner.None? && forall j :: 0 <= j < |w| ==> w[j] in s.thr
    ensures Aside(s, Release(s, k), l, w)
  {
    hide Unlink, Broadcast;
    if s.locks[k].owner == Some(s.tp) && s.locks[k].count <= 1 {
      WokenAside(Dropped(s, k), LockCv(k), l, w);
    }
  }

  lemma SpawnAside(s: State, l: nat, w: seq<nat>)
    requires s.tp in s.thr && s.tp !in w && l in s.locks && forall j :: 0 <= j < |w| ==> w[j] in s.thr && w[j] != s.births
    ensures Aside(s, SpawnMark(s), l, w)
  {
    hide FreeSlot;
  }

  lemma AcquireAside(s: State, k: nat, l: nat, w: seq<nat>)
    requires s.tp in s.thr && s.tp !in w && k in s.locks && l in s.locks && k != l && forall j :: 0 <= j < |w| ==> w[j] in s.thr
    ensures Aside(s, Acquire(s, k), l, w)
  {
  }

  lemma ExitAside(s: State, l: nat, w: seq<nat>)
    requires s.tp in s.thr && s.tp !in w && l in s.locks && forall j :: 0 <= j < |w| ==> w[j] in s.thr
    ensures Aside(s, Exit(s), l, w)
  {
    hide Broadcast;
    var t := s.thr[s.tp];
    if t.parent.Some? {
      WokenAside(Put(s, s.tp, t.(st := Exited, pc := ExitMarked)), ChildExit(t.parent.value), l, w);
    }
  }

  lemma Unborn(s: State, w: seq<nat>)
    requires Inv(s) && forall j :: 0 <= j < |w| ==> w[j] in s.thr
    ensures forall j :: 0 <= j < |w| ==> w[j] != s.births
  {
    hide ListsOk, StatesOk, IdleOk, ParentsOk, JoinsOk, LocksOk;
    forall j | 0 <= j < |w| ensures w[j] != s.births {
      assert ThreadSlot(s, w[j]);
    }
  }

  lemma JoinAside(s: State, tid: nat, l: nat, w: seq<nat>)
    requires s.tp in s.thr && s.tp !in w && l in s.locks && forall j :: 0 <= j < |w| ==> w[j] in s.thr && s.thr[w[j]].st == Ready
    ensures Aside(s, Join(s, tid), l, w)
  {
    hide Waiters, AnyMatch;
  }

  lemma SuspendLine(s: State, l: nat, w: seq<nat>)
    requires Inv(s) && InLine(s, l, w) && s.tp !in w && s.tp in s.thr && MaySuspend(s)
    ensures InLine(Suspend(s), l, w)
  {
    hide Inv, HeadFirst, Waiters, MaySuspend;
    NextExists(s);
    var s1 := Requeue(s);
    HeadFirstMore(s.ready, s1.ready, w);
    HeadFirstPop(s1.ready, w);
  }

  /** Until somebody asks for the lock the line stands. */
  lemma StepLine(s: State, a: Action, l: nat, w: seq<nat>)
    requires Inv(s) && Enabled(s, a) && InLine(s, l, w) && a != DoAcquire(l)
    ensures InLine(Step(s, a), l, w)
  {
    LineReady(s, l, w);
    hide Inv, Waiters, HeadFirst;
    if s.tp == w[0] {
      assert a.Interrupt?;
      WokenAside(s, a.c, l, w);
      AsideLine(s, Step(s, a), l, w);
    } else if a.DoYield? || a.DoSuspend? {
      SuspendLine(s, l, w);
    } else {
      OwnAside(s, a, l, w);
      AsideLine(s, Step(s, a), l, w);
    }
  }

  // ---- the next owner ----

  /** The thread that takes lock l first in this run. */
  ghost function Taker(s: State, acts: seq<Action>, l: nat): Option<nat>
    requires Possible(s, acts)
    decreases |acts|
  {
    if acts == [] then None
    else if acts[0] == DoAcquire(l) && s.locks[l].owner.None? then Some(s.tp)
    else Taker(Step(s, acts[0]), acts[1..], l)
  }

  /** A thread outside w asks for l before any thread of w does. */
  ghost predicate Barged(s: State, acts: seq<Action>, l: nat, w: seq<nat>)
    requires Possible(s, acts)
    decreases |acts|
  {
    acts != [] && if acts[0] == DoAcquire(l) then s.tp !in w else Barged(Step(s, acts[0]), acts[1..], l, w)
  }

  lemma {:induction false} LineServed(s: State, acts: seq<Action>, l: nat, w: seq<nat>)
    requires Inv(s) && InLine(s, l, w) && Possible(s, acts) && Taker(s, acts, l).Some?
    ensures Taker(s, acts, l) == Some(w[0]) <==> !Barged(s, acts, l, w)
    decreases |acts|
  {
    LineReady(s, l, w);
    if acts[0] != DoAcquire(l) {
      StepInv(s, acts[0]);
      StepLine(s, acts[0], l, w);
      hide Inv, Step, InLine;
      LineServed(Step(s, acts[0]), acts[1..], l, w);
    }
  }

  lemma WaiterAsks(s: State, l: nat, u: nat)
    requires Inv(s) && QueueOk(s) && s.thr[s.tp].pc == Code(Caller) && u in Waiters(s, LockCv(l))
    ensures s.tp in s.thr && u in s.thr && u != s.tp && s.thr[u].pc == Code(Locking(l))
  {
    hide TableOk, JoinsOk, LocksOk, ParentsOk, IdleOk, StatesOk, Waiters, NoDup;
    InvTp(s);
    OneThread(s, s.tp);
    assert u in s.thr;
    hide ListsOk;
    OneThread(s, u);
    assert AskerOk(s, u);
  }

  lemma DroppedWaiters(s: State, l: nat)
    requires s.tp in s.thr && l in s.locks
    ensures Waiters(Dropped(s, l), LockCv(l)) == Waiters(s, LockCv(l))
  {
  }

  /** Releasing a lock for good puts its waiters in line. */
  lemma ReleaseLine(s: State, l: nat)
    requires Inv(s) && QueueOk(s) && s.thr[s.tp].pc == Code(Caller) && l in s.locks && s.locks[l] == Lock(Some(s.tp), 1)
    requires Waiters(s, LockCv(l)) != []
    ensures InLine(Release(s, l), l, Waiters(s, LockCv(l)))
  {
    hide Inv, Unlink, QueueOk, Waiters;
    InvTp(s);
    var w, s' := Waiters(s, LockCv(l)), Release(s, l);
    forall j | 0 <= j < |w| ensures w[j] in s.thr && w[j] != s.tp && s.thr[w[j]].pc == Code(Locking(l)) {
      WaiterAsks(s, l, w[j]);
    }
    DroppedWaiters(s, l);
    assert s'.ready == s.ready + w;
    var i := |s.ready|;
    assert s'.ready[i] == w[0];
    forall j | 1 <= j < |w| ensures w[j] in s'.ready[i + 1..] {
      assert s'.ready[i + 1..][j - 1] == w[j];
    }
    assert HeadFirst(s'.ready, w);
  }

  /** The lock goes to the thread that has waited longest exactly when no other thread asks for it before one of
      the waiters has run. */
  lemma OrderOfArrival(s: State, l: nat, acts: seq<Action>)
    requires Inv(s) && QueueOk(s) && s.thr[s.tp].pc == Code(Caller) && l in s.locks && s.locks[l] == Lock(Some(s.tp), 1)
    requires Waiters(s, LockCv(l)) != []
    requires Possible(Release(s, l), acts) && Taker(Release(s, l), acts, l).Some?
    ensures Taker(Release(s, l), acts, l) == Some(Waiters(s, LockCv(l))[0]) <==> !Barged(Release(s, l), acts, l, Waiters(s, LockCv(l)))
  {
    ReleaseLine(s, l);
    ReleaseInv(s, l);
    hide Inv, QueueOk, InLine, Release, Waiters;
    LineServed(Release(s, l), acts, l, Waiters(s, LockCv(l)));
  }

  // ---- runs that show both ----

  lemma Onward(s: State, a: Action, acts: seq<Action>)
    requires s.tp in s.thr && Enabled(s, a) && Possible(Step(s, a), acts)
    ensures Possible(s, [a] + acts) && After(s, [a] + acts) == After(Step(s, a), acts)
  {
    assert ([a] + acts)[1..] == acts;
  }

  lemma {:induction false} Onwards(s: State, a: seq<Action>, b: seq<Action>)
    requires Possible(s, a) && Possible(After(s, a), b)
    ensures Possible(s, a + b) && After(s, a + b) == After(After(s, a), b)
    decreases |a|
  {
    hide Enabled, Step;
    if a == [] {
      assert a + b == b;
    } else {
      Onwards(Step(s, a[0]), a[1..], b);
      assert (a + b)[1..] == a[1..] + b;
    }
  }

  /** A state with three threads and one lock. */
  ghost predicate Three(s: State, tp: nat, ready: seq<nat>, main: Thread, idle: Thread, child: Thread, lock: Lock, w: seq<nat>) {
    && s.tp == tp && s.ready == ready && s.thr.Keys == {MAIN, IDLE, 2} && s.thr[MAIN] == main && s.thr[IDLE] == idle && s.thr[2] == child
    && s.locks.Keys == {0} && s.locks[0] == lock && Waiters(s, LockCv(0)) == w
  }

  function MainAs(st: TState, locks: seq<nat>): Thread { Thread(0, st, None, None, Code(Caller), locks) }

  function IdleAs(st: TState): Thread { Thread(NTHR - 1, st, None, Some(MAIN), Code(Caller), []) }

  function ChildAs(st: TState, cond: Option<Cond>, pc: Pc): Thread { Thread(1, st, cond, Some(MAIN), pc, []) }

  /** Main spawns a thread, takes lock 0 and yields; the new thread asks for the lock and waits. */
  const FORM: seq<Action> := [DoSpawn, DoInsert, DoAcquire(0), DoYield, DoYield, DoAcquire(0), DoList, DoSuspend]

  /** The state FORM ends in: main holds the lock, thread 2 waits for it. */
  ghost predicate Formed(s: State) {
    Three(s, MAIN, [IDLE], MainAs(Self, [0]), IdleAs(Ready), ChildAs(Waiting, Some(LockCv(0)), Code(Locking(0))), Lock(Some(MAIN), 1), [2])
  }

  lemma FormBorn() returns (s1: State, s2: State)
    ensures Start({0}).tp in Start({0}).thr
    ensures Enabled(Start({0}), DoSpawn) && s1 == Step(Start({0}), DoSpawn) && s1.tp in s1.thr && Enabled(s1, DoInsert) && s2 == Step(s1, DoInsert)
    ensures Three(s2, MAIN, [IDLE, 2], MainAs(Self, []), IdleAs(Ready), ChildAs(Ready, None, Code(Caller)), Lock(None, 0), [])
  {
    var s0 := Start({0});
    assert FreeSlot(s0.tab, 1) == Some(1);
    s1 := Step(s0, DoSpawn);
    assert s1.thr[MAIN].pc == SpawnMarked(2);
    s2 := Step(s1, DoInsert);
    assert s2.thr[MAIN] == MainAs(Self, []);
  }

  lemma FormTake(s: State) returns (s': State)
    requires Three(s, MAIN, [IDLE, 2], MainAs(Self, []), IdleAs(Ready), ChildAs(Ready, None, Code(Caller)), Lock(None, 0), [])
    ensures Enabled(s, DoAcquire(0)) && s' == Step(s, DoAcquire(0))
    ensures Three(s', MAIN, [IDLE, 2], MainAs(Self, [0]), IdleAs(Ready), ChildAs(Ready, None, Code(Caller)), Lock(Some(MAIN), 1), [])
  {
    s' := Step(s, DoAcquire(0));
  }

  lemma FormSpawn() returns (s: State)
    ensures Possible(Start({0}), FORM[..3]) && s == After(Start({0}), FORM[..3])
    ensures Three(s, MAIN, [IDLE, 2], MainAs(Self, [0]), IdleAs(Ready), ChildAs(Ready, None, Code(Caller)), Lock(Some(MAIN), 1), [])
  {
    hide Start, Step, Enabled, Three;
    var s0 := Start({0});
    var s1, s2 := FormBorn();
    s := FormTake(s2);
    assert FORM[..3] == [DoSpawn] + [DoInsert, DoAcquire(0)];
    assert [DoInsert, DoAcquire(0)] == [DoInsert] + [DoAcquire(0)];
    assert [DoAcquire(0)] == [DoAcquire(0)] + [];
    Onward(s2, DoAcquire(0), []);
    Onward(s1, DoInsert, [DoAcquire(0)]);
    Onward(s0, DoSpawn, [DoInsert, DoAcquire(0)]);
  }

  lemma FormYield(s: State) returns (s': State)
    requires Three(s, MAIN, [IDLE, 2], MainAs(Self, [0]), IdleAs(Ready), ChildAs(Ready, None, Code(Caller)), Lock(Some(MAIN), 1), [])
    ensures Possible(s, [DoYield, DoYield]) && s' == After(s, [DoYield, DoYield])
    ensures Three(s', 2, [MAIN, IDLE], MainAs(Ready, [0]), IdleAs(Ready), ChildAs(Self, None, Code(Caller)), Lock(Some(MAIN), 1), [])
  {
    var s1 := Step(s, DoYield);
    assert s1.tp == IDLE && s1.ready == [2, MAIN];
    s' := Step(s1, DoYield);
    assert s'.ready == [MAIN, IDLE];
    Onward(s1, DoYield, []);
    Onward(s, DoYield, [DoYield]);
    assert [DoYield] + [DoYield] == [DoYield, DoYield] && [DoYield] + [] == [DoYield];
  }

  lemma FormAsk(s: State) returns (s': State)
    requires Three(s, 2, [MAIN, IDLE], MainAs(Ready, [0]), IdleAs(Ready), ChildAs(Self, None, Code(Caller)), Lock(Some(MAIN), 1), [])
    ensures Enabled(s, DoAcquire(0)) && s' == Step(s, DoAcquire(0))
    ensures Three(s', 2, [MAIN, IDLE], MainAs(Ready, [0]), IdleAs(Ready), ChildAs(Waiting, Some(LockCv(0)), WaitMarked(Locking(0))), Lock(Some(MAIN), 1), [])
  {
    s' := Step(s, DoAcquire(0));
  }

  lemma FormList(s: State) returns (s': State)
    requires Three(s, 2, [MAIN, IDLE], MainAs(Ready, [0]), IdleAs(Ready), ChildAs(Waiting, Some(LockCv(0)), WaitMarked(Locking(0))), Lock(Some(MAIN), 1), [])
    ensures Enabled(s, DoList) && s' == Step(s, DoList)
    ensures Three(s', 2, [MAIN, IDLE], MainAs(Ready, [0]), IdleAs(Ready), ChildAs(Waiting, Some(LockCv(0)), WaitListed(Locking(0))), Lock(Some(MAIN), 1), [2])
  {
    s' := Step(s, DoList);
  }

  lemma FormLeave(s: State) returns (s': State)
    requires Three(s, 2, [MAIN, IDLE], MainAs(Ready, [0]), IdleAs(Ready), ChildAs(Waiting, Some(LockCv(0)), WaitListed(Locking(0))), Lock(Some(MAIN), 1), [2])
    ensures Enabled(s, DoSuspend) && s' == Step(s, DoSuspend) && Formed(s')
  {
    s' := Step(s, DoSuspend);
  }

  lemma FormWait(s: State) returns (s': State)
    requires Three(s, 2, [MAIN, IDLE], MainAs(Ready, [0]), IdleAs(Ready), ChildAs(Self, None, Code(Caller)), Lock(Some(MAIN), 1), [])
    ensures Possible(s, [DoAcquire(0), DoList, DoSuspend]) && s' == After(s, [DoAcquire(0), DoList, DoSuspend]) && Formed(s')
  {
    var s1 := FormAsk(s);
    var s2 := FormList(s1);
    s' := FormLeave(s2);
    hide Step, Enabled, Three;
    Onward(s2, DoSuspend, []);
    Onward(s1, DoList, [DoSuspend]);
    Onward(s, DoAcquire(0), [DoList, DoSuspend]);
    assert [DoAcquire(0), DoList, DoSuspend] == [DoAcquire(0)] + [DoList, DoSuspend];
    assert [DoList, DoSuspend] == [DoList] + [DoSuspend];
    assert [DoSuspend] == [DoSuspend] + [];
  }

  /** From the initial state a thread comes to wait for a lock; when main releases the lock and asks again main has
      it before the thread that waited, and when main lets the others run first that thread gets it. */
  lemma BothHappen()
    ensures Possible(Start({0}), FORM) && Formed(After(Start({0}), FORM))
    ensures var s := Release(After(Start({0}), FORM), 0);
      && Possible(s, [DoAcquire(0)]) && Taker(s, [DoAcquire(0)], 0) == Some(MAIN)
      && Possible(s, [DoYield, DoYield, DoAcquire(0)]) && Taker(s, [DoYield, DoYield, DoAcquire(0)], 0) == Some(2)
  {
    hide Three, Possible, After, Taker, Release, Start;
    var s1 := FormSpawn();
    var s2 := FormYield(s1);
    var s3 := FormWait(s2);
    Onwards(s1, [DoYield, DoYield], [DoAcquire(0), DoList, DoSuspend]);
    assert FORM[3..] == [DoYield, DoYield] + [DoAcquire(0), DoList, DoSuspend];
    Onwards(Start({0}), FORM[..3], FORM[3..]);
    assert FORM[..3] + FORM[3..] == FORM;
    var s4 := Freed(s3);
    MainAgain(s4);
    ChildFirst(s4);
  }

  lemma Freed(s0: State) returns (s: State)
    requires Formed(s0)
    ensures s == Release(s0, 0)
    ensures Three(s, MAIN, [IDLE, 2], MainAs(Self, []), IdleAs(Ready), ChildAs(Ready, None, Code(Locking(0))), Lock(None, 0), [])
  {
    s := Release(s0, 0);
    assert s.ready == [IDLE, 2];
    assert Unlink([0], 0) == [];
  }

  lemma MainAgain(s: State)
    requires Three(s, MAIN, [IDLE, 2], MainAs(Self, []), IdleAs(Ready), ChildAs(Ready, None, Code(Locking(0))), Lock(None, 0), [])
    ensures Possible(s, [DoAcquire(0)]) && Taker(s, [DoAcquire(0)], 0) == Some(MAIN)
  {
    Onward(s, DoAcquire(0), []);
    assert [DoAcquire(0)] + [] == [DoAcquire(0)];
  }

  lemma ChildFirst(s: State)
    requires Three(s, MAIN, [IDLE, 2], MainAs(Self, []), IdleAs(Ready), ChildAs(Ready, None, Code(Locking(0))), Lock(None, 0), [])
    ensures Possible(s, [DoYield, DoYield, DoAcquire(0)]) && Taker(s, [DoYield, DoYield, DoAcquire(0)], 0) == Some(2)
  {
    var t1 := Step(s, DoYield);
    assert t1.tp == IDLE && t1.ready == [2, MAIN] && t1.thr[IDLE].pc == Code(Caller);
    var t2 := Step(t1, DoYield);
    assert t2.tp == 2 && t2.thr[2].pc == Code(Locking(0)) && t2.locks[0] == Lock(None, 0);
    Onward(t2, DoAcquire(0), []);
    Onward(t1, DoYield, [DoAcquire(0)]);
    Onward(s, DoYield, [DoYield, DoAcquire(0)]);
    assert [DoAcquire(0)] + [] == [DoAcquire(0)];
    assert [DoYield] + [DoAcquire(0)] == [DoYield, DoAcquire(0)];
    assert [DoYield] + [DoYield, DoAcquire(0)] == [DoYield, DoYield, DoAcquire(0)];
    assert [DoYield, DoAcquire(0)][1..] == [DoAcquire(0)];
    assert [DoYield, DoYield, DoAcquire(0)][1..] == [DoYield, DoAcquire(0)];
  }

  // ---- the running thread and the ready list ----

  /** The running thread is on the ready list exactly when its wait was ended before it has switched. */
  lemma RunningListed(s: State)
    requires Inv(s)
    ensures s.tp in s.thr && (s.tp in s.ready <==> s.thr[s.tp].pc.WaitListed? && s.thr[s.tp].st == Ready)
  {
    hide Inv, Waiters;
    InvTp(s);
    OneThread(s, s.tp);
    ListsMeaning(s, s.tp);
  }

  /** It happens: main waits for an event, and the interrupt comes before the switch. */
  lemma RunningListedHappens()
    ensures Possible(Start({}), [DoWait(Event(0)), DoList, Interrupt(Event(0))])
    ensures var s := After(Start({}), [DoWait(Event(0)), DoList, Interrupt(Event(0))]); s.tp in s.ready
  {
    var s0 := Start({});
    var s1 := Step(s0, DoWait(Event(0)));
    var s2 := Step(s1, DoList);
    assert Waiters(s2, Event(0)) == [MAIN];
    var s3 := Step(s2, Interrupt(Event(0)));
    assert s3.ready == [IDLE, MAIN] && s3.tp == MAIN;
    Onward(s2, Interrupt(Event(0)), []);
    Onward(s1, DoList, [Interrupt(Event(0))]);
    Onward(s0, DoWait(Event(0)), [DoList, Interrupt(Event(0))]);
    assert [Interrupt(Event(0))] + [] == [Interrupt(Event(0))];
    assert [DoList] + [Interrupt(Event(0))] == [DoList, Interrupt(Event(0))];
    assert [DoWait(Event(0))] + [DoList, Interrupt(Event(0))] == [DoWait(Event(0)), DoList, Interrupt(Event(0))];
  }

  lemma StartQueue(locks: set<nat>)
    ensures QueueOk(Start(locks))
  {
  }
}
