/** The thread manager of kernel/thread.c as a step system. A step is what the running thread does between two
    points where an interrupt can come in; an interrupt handler may broadcast any condition between any two steps.
    Threads are named by the order of their creation, since the kernel heap never hands out memory twice. */
module Threads {
  import opened Base

  const NTHR: nat := 32
  const MAIN: nat := 0
  const IDLE: nat := 1

  datatype TState = Waiting | Self | Ready | Exited

  datatype Cond = ChildExit(thread: nat) | LockCv(lock: nat) | Event(n: nat)

  /** Where a thread goes on after it has been scheduled again: the caller's code, the loop of thread_join, or
      the loop of lock_acquire. */
  datatype Cont = Caller | Joining(tid: nat) | Locking(l: nat)

  /** How far the running thread has got inside condition_wait, thread_spawn or thread_exit. */
  datatype Pc =
    | Code(k: Cont)
    | WaitMarked(k: Cont)
    | WaitListed(k: Cont)
    | SpawnMarked(child: nat)
    | ExitMarked

  datatype Thread = Thread(id: nat, st: TState, cond: Option<Cond>, parent: Option<nat>, pc: Pc, locks: seq<nat>)

  datatype Lock = Lock(owner: Option<nat>, count: nat)

  datatype State = State(
    thr: map<nat, Thread>,
    tab: seq<Option<nat>>,
    ready: seq<nat>,
    waits: map<Cond, seq<nat>>,
    locks: map<nat, Lock>,
    tp: nat,
    births: nat)

  function Waiters(s: State, c: Cond): seq<nat> {
    if c in s.waits then s.waits[c] else []
  }

  function Put(s: State, u: nat, t: Thread): State {
    s.(thr := s.thr[u := t])
  }

  // ---- the steps ----

  /** condition_broadcast: every waiter of c becomes ready, in order. */
  function Woken(s: State, c: Cond): map<nat, Thread> {
    map u | u in s.thr :: if u in Waiters(s, c) then s.thr[u].(st := Ready, cond := None) else s.thr[u]
  }

  function Broadcast(s: State, c: Cond): State {
    s.(thr := Woken(s, c), ready := s.ready + Waiters(s, c), waits := s.waits[c := []])
  }

  /** The first half of condition_wait, up to the insertion. */
  function MarkWait(s: State, c: Cond, k: Cont): State
    requires s.tp in s.thr
  {
    Put(s, s.tp, s.thr[s.tp].(st := Waiting, cond := Some(c), pc := WaitMarked(k)))
  }

  /** The insertion in condition_wait. */
  function ListWait(s: State): State
    requires s.tp in s.thr && s.thr[s.tp].pc.WaitMarked? && s.thr[s.tp].cond.Some?
  {
    var t := s.thr[s.tp];
    Put(s, s.tp, t.(pc := WaitListed(t.pc.k))).(waits := s.waits[t.cond.value := Waiters(s, t.cond.value) + [s.tp]])
  }

  /** What the suspended thread will go on with. */
  function Resume(pc: Pc): Pc {
    match pc
    case WaitListed(k) => Code(k)
    case WaitMarked(k) => Code(k)
    case SpawnMarked(_) => Code(Caller)
    case _ => pc
  }

  /** running_thread_suspend, first part: a thread that only yields queues up again. */
  function Requeue(s: State): State
    requires s.tp in s.thr
  {
    var t := s.thr[s.tp];
    var s1 := Put(s, s.tp, t.(st := if t.st == Self then Ready else t.st, pc := Resume(t.pc)));
    if t.st == Self then s1.(ready := s1.ready + [s.tp]) else s1
  }

  /** running_thread_suspend, second part: the head of the ready list runs. */
  function Switch(s: State): State
    requires s.ready != [] && s.ready[0] in s.thr
  {
    var next := s.ready[0];
    Put(s, next, s.thr[next].(st := Self)).(ready := s.ready[1..], tp := next)
  }

  /** The slot create_thread finds. */
  function FreeSlot(tab: seq<Option<nat>>, i: nat): (r: Option<nat>)
    ensures r.Some? ==> i <= r.value < |tab| && tab[r.value].None?
    decreases |tab| - i
  {
    if i >= |tab| then None else if tab[i].None? then Some(i) else FreeSlot(tab, i + 1)
  }

  /** thread_spawn up to the insertion: the child is marked ready but not listed. */
  function SpawnMark(s: State): State
    requires s.tp in s.thr
  {
    var slot := FreeSlot(s.tab, 1);
    if slot.None? then s
    else
      var child := Thread(slot.value, Ready, None, Some(s.tp), Code(Caller), []);
      Put(Put(s, s.births, child), s.tp, s.thr[s.tp].(pc := SpawnMarked(s.births)))
        .(tab := s.tab[slot.value := Some(s.births)], births := s.births + 1)
  }

  function SpawnInsert(s: State): State
    requires s.tp in s.thr && s.thr[s.tp].pc.SpawnMarked?
  {
    var t := s.thr[s.tp];
    Put(s, s.tp, t.(pc := Code(Caller))).(ready := s.ready + [t.pc.child])
  }

  /** thread_exit after the locks are drained. */
  function Exit(s: State): State
    requires s.tp in s.thr
  {
    var t := s.thr[s.tp];
    var s1 := Put(s, s.tp, t.(st := Exited, pc := ExitMarked));
    if t.parent.Some? then Broadcast(s1, ChildExit(t.parent.value)) else s1
  }

  /** Slot i holds a child of u that join(tid) is about. */
  predicate Matches(s: State, u: nat, tid: nat, i: nat)
    requires i < |s.tab|
  {
    s.tab[i].Some? && s.tab[i].value in s.thr && s.thr[s.tab[i].value].parent == Some(u) && (tid == 0 || i == tid)
  }

  predicate Reapable(s: State, u: nat, tid: nat, i: nat)
    requires i < |s.tab|
  {
    Matches(s, u, tid, i) && s.thr[s.tab[i].value].st == Exited
  }

  function FirstReapable(s: State, u: nat, tid: nat, i: nat): (r: Option<nat>)
    ensures r.Some? ==> i <= r.value < |s.tab| && Reapable(s, u, tid, r.value)
    ensures r.None? ==> forall j :: i <= j < |s.tab| ==> !Reapable(s, u, tid, j)
    decreases |s.tab| - i
  {
    if i >= |s.tab| then None else if Reapable(s, u, tid, i) then Some(i) else FirstReapable(s, u, tid, i + 1)
  }

  predicate AnyMatch(s: State, u: nat, tid: nat) {
    exists i :: 1 <= i < |s.tab| && Matches(s, u, tid, i)
  }

  /** thread_reclaim: the children of the reclaimed thread go to its parent. */
  function Adopted(s: State, u: nat): map<nat, Thread>
    requires u in s.thr
  {
    map v | v in s.thr && v != u :: if s.thr[v].parent == Some(u) then s.thr[v].(parent := s.thr[u].parent) else s.thr[v]
  }

  function Reclaim(s: State, i: nat): State
    requires i < |s.tab| && s.tab[i].Some? && s.tab[i].value in s.thr
  {
    s.(thr := Adopted(s, s.tab[i].value), tab := s.tab[i := None])
  }

  /** One round of the loop of thread_join. */
  function Join(s: State, tid: nat): State
    requires s.tp in s.thr
  {
    var r := FirstReapable(s, s.tp, tid, 1);
    var s1 := Put(s, s.tp, s.thr[s.tp].(pc := Code(Caller)));
    if r.Some? then Reclaim(s1, r.value)
    else if !AnyMatch(s, s.tp, tid) then s1
    else MarkWait(s, ChildExit(s.tp), Joining(tid))
  }

  /** Taking a lock nobody holds. */
  function Take(s: State, l: nat): State
    requires s.tp in s.thr
  {
    Put(s, s.tp, s.thr[s.tp].(locks := [l] + s.thr[s.tp].locks, pc := Code(Caller))).(locks := s.locks[l := Lock(Some(s.tp), 1)])
  }

  /** lock_acquire up to its first wait, or one round of its loop. */
  function Acquire(s: State, l: nat): State
    requires s.tp in s.thr && l in s.locks
  {
    if s.locks[l].owner == Some(s.tp) && s.thr[s.tp].pc == Code(Caller)
    then s.(locks := s.locks[l := Lock(Some(s.tp), s.locks[l].count + 1)])
    else if s.locks[l].owner.Some? then MarkWait(s, LockCv(l), Locking(l))
    else Take(s, l)
  }

  /** The list without l. */
  function Unlink(ls: seq<nat>, l: nat): seq<nat> {
    if ls == [] then [] else if ls[0] == l then ls[1..] else [ls[0]] + Unlink(ls[1..], l)
  }

  /** lock_release: only the owner's last release frees the lock and wakes its waiters. */
  function Release(s: State, l: nat): State
    requires s.tp in s.thr && l in s.locks
  {
    if s.locks[l].owner != Some(s.tp) then s
    else if s.locks[l].count > 1 then s.(locks := s.locks[l := Lock(Some(s.tp), s.locks[l].count - 1)])
    else
      Broadcast(Put(s, s.tp, s.thr[s.tp].(locks := Unlink(s.thr[s.tp].locks, l))).(locks := s.locks[l := Lock(None, 0)]), LockCv(l))
  }

  // ---- runs ----

  datatype Action =
    | Interrupt(c: Cond)
    | DoBroadcast(c: Cond)
    | DoYield
    | DoWait(c: Cond)
    | DoList
    | DoSuspend
    | DoSpawn
    | DoInsert
    | DoExit
    | DoJoin(tid: nat)
    | DoAcquire(l: nat)
    | DoRelease(l: nat)

  /** What can happen next. The idle thread only yields. A thread waits on the conditions of locks and of its
      children only through lock_acquire and thread_join, and the main thread's exit ends the run. */
  predicate Enabled(s: State, a: Action)
    requires s.tp in s.thr
  {
    var t := s.thr[s.tp];
    match a
    case Interrupt(c) => true
    case DoYield => t.pc == Code(Caller)
    case DoList => t.pc.WaitMarked? && t.cond.Some?
    case DoSuspend => t.pc.WaitListed? || t.pc.ExitMarked?
    case DoInsert => t.pc.SpawnMarked?
    case DoBroadcast(c) => t.pc == Code(Caller) && s.tp != IDLE
    case DoWait(c) => t.pc == Code(Caller) && s.tp != IDLE && c.Event?
    case DoSpawn => t.pc == Code(Caller) && s.tp != IDLE
    case DoExit => t.pc == Code(Caller) && s.tp != IDLE && s.tp != MAIN && t.locks == []
    case DoJoin(tid) => (t.pc == Code(Caller) || t.pc == Code(Joining(tid))) && s.tp != IDLE
    case DoAcquire(l) => (t.pc == Code(Caller) || t.pc == Code(Locking(l))) && s.tp != IDLE && l in s.locks
    case DoRelease(l) => t.pc == Code(Caller) && s.tp != IDLE && l in s.locks
  }

  function Step(s: State, a: Action): State
    requires s.tp in s.thr && Enabled(s, a)
  {
    match a
    case Interrupt(c) => Broadcast(s, c)
    case DoBroadcast(c) => Broadcast(s, c)
    case DoYield => Suspend(s)
    case DoWait(c) => MarkWait(s, c, Caller)
    case DoList => ListWait(s)
    case DoSuspend => Suspend(s)
    case DoSpawn => SpawnMark(s)
    case DoInsert => SpawnInsert(s)
    case DoExit => Exit(s)
    case DoJoin(tid) => Join(s, tid)
    case DoAcquire(l) => Acquire(s, l)
    case DoRelease(l) => Release(s, l)
  }

  /** running_thread_suspend. With an empty ready list its assertion would fail; here the state would not move. */
  function Suspend(s: State): State
    requires s.tp in s.thr
  {
    var s1 := Requeue(s);
    if s1.ready != [] && s1.ready[0] in s1.thr then Switch(s1) else s1
  }
}
