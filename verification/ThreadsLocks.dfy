/** Locks over whole runs: how deep a thread is inside a lock, counted from what it did. */
module ThreadsLocks {
  import opened Base
  import opened Threads
  import opened ThreadsInv
  import opened ThreadsKin
  import opened ThreadsRun

  /** Thread u asks for l in this step and comes back from lock_acquire. */
  ghost predicate Gets(s: State, a: Action, u: nat, l: nat)
    requires s.tp in s.thr && Enabled(s, a)
  {
    s.tp == u && a == DoAcquire(l) && u in Step(s, a).thr && Step(s, a).thr[u].pc == Code(Caller)
  }

  /** The depth of u in l after this step, when it was n before: one more for every acquire that returned, one less
      for every release by a thread that is inside. */
  ghost function DepthNext(s: State, a: Action, u: nat, l: nat, n: nat): nat
    requires s.tp in s.thr && Enabled(s, a)
  {
    if Gets(s, a, u, l) then n + 1
    else if s.tp == u && a == DoRelease(l) && n > 0 then n - 1
    else n
  }

  /** The depth of u in l after a run that it began n deep. */
  ghost function DepthAfter(s: State, acts: seq<Action>, u: nat, l: nat, n: nat): nat
    requires Possible(s, acts)
    decreases |acts|
  {
    if acts == [] then n else DepthAfter(Step(s, acts[0]), acts[1..], u, l, DepthNext(s, acts[0], u, l, n))
  }

  /** What the lock itself says about u. */
  ghost function CountOf(s: State, u: nat, l: nat): nat {
    if l in s.locks && s.locks[l].owner == Some(u) then s.locks[l].count else 0
  }

  /** lock_acquire returns at once exactly when the lock is free or the caller is inside already; otherwise the caller
      waits for the release. */
  lemma AcquireReturns(s: State, l: nat)
    requires s.tp in s.thr && Enabled(s, DoAcquire(l))
    ensures Gets(s, DoAcquire(l), s.tp, l) <==> s.locks[l].owner.None? || (s.locks[l].owner == Some(s.tp) && s.thr[s.tp].pc == Code(Caller))
    ensures !Gets(s, DoAcquire(l), s.tp, l) ==>
      var t := Step(s, DoAcquire(l)).thr[s.tp]; t.st == Waiting && t.cond == Some(LockCv(l)) && t.pc == WaitMarked(Locking(l))
    ensures forall u :: u != s.tp ==> (u in s.thr <==> u in Step(s, DoAcquire(l)).thr) && (u in s.thr ==> Step(s, DoAcquire(l)).thr[u] == s.thr[u])
  {
    assert Step(s, DoAcquire(l)) == Acquire(s, l);
    hide Step, Waiters;
  }

  lemma AcquireDepth(s: State, l: nat, u: nat, k: nat)
    requires s.tp in s.thr && Enabled(s, DoAcquire(l))
    ensures CountOf(Acquire(s, l), u, k) == DepthNext(s, DoAcquire(l), u, k, CountOf(s, u, k))
  {
    assert Step(s, DoAcquire(l)) == Acquire(s, l);
    hide Step, Waiters;
  }

  lemma ReleaseDepth(s: State, l: nat, u: nat, k: nat)
    requires s.tp in s.thr && Enabled(s, DoRelease(l)) && LockOk(s, l)
    ensures CountOf(Release(s, l), u, k) == DepthNext(s, DoRelease(l), u, k, CountOf(s, u, k))
  {
    hide Step, Waiters, Unlink, Broadcast;
    ReleasedLocks(s, l);
    hide Release;
  }

  lemma ReleasedLocks(s: State, l: nat)
    requires s.tp in s.thr && l in s.locks
    ensures Release(s, l).locks == if s.locks[l].owner != Some(s.tp) then s.locks
      else s.locks[l := if s.locks[l].count > 1 then Lock(Some(s.tp), s.locks[l].count - 1) else Lock(None, 0)]
  {
    hide Waiters, Unlink;
  }

  /** No other step touches a lock. */
  lemma OtherSteps(s: State, a: Action)
    requires s.tp in s.thr && Enabled(s, a) && !a.DoAcquire? && !a.DoRelease?
    ensures Step(s, a).locks == s.locks
  {
    hide Waiters, AnyMatch, FirstReapable;
  }

  lemma StepDepth(s: State, a: Action, u: nat, l: nat)
    requires s.tp in s.thr && LocksOk(s) && Enabled(s, a)
    ensures CountOf(Step(s, a), u, l) == DepthNext(s, a, u, l, CountOf(s, u, l))
  {
    match a
    case DoAcquire(k) =>
      AcquireDepth(s, k, u, l);
    case DoRelease(k) =>
      assert LockOk(s, k);
      ReleaseDepth(s, k, u, l);
    case _ =>
      OtherSteps(s, a);
      hide Step;
  }

  /** In every run a lock counts exactly how deep its owner is, and nobody else is inside. */
  lemma {:induction false} RunDepth(s: State, acts: seq<Action>, u: nat, l: nat)
    requires Inv(s) && Possible(s, acts)
    ensures CountOf(After(s, acts), u, l) == DepthAfter(s, acts, u, l, CountOf(s, u, l))
    decreases |acts|
  {
    if acts != [] {
      StepInv(s, acts[0]);
      InvTp(s);
      StepDepth(s, acts[0], u, l);
      hide Inv, Step, DepthNext, CountOf;
      RunDepth(Step(s, acts[0]), acts[1..], u, l);
    }
  }

  /** From the start: a thread owns a lock exactly while it has come back from more acquires than it has made
      releases, whatever the others do in between, and no two threads are inside at once. */
  lemma OwnedWhileInside(locks: set<nat>, acts: seq<Action>, u: nat, l: nat)
    requires l in locks && Possible(Start(locks), acts)
    ensures l in After(Start(locks), acts).locks
    ensures var s := After(Start(locks), acts); var n := DepthAfter(Start(locks), acts, u, l, 0);
      && (s.locks[l].owner == Some(u) <==> n > 0)
      && (n > 0 ==> s.locks[l].count == n)
      && forall v :: DepthAfter(Start(locks), acts, v, l, 0) > 0 && n > 0 ==> u == v
  {
    var s0 := Start(locks);
    StartInv(locks);
    RunInv(s0, acts);
    LocksStay(s0, acts, l);
    var s := After(s0, acts);
    assert LockOk(s, l);
    assert forall v :: CountOf(s0, v, l) == 0;
    hide Inv, Start, DepthAfter;
    forall v ensures CountOf(s, v, l) == DepthAfter(s0, acts, v, l, 0) {
      RunDepth(s0, acts, v, l);
    }
  }

  lemma {:induction false} LocksStay(s: State, acts: seq<Action>, l: nat)
    requires Inv(s) && Possible(s, acts) && l in s.locks
    ensures l in After(s, acts).locks
    decreases |acts|
  {
    if acts != [] {
      StepInv(s, acts[0]);
      StepLocks(s, acts[0], l);
      hide Inv, Step;
      LocksStay(Step(s, acts[0]), acts[1..], l);
    }
  }

  lemma StepLocks(s: State, a: Action, l: nat)
    requires s.tp in s.thr && Enabled(s, a) && l in s.locks
    ensures l in Step(s, a).locks
  {
    if !a.DoAcquire? && !a.DoRelease? {
      OtherSteps(s, a);
    } else {
      hide Waiters, Unlink;
    }
  }

  // ---- the list of held locks ----

  /** When each lock got its present owner, after a step made at time t. */
  ghost function TakenNext(s: State, a: Action, taken: map<nat, nat>, t: nat): map<nat, nat>
    requires s.tp in s.thr && Enabled(s, a)
  {
    if a.DoAcquire? && s.locks[a.l].owner.None? then taken[a.l := t] else taken
  }

  ghost function TakenAfter(s: State, acts: seq<Action>, taken: map<nat, nat>, t: nat): map<nat, nat>
    requires Possible(s, acts)
    decreases |acts|
  {
    if acts == [] then taken else TakenAfter(Step(s, acts[0]), acts[1..], TakenNext(s, acts[0], taken, t), t + 1)
  }

  /** The list is in the order of these times, the latest first, all before t. */
  ghost predicate LatestFirst(ls: seq<nat>, taken: map<nat, nat>, t: nat) {
    && (forall i :: 0 <= i < |ls| ==> ls[i] in taken && taken[ls[i]] < t)
    && forall i, j :: 0 <= i < j < |ls| ==> taken[ls[i]] > taken[ls[j]]
  }

  ghost predicate HeldInOrder(s: State, taken: map<nat, nat>, t: nat) {
    forall u :: u in s.thr ==> LatestFirst(s.thr[u].locks, taken, t)
  }

  /** What a step does to a thread's list. */
  lemma StepHeld(s: State, a: Action, u: nat)
    requires s.tp in s.thr && Enabled(s, a) && u in Step(s, a).thr && s.births !in s.thr
    ensures var ls := Step(s, a).thr[u].locks;
      if u !in s.thr then ls == []
      else if u == s.tp && a.DoAcquire? && s.locks[a.l].owner.None? then ls == [a.l] + s.thr[u].locks
      else ls == s.thr[u].locks || (a.DoRelease? && ls == Unlink(s.thr[u].locks, a.l))
  {
    hide Acquire, Release, Join, Suspend, Waiters, FreeSlot, Unlink;
    match a
    case DoAcquire(l) => AcquireHeld(s, l, u);
    case DoRelease(l) => ReleaseHeld(s, l, u);
    case DoJoin(tid) => JoinHeld(s, tid, u);
    case DoYield => SuspendHeld(s, u);
    case DoSuspend => SuspendHeld(s, u);
    case _ =>
  }

  lemma SuspendHeld(s: State, u: nat)
    requires s.tp in s.thr && u in Suspend(s).thr
    ensures u in s.thr && Suspend(s).thr[u].locks == s.thr[u].locks
  {
  }

  lemma AcquireHeld(s: State, l: nat, u: nat)
    requires s.tp in s.thr && l in s.locks && u in Acquire(s, l).thr
    ensures u in s.thr
    ensures Acquire(s, l).thr[u].locks == if u == s.tp && s.locks[l].owner.None? then [l] + s.thr[u].locks else s.thr[u].locks
  {
  }

  lemma ReleaseHeld(s: State, l: nat, u: nat)
    requires s.tp in s.thr && l in s.locks && u in Release(s, l).thr
    ensures u in s.thr
    ensures Release(s, l).thr[u].locks == s.thr[u].locks || Release(s, l).thr[u].locks == Unlink(s.thr[u].locks, l)
  {
    hide Waiters, Unlink;
  }

  lemma JoinHeld(s: State, tid: nat, u: nat)
    requires s.tp in s.thr && u in Join(s, tid).thr
    ensures u in s.thr && Join(s, tid).thr[u].locks == s.thr[u].locks
  {
    hide AnyMatch;
  }

  lemma {:induction false} UnlinkOrder(ls: seq<nat>, l: nat, taken: map<nat, nat>, t: nat)
    requires LatestFirst(ls, taken, t)
    ensures LatestFirst(Unlink(ls, l), taken, t) && forall k :: k in Unlink(ls, l) ==> k in ls
  {
    if ls != [] {
      assert forall i :: 0 <= i < |ls[1..]| ==> ls[1..][i] == ls[i + 1];
      assert LatestFirst(ls[1..], taken, t);
      if ls[0] != l {
        UnlinkOrder(ls[1..], l, taken, t);
        var rest := Unlink(ls[1..], l);
        forall j | 0 <= j < |rest| ensures taken[ls[0]] > taken[rest[j]] {
          assert rest[j] in rest;
          var i :| 0 <= i < |ls[1..]| && ls[1..][i] == rest[j];
        }
      }
    }
  }

  lemma HeldOne(s: State, a: Action, u: nat, taken: map<nat, nat>, t: nat)
    requires Inv(s) && Enabled(s, a) && HeldInOrder(s, taken, t) && u in Step(s, a).thr
    ensures LatestFirst(Step(s, a).thr[u].locks, TakenNext(s, a, taken, t), t + 1)
  {
    hide Inv, Step, LatestFirst, Unlink;
    InvTp(s);
    FreshName(s);
    StepHeld(s, a, u);
    if u in s.thr {
      FreeUnheld(s, a, u);
      var ls := s.thr[u].locks;
      assert LatestFirst(ls, taken, t);
      LaterStill(ls, taken, TakenNext(s, a, taken, t), t);
      if u == s.tp && a.DoAcquire? && s.locks[a.l].owner.None? {
        AllEarlier(ls, taken, t);
        OneInFront(a.l, ls, taken[a.l := t], t);
      } else if a.DoRelease? {
        UnlinkOrder(ls, a.l, taken, t + 1);
      }
    } else {
      NoneHeld(TakenNext(s, a, taken, t), t + 1);
    }
  }

  lemma FreshName(s: State)
    requires Inv(s)
    ensures s.births !in s.thr
  {
    NotBorn(s);
  }

  lemma NoneHeld(taken: map<nat, nat>, t: nat)
    ensures LatestFirst([], taken, t)
  {
  }

  /** A lock that is taken in this step was on nobody's list. */
  lemma FreeUnheld(s: State, a: Action, u: nat)
    requires Inv(s) && s.tp in s.thr && Enabled(s, a) && u in s.thr
    ensures a.DoAcquire? && s.locks[a.l].owner.None? ==> a.l !in s.thr[u].locks
  {
    assert HoldsOk(s, u);
    hide Inv;
  }

  lemma AllEarlier(ls: seq<nat>, taken: map<nat, nat>, t: nat)
    requires LatestFirst(ls, taken, t)
    ensures forall k :: k in ls ==> k in taken && taken[k] < t
  {
  }

  lemma LaterStill(ls: seq<nat>, taken: map<nat, nat>, taken': map<nat, nat>, t: nat)
    requires LatestFirst(ls, taken, t) && forall l :: l in ls && l in taken ==> l in taken' && taken'[l] == taken[l]
    ensures LatestFirst(ls, taken', t + 1)
  {
    assert forall i :: 0 <= i < |ls| ==> ls[i] in ls;
  }

  lemma OneInFront(l: nat, ls: seq<nat>, taken: map<nat, nat>, t: nat)
    requires LatestFirst(ls, taken, t + 1) && l in taken && taken[l] == t && l !in ls && forall k :: k in ls ==> k in taken && taken[k] < t
    ensures LatestFirst([l] + ls, taken, t + 1)
  {
    forall i | 0 <= i < |[l] + ls| ensures ([l] + ls)[i] == if i == 0 then l else ls[i - 1] {
    }
    assert forall i :: 0 <= i < |ls| ==> ls[i] in ls;
  }

  lemma HeldStep(s: State, a: Action, taken: map<nat, nat>, t: nat)
    requires Inv(s) && Enabled(s, a) && HeldInOrder(s, taken, t)
    ensures s.tp in s.thr && HeldInOrder(Step(s, a), TakenNext(s, a, taken, t), t + 1)
  {
    hide Inv, Step, Enabled, LatestFirst, TakenNext;
    InvTp(s);
    forall u | u in Step(s, a).thr ensures LatestFirst(Step(s, a).thr[u].locks, TakenNext(s, a, taken, t), t + 1) {
      HeldOne(s, a, u, taken, t);
    }
  }

  lemma {:induction false} RunHeld(s: State, acts: seq<Action>, taken: map<nat, nat>, t: nat)
    requires Inv(s) && Possible(s, acts) && HeldInOrder(s, taken, t)
    ensures HeldInOrder(After(s, acts), TakenAfter(s, acts, taken, t), t + |acts|)
    decreases |acts|
  {
    if acts != [] {
      StepInv(s, acts[0]);
      hide Inv, Step, HeldInOrder, TakenNext;
      InvTp(s);
      HeldStep(s, acts[0], taken, t);
      RunHeld(Step(s, acts[0]), acts[1..], TakenNext(s, acts[0], taken, t), t + 1);
    }
  }

  /** In every run from the start a thread's list has the lock it took last in front, so an exiting thread gives its
      locks back in the reverse of the order in which it took them. */
  lemma LastTakenFirst(locks: set<nat>, acts: seq<Action>, u: nat, i: nat, j: nat)
    requires Possible(Start(locks), acts) && u in After(Start(locks), acts).thr && i < j < |After(Start(locks), acts).thr[u].locks|
    ensures var ls := After(Start(locks), acts).thr[u].locks; var taken := TakenAfter(Start(locks), acts, map[], 0);
      ls[i] in taken && ls[j] in taken && taken[ls[i]] > taken[ls[j]]
  {
    var s := Start(locks);
    StartInv(locks);
    assert s.thr.Keys == {MAIN, IDLE};
    assert HeldInOrder(s, map[], 0);
    RunHeld(s, acts, map[], 0);
    assert LatestFirst(After(s, acts).thr[u].locks, TakenAfter(s, acts, map[], 0), |acts|);
  }

  // ---- giving a lock back ----

  /** A lock taken n times by its owner stays with it through n - 1 releases and is free after the n-th. */
  lemma {:induction false} LastReleaseFrees(s: State, l: nat, n: nat)
    requires s.tp in s.thr && s.thr[s.tp].pc == Code(Caller) && s.tp != IDLE && s.tp !in Waiters(s, LockCv(l))
    requires l in s.locks && s.locks[l].owner == Some(s.tp) && 0 < n <= s.locks[l].count
    ensures var acts := seq(n, i => DoRelease(l));
      && Possible(s, acts) && l in After(s, acts).locks && After(s, acts).tp == s.tp
      && After(s, acts).locks[l] == if n < s.locks[l].count then Lock(Some(s.tp), s.locks[l].count - n) else Lock(None, 0)
    decreases n
  {
    var acts := seq(n, i => DoRelease(l));
    var s1 := Step(s, DoRelease(l));
    assert acts[0] == DoRelease(l);
    ReleasedLocks(s, l);
    if n > 1 {
      assert acts[1..] == seq(n - 1, i => DoRelease(l));
      LastReleaseFrees(s1, l, n - 1);
    } else {
      assert acts[1..] == [];
      hide Waiters, Unlink;
    }
  }
}
