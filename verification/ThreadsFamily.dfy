/** Parents and children over whole runs: spawning, joining, and who takes over an orphan. */
module ThreadsFamily {
  import opened Base
  import opened Threads
  import opened ThreadsInv
  import opened ThreadsKin
  import opened ThreadsRun

  /** c is a child of u that thread_join(tid) is about. */
  ghost predicate Child(s: State, u: nat, tid: nat, c: nat) {
    c in s.thr && s.thr[c].parent == Some(u) && (tid == 0 || s.thr[c].id == tid)
  }

  /** An exited one, in the lowest slot of all such. */
  ghost predicate FirstExited(s: State, u: nat, tid: nat, c: nat) {
    && Child(s, u, tid, c) && s.thr[c].st == Exited
    && forall d :: Child(s, u, tid, d) && s.thr[d].st == Exited ==> s.thr[c].id <= s.thr[d].id
  }

  /** Thread t as it is when c has left the table: children of c go to c's parent. */
  ghost function Orphaned(s: State, c: nat, t: Thread): Thread
    requires c in s.thr
  {
    if t.parent == Some(c) then t.(parent := s.thr[c].parent) else t
  }

  /** Exactly c has left the table, and u is back in its own code. */
  ghost predicate Reaped(s: State, s': State, u: nat, c: nat)
    requires u in s.thr && c in s.thr
  {
    && s'.thr.Keys == s.thr.Keys - {c} && u != c && s.thr[c].id < |s.tab|
    && s'.tab == s.tab[s.thr[c].id := None]
    && s'.thr[u] == Orphaned(s, c, s.thr[u]).(pc := Code(Caller))
    && (forall v :: v in s'.thr && v != u ==> s'.thr[v] == Orphaned(s, c, s.thr[v]))
    && s' == s.(thr := s'.thr, tab := s'.tab)
  }

  lemma ChildSlot(s: State, u: nat, tid: nat, c: nat)
    requires TableOk(s) && ParentsOk(s) && Child(s, u, tid, c)
    ensures 1 <= s.thr[c].id < |s.tab| && s.tab[s.thr[c].id] == Some(c) && Matches(s, u, tid, s.thr[c].id)
  {
    assert ThreadSlot(s, c) && ThreadSlot(s, MAIN);
  }

  lemma SlotChild(s: State, u: nat, tid: nat, i: nat)
    requires TableOk(s) && i < |s.tab| && Matches(s, u, tid, i)
    ensures Child(s, u, tid, s.tab[i].value) && s.thr[s.tab[i].value].id == i
  {
    assert SlotThread(s, i);
  }

  lemma NoMatch(s: State, u: nat, tid: nat)
    requires TableOk(s) && ParentsOk(s)
    ensures AnyMatch(s, u, tid) <==> exists c :: Child(s, u, tid, c)
  {
    hide TableOk, ParentsOk, Matches, Child;
    if c :| Child(s, u, tid, c) {
      ChildSlot(s, u, tid, c);
    }
    if i :| 1 <= i < |s.tab| && Matches(s, u, tid, i) {
      SlotChild(s, u, tid, i);
    }
  }

  /** The slot the scan finds is that of the first exited child, and it finds one when there is one. */
  lemma ScanFinds(s: State, u: nat, tid: nat)
    requires TableOk(s) && ParentsOk(s)
    ensures var r := FirstReapable(s, u, tid, 1);
      if r.Some? then r.value < |s.tab| && s.tab[r.value].Some? && FirstExited(s, u, tid, s.tab[r.value].value) && s.thr[s.tab[r.value].value].id == r.value
      else forall c :: Child(s, u, tid, c) ==> s.thr[c].st != Exited
  {
    var r := FirstReapable(s, u, tid, 1);
    if r.Some? {
      SlotChild(s, u, tid, r.value);
      forall d | Child(s, u, tid, d) && s.thr[d].st == Exited ensures r.value <= s.thr[d].id {
        ChildSlot(s, u, tid, d);
        ReapableFirst(s, u, tid, 1, s.thr[d].id);
      }
    } else {
      forall c | Child(s, u, tid, c) ensures s.thr[c].st != Exited {
        ChildSlot(s, u, tid, c);
        assert !Reapable(s, u, tid, s.thr[c].id);
      }
    }
  }

  lemma {:induction false} ReapableFirst(s: State, u: nat, tid: nat, i: nat, j: nat)
    requires i <= j < |s.tab| && Reapable(s, u, tid, j)
    ensures FirstReapable(s, u, tid, i).Some? && FirstReapable(s, u, tid, i).value <= j
    decreases j - i
  {
    if !Reapable(s, u, tid, i) {
      ReapableFirst(s, u, tid, i + 1, j);
    }
  }

  /** What one round of thread_join does: with an exited matching child exactly the one in the lowest slot leaves the
      table and the call returns; with no matching child nothing leaves and the call returns; with live ones only,
      the caller waits for one of its children to exit. */
  lemma JoinMeaning(s: State, tid: nat)
    requires Inv(s) && Enabled(s, DoJoin(tid))
    ensures s.tp in s.thr
    ensures forall c :: FirstExited(s, s.tp, tid, c) ==> Reaped(s, Step(s, DoJoin(tid)), s.tp, c)
    ensures (exists c :: Child(s, s.tp, tid, c) && s.thr[c].st == Exited) ==> exists c :: FirstExited(s, s.tp, tid, c)
    ensures (forall c :: !Child(s, s.tp, tid, c)) ==> Step(s, DoJoin(tid)) == Put(s, s.tp, s.thr[s.tp].(pc := Code(Caller)))
    ensures (exists c :: Child(s, s.tp, tid, c)) && (forall c :: Child(s, s.tp, tid, c) ==> s.thr[c].st != Exited) ==>
      Step(s, DoJoin(tid)) == Put(s, s.tp, s.thr[s.tp].(st := Waiting, cond := Some(ChildExit(s.tp)), pc := WaitMarked(Joining(tid))))
  {
    hide Inv, Reaped, Join, TableOk, ParentsOk, StatesOk;
    InvParts(s);
    assert Step(s, DoJoin(tid)) == Join(s, tid);
    hide Step;
    JoinCases(s, tid);
    forall c | FirstExited(s, s.tp, tid, c) ensures Reaped(s, Join(s, tid), s.tp, c) {
      JoinReaps(s, tid, c);
    }
  }

  lemma InvParts(s: State)
    requires Inv(s)
    ensures s.tp in s.thr && TableOk(s) && ParentsOk(s) && StatesOk(s)
  {
  }

  lemma JoinCases(s: State, tid: nat)
    requires TableOk(s) && ParentsOk(s)
    ensures (exists c :: Child(s, s.tp, tid, c) && s.thr[c].st == Exited) ==> exists c :: FirstExited(s, s.tp, tid, c)
    ensures (forall c :: !Child(s, s.tp, tid, c)) ==> Join(s, tid) == Put(s, s.tp, s.thr[s.tp].(pc := Code(Caller)))
    ensures (exists c :: Child(s, s.tp, tid, c)) && (forall c :: Child(s, s.tp, tid, c) ==> s.thr[c].st != Exited) ==>
      Join(s, tid) == Put(s, s.tp, s.thr[s.tp].(st := Waiting, cond := Some(ChildExit(s.tp)), pc := WaitMarked(Joining(tid))))
  {
    ScanFinds(s, s.tp, tid);
    NoMatch(s, s.tp, tid);
    hide TableOk, ParentsOk, AnyMatch, FirstReapable, Reclaim;
  }

  lemma JoinReaps(s: State, tid: nat, c: nat)
    requires s.tp in s.thr && TableOk(s) && ParentsOk(s) && StatesOk(s) && Enabled(s, DoJoin(tid)) && FirstExited(s, s.tp, tid, c)
    ensures Reaped(s, Join(s, tid), s.tp, c)
  {
    hide TableOk, ParentsOk, FirstReapable, AnyMatch, Reaped, Reclaim, Reapable;
    ScanFinds(s, s.tp, tid);
    ChildSlot(s, s.tp, tid, c);
    assert PcOk(s, s.tp);
    hide StatesOk;
    var r := FirstReapable(s, s.tp, tid, 1);
    SameSlot(s, s.tp, tid, c, s.tab[r.value].value);
    ReclaimReaps(s, r.value, c);
  }

  lemma ReclaimReaps(s: State, i: nat, c: nat)
    requires s.tp in s.thr && i < |s.tab| && s.tab[i] == Some(c) && c in s.thr && s.thr[c].id == i && c != s.tp
    ensures Reaped(s, Reclaim(Put(s, s.tp, s.thr[s.tp].(pc := Code(Caller))), i), s.tp, c)
  {
  }

  lemma SameSlot(s: State, u: nat, tid: nat, c: nat, d: nat)
    requires TableOk(s) && FirstExited(s, u, tid, c) && FirstExited(s, u, tid, d)
    ensures c == d
  {
    assert ThreadSlot(s, c) && ThreadSlot(s, d);
  }

  // ---- a join over a run ----

  /** In this step a join(tid) of u is answered: a matching child is reclaimed, or there is none. */
  ghost predicate Answered(s: State, a: Action, u: nat, tid: nat)
    requires s.tp in s.thr && Enabled(s, a)
  {
    && s.tp == u && a == DoJoin(tid)
    && ((exists c :: FirstExited(s, u, tid, c) && c !in Step(s, a).thr) || forall c :: !Child(s, u, tid, c))
  }

  ghost predicate AnsweredIn(s: State, acts: seq<Action>, u: nat, tid: nat)
    requires Possible(s, acts)
    decreases |acts|
  {
    acts != [] && (Answered(s, acts[0], u, tid) || AnsweredIn(Step(s, acts[0]), acts[1..], u, tid))
  }

  /** u is inside thread_join(tid). */
  ghost predicate InJoin(s: State, u: nat, tid: nat) {
    u in s.thr && ContOf(s.thr[u].pc) == Joining(tid)
  }

  lemma JoinAnswered(s: State, tid: nat)
    requires Inv(s) && Enabled(s, DoJoin(tid))
    ensures InJoin(Step(s, DoJoin(tid)), s.tp, tid) || Answered(s, DoJoin(tid), s.tp, tid)
  {
    hide Inv, Step;
    JoinMeaning(s, tid);
    var u := s.tp;
    if c :| FirstExited(s, u, tid, c) {
      assert c !in Step(s, DoJoin(tid)).thr;
    } else if exists c :: Child(s, u, tid, c) {
      assert forall c :: Child(s, u, tid, c) ==> s.thr[c].st != Exited;
    }
  }

  /** A thread inside thread_join leaves it only with an answer. */
  lemma StepInJoin(s: State, a: Action, u: nat, tid: nat)
    requires Inv(s) && Enabled(s, a) && InJoin(s, u, tid)
    ensures InJoin(Step(s, a), u, tid) || Answered(s, a, u, tid)
  {
    InvParts(s);
    if s.tp == u && a.DoJoin? {
      JoinAnswered(s, tid);
      hide Inv, Step;
    } else {
      assert PcOk(s, u) && PcOk(s, s.tp);
      hide Inv, StatesOk, TableOk, ParentsOk, Answered;
      OtherJoin(s, a, u, tid);
    }
  }

  lemma OtherJoin(s: State, a: Action, u: nat, tid: nat)
    requires s.tp in s.thr && Enabled(s, a) && InJoin(s, u, tid) && PcOk(s, u) && PcOk(s, s.tp) && !(s.tp == u && a.DoJoin?)
    requires s.births !in s.thr
    ensures InJoin(Step(s, a), u, tid)
  {
    hide Waiters, Unlink, FreeSlot, Acquire, Release, Join;
    match a
    case DoAcquire(l) => LockJoin(s, l, u, tid);
    case DoRelease(l) => LockJoin(s, l, u, tid);
    case DoJoin(t) => OthersJoin(s, t, u, tid);
    case _ =>
  }

  lemma LockJoin(s: State, l: nat, u: nat, tid: nat)
    requires s.tp in s.thr && l in s.locks && InJoin(s, u, tid)
    ensures s.tp != u ==> InJoin(Acquire(s, l), u, tid)
    ensures InJoin(Release(s, l), u, tid)
  {
    hide Waiters, Unlink;
  }

  lemma OthersJoin(s: State, t: nat, u: nat, tid: nat)
    requires s.tp in s.thr && s.tp != u && InJoin(s, u, tid) && PcOk(s, u)
    ensures InJoin(Join(s, t), u, tid)
  {
    hide AnyMatch;
  }

  /** A thread that was inside thread_join(tid) and is no longer got its answer in between: a matching child was
      reclaimed, or it had none. */
  lemma {:induction false} JoinReturns(s: State, acts: seq<Action>, u: nat, tid: nat)
    requires Inv(s) && Possible(s, acts) && InJoin(s, u, tid) && !InJoin(After(s, acts), u, tid)
    ensures AnsweredIn(s, acts, u, tid)
    decreases |acts|
  {
    if acts != [] && !Answered(s, acts[0], u, tid) {
      StepInv(s, acts[0]);
      StepInJoin(s, acts[0], u, tid);
      hide Inv, Step, Answered, InJoin;
      JoinReturns(Step(s, acts[0]), acts[1..], u, tid);
    }
  }

  // ---- spawning, and who is whose parent ----

  /** thread_spawn takes the lowest free slot above main's for a ready child of the caller, and does nothing exactly
      when there is none. */
  lemma SpawnMeaning(s: State)
    requires s.tp in s.thr && Enabled(s, DoSpawn)
    ensures (forall i :: 1 <= i < |s.tab| ==> s.tab[i].Some?) ==> Step(s, DoSpawn) == s
    ensures forall i: nat :: 1 <= i < |s.tab| && s.tab[i].None? && (forall j :: 1 <= j < i ==> s.tab[j].Some?) ==>
      && Step(s, DoSpawn).tab == s.tab[i := Some(s.births)]
      && Step(s, DoSpawn).thr.Keys == s.thr.Keys + {s.births}
      && (s.births != s.tp ==> Step(s, DoSpawn).thr[s.births] == Thread(i, Ready, None, Some(s.tp), Code(Caller), []))
      && Step(s, DoSpawn).thr[s.tp] == s.thr[s.tp].(pc := SpawnMarked(s.births))
  {
    forall i: nat | 1 <= i < |s.tab| && s.tab[i].None? && (forall j :: 1 <= j < i ==> s.tab[j].Some?) ensures FreeSlot(s.tab, 1) == Some(i) {
      LowestFree(s.tab, 1, i);
    }
    hide FreeSlot;
  }

  lemma {:induction false} LowestFree(tab: seq<Option<nat>>, k: nat, i: nat)
    requires k <= i < |tab| && tab[i].None? && forall j :: k <= j < i ==> tab[j].Some?
    ensures FreeSlot(tab, k) == Some(i)
    decreases i - k
  {
    if k < i {
      LowestFree(tab, k + 1, i);
    }
  }

  /** Who spawned whom, after a step. */
  ghost function SpawnerNext(s: State, a: Action, spawner: map<nat, nat>): map<nat, nat>
    requires s.tp in s.thr && Enabled(s, a)
  {
    if s.births in Step(s, a).thr && s.births !in s.thr then spawner[s.births := s.tp] else spawner
  }

  ghost function SpawnersAfter(s: State, acts: seq<Action>, spawner: map<nat, nat>): map<nat, nat>
    requires Possible(s, acts)
    decreases |acts|
  {
    if acts == [] then spawner else SpawnersAfter(Step(s, acts[0]), acts[1..], SpawnerNext(s, acts[0], spawner))
  }

  /** Along the spawners of u, the first that is still in the table. */
  ghost function Nearest(spawner: map<nat, nat>, alive: set<nat>, u: nat): Option<nat>
    decreases u
  {
    if u !in spawner || spawner[u] >= u then None
    else if spawner[u] in alive then Some(spawner[u])
    else Nearest(spawner, alive, spawner[u])
  }

  /** Every thread's parent is the nearest of those it descends from that is still in the table. */
  ghost predicate KinOk(s: State, spawner: map<nat, nat>) {
    && (forall u :: u in spawner ==> spawner[u] < u < s.births)
    && MAIN !in spawner
    && forall u :: u in s.thr ==> s.thr[u].parent == Nearest(spawner, s.thr.Keys, u)
  }

  lemma {:induction false} NearestLess(spawner: map<nat, nat>, alive: set<nat>, c: nat, u: nat)
    requires c in alive
    ensures Nearest(spawner, alive - {c}, u) == if Nearest(spawner, alive, u) == Some(c) then Nearest(spawner, alive, c) else Nearest(spawner, alive, u)
    decreases u
  {
    if u in spawner && spawner[u] < u {
      if spawner[u] == c {
        NearestSelf(spawner, alive, c, c);
      } else if spawner[u] !in alive {
        NearestLess(spawner, alive, c, spawner[u]);
      }
    }
  }

  lemma {:induction false} NearestSelf(spawner: map<nat, nat>, alive: set<nat>, c: nat, u: nat)
    requires u <= c
    ensures Nearest(spawner, alive - {c}, u) == Nearest(spawner, alive, u)
    decreases u
  {
    if u in spawner && spawner[u] < u {
      NearestSelf(spawner, alive, c, spawner[u]);
    }
  }

  lemma {:induction false} NearestMore(spawner: map<nat, nat>, alive: set<nat>, n: nat, p: nat, u: nat)
    requires u < n
    ensures Nearest(spawner[n := p], alive + {n}, u) == Nearest(spawner, alive, u)
    decreases u
  {
    if u in spawner && spawner[u] < u {
      NearestMore(spawner, alive, n, p, spawner[u]);
    }
  }

  lemma ReapedKin(s: State, s': State, spawner: map<nat, nat>, u: nat, c: nat)
    requires KinOk(s, spawner) && u in s.thr && c in s.thr && Reaped(s, s', u, c)
    ensures KinOk(s', spawner) && forall v :: v in s'.thr ==> v in s.thr
  {
    forall v | v in s'.thr ensures s'.thr[v].parent == Nearest(spawner, s'.thr.Keys, v) {
      NearestLess(spawner, s.thr.Keys, c, v);
    }
  }

  lemma BornKin(s: State, s': State, spawner: map<nat, nat>)
    requires KinOk(s, spawner) && s.tp in s.thr && (forall u :: u in s.thr ==> u < s.births) && s'.births == s.births + 1
    requires s'.thr.Keys == s.thr.Keys + {s.births} && s'.thr[s.births].parent == Some(s.tp)
    requires forall u :: u in s.thr ==> s'.thr[u].parent == s.thr[u].parent
    ensures KinOk(s', spawner[s.births := s.tp])
  {
    forall v | v in s'.thr ensures s'.thr[v].parent == Nearest(spawner[s.births := s.tp], s'.thr.Keys, v) {
      if v != s.births {
        NearestMore(spawner, s.thr.Keys, s.births, s.tp, v);
      }
    }
  }

  /** The same threads with the same parents. */
  ghost predicate SameParents(s: State, s': State) {
    s'.births == s.births && s'.thr.Keys == s.thr.Keys && forall u :: u in s.thr ==> s'.thr[u].parent == s.thr[u].parent
  }

  lemma SuspendKin(s: State)
    requires s.tp in s.thr
    ensures SameParents(s, Suspend(s))
  {
  }

  lemma LockKin(s: State, l: nat)
    requires s.tp in s.thr && l in s.locks
    ensures SameParents(s, Acquire(s, l)) && SameParents(s, Release(s, l))
  {
    hide Waiters, Unlink;
  }

  lemma ExitKin(s: State)
    requires s.tp in s.thr
    ensures SameParents(s, Exit(s))
  {
    hide Waiters;
  }

  lemma StepSameParents(s: State, a: Action)
    requires s.tp in s.thr && Enabled(s, a) && !a.DoSpawn? && !a.DoJoin?
    ensures SameParents(s, Step(s, a))
  {
    hide Waiters, Acquire, Release, SpawnMark, Join, Suspend, Exit;
    SuspendKin(s);
    ExitKin(s);
    if a.DoAcquire? || a.DoRelease? {
      LockKin(s, a.l);
    }
  }

  lemma StepKin(s: State, a: Action, spawner: map<nat, nat>)
    requires Inv(s) && Enabled(s, a) && KinOk(s, spawner)
    ensures KinOk(Step(s, a), SpawnerNext(s, a, spawner))
  {
    hide Inv, Step, KinOk, Enabled;
    InvParts(s);
    AllBelow(s);
    hide TableOk, ParentsOk, StatesOk;
    if a.DoJoin? {
      JoinKin(s, a.tid, spawner);
    } else if a.DoSpawn? {
      SpawnKin(s, spawner);
    } else {
      StepSameParents(s, a);
      SameParentsOk(s, Step(s, a), spawner);
    }
  }

  lemma AllBelow(s: State)
    requires TableOk(s)
    ensures forall u :: u in s.thr ==> u < s.births
  {
    assert forall u :: u in s.thr ==> ThreadSlot(s, u);
  }

  lemma SameParentsOk(s: State, s': State, spawner: map<nat, nat>)
    requires KinOk(s, spawner) && SameParents(s, s')
    ensures KinOk(s', spawner)
  {
  }

  lemma SpawnKin(s: State, spawner: map<nat, nat>)
    requires s.tp in s.thr && Enabled(s, DoSpawn) && KinOk(s, spawner) && forall u :: u in s.thr ==> u < s.births
    ensures KinOk(Step(s, DoSpawn), SpawnerNext(s, DoSpawn, spawner))
  {
    assert Step(s, DoSpawn) == SpawnMark(s);
    hide FreeSlot, Step, KinOk;
    if FreeSlot(s.tab, 1).Some? {
      BornKin(s, SpawnMark(s), spawner);
    }
  }

  lemma JoinKin(s: State, tid: nat, spawner: map<nat, nat>)
    requires Inv(s) && s.tp in s.thr && Enabled(s, DoJoin(tid)) && KinOk(s, spawner) && forall u :: u in s.thr ==> u < s.births
    ensures KinOk(Step(s, DoJoin(tid)), SpawnerNext(s, DoJoin(tid), spawner))
  {
    hide Inv, Step, KinOk, Enabled, Reaped;
    var s' := Step(s, DoJoin(tid));
    JoinMeaning(s, tid);
    if c :| FirstExited(s, s.tp, tid, c) {
      ReapedKin(s, s', spawner, s.tp, c);
    } else {
      hide FirstExited;
      assert (exists c :: Child(s, s.tp, tid, c)) ==> forall c :: Child(s, s.tp, tid, c) ==> s.thr[c].st != Exited;
      assert SameParents(s, s');
      SameParentsOk(s, s', spawner);
    }
  }

  lemma {:induction false} RunKin(s: State, acts: seq<Action>, spawner: map<nat, nat>)
    requires Inv(s) && Possible(s, acts) && KinOk(s, spawner)
    ensures KinOk(After(s, acts), SpawnersAfter(s, acts, spawner))
    decreases |acts|
  {
    if acts != [] {
      StepInv(s, acts[0]);
      StepKin(s, acts[0], spawner);
      hide Inv, Step, KinOk, SpawnerNext;
      RunKin(Step(s, acts[0]), acts[1..], SpawnerNext(s, acts[0], spawner));
    }
  }

  /** In every run a thread's parent is the thread that spawned it or, when that has been reclaimed, the nearest of
      its spawner's spawners that has not. */
  lemma ParentIsNearest(locks: set<nat>, acts: seq<Action>, u: nat)
    requires Possible(Start(locks), acts) && u in After(Start(locks), acts).thr
    ensures var s := After(Start(locks), acts); s.thr[u].parent == Nearest(SpawnersAfter(Start(locks), acts, map[IDLE := MAIN]), s.thr.Keys, u)
  {
    StartInv(locks);
    StartKin(locks);
    hide Inv, Start;
    RunKin(Start(locks), acts, map[IDLE := MAIN]);
  }

  lemma StartKin(locks: set<nat>)
    ensures KinOk(Start(locks), map[IDLE := MAIN])
  {
    assert Start(locks).thr.Keys == {MAIN, IDLE};
  }
}
