/** Steps that create, end and reclaim threads keep the invariant. */
module ThreadsKin {
  import opened Base
  import opened Threads
  import opened ThreadsInv

  // ---- spawning ----

  /** s' is s with one more thread n, a child of the running one, in a free slot. */
  ghost predicate Born(s: State, s': State, n: nat, i: nat) {
    && i < |s.tab| && s.tab[i].None? && n == s.births && s.tp in s.thr
    && s'.thr.Keys == s.thr.Keys + {n} && s'.tab == s.tab[i := Some(n)] && s'.births == s.births + 1
    && s'.ready == s.ready && s'.waits == s.waits && s'.locks == s.locks && s'.tp == s.tp
    && s'.thr[n] == Thread(i, Ready, None, Some(s.tp), Code(Caller), [])
    && s'.thr[s.tp] == s.thr[s.tp].(pc := SpawnMarked(n))
    && forall u :: u in s.thr && u != s.tp ==> s'.thr[u] == s.thr[u]
  }

  lemma SpawnIsBorn(s: State)
    requires TableOk(s) && FreeSlot(s.tab, 1).Some?
    ensures Born(s, SpawnMark(s), s.births, FreeSlot(s.tab, 1).value)
  {
  }

  lemma BornTable(s: State, s': State, n: nat, i: nat)
    requires TableOk(s) && ParentsOk(s) && Born(s, s', n, i)
    ensures TableOk(s') && ParentsOk(s')
  {
    NotBorn(s);
    BornParents(s, s', n, i);
    hide ParentsOk;
    forall u | u in s'.thr ensures ThreadSlot(s', u) {
      BornSlot(s, s', n, i, u);
    }
    forall j: nat ensures SlotThread(s', j) {
      BornEntry(s, s', n, i, j);
    }
    hide ThreadSlot, SlotThread;
    BornEnds(s, s', n, i);
  }

  lemma BornEnds(s: State, s': State, n: nat, i: nat)
    requires TableOk(s) && Born(s, s', n, i) && s.births !in s.thr
    ensures |s'.tab| == NTHR && s'.tp in s'.thr && MAIN in s'.thr && IDLE in s'.thr && s'.thr[MAIN].id == 0
  {
    hide ThreadSlot, SlotThread;
  }

  lemma BornEntry(s: State, s': State, n: nat, i: nat, j: nat)
    requires TableOk(s) && Born(s, s', n, i)
    ensures SlotThread(s', j)
  {
    assert SlotThread(s, j);
    hide TableOk;
  }

  lemma BornSlot(s: State, s': State, n: nat, i: nat, u: nat)
    requires TableOk(s) && Born(s, s', n, i) && u in s'.thr
    ensures ThreadSlot(s', u)
  {
    assert u in s.thr ==> ThreadSlot(s, u);
    hide TableOk;
  }

  lemma NotBorn(s: State)
    requires TableOk(s)
    ensures s.births !in s.thr && MAIN < s.births && IDLE < s.births && s.tp < s.births
  {
    assert s.births in s.thr ==> ThreadSlot(s, s.births);
    assert ThreadSlot(s, IDLE) && ThreadSlot(s, s.tp) && ThreadSlot(s, MAIN);
  }

  lemma BornParents(s: State, s': State, n: nat, i: nat)
    requires TableOk(s) && ParentsOk(s) && Born(s, s', n, i)
    ensures ParentsOk(s')
  {
    NotBorn(s);
    hide TableOk;
  }

  lemma BornStates(s: State, s': State, n: nat, i: nat)
    requires TableOk(s) && ListsOk(s) && StatesOk(s) && IdleOk(s) && Born(s, s', n, i) && s.thr[s.tp].pc.Code? && s.tp != IDLE
    ensures ListsOk(s') && StatesOk(s') && IdleOk(s')
  {
    NotBorn(s);
    assert n !in s.ready;
    hide TableOk, ListsOk, StatesOk, IdleOk, Waiters;
    SelfUnlisted(s);
    BornLists(s, s', n, i);
    BornPlaces(s, s', n, i);
    BornIdle(s, s', n, i);
  }

  lemma BornPlaces(s: State, s': State, n: nat, i: nat)
    requires s.tp in s.thr && StatesOk(s) && Born(s, s', n, i) && n !in s.thr && n !in s.ready && s.thr[s.tp].pc.Code?
    ensures StatesOk(s')
  {
    hide PlacedOk, PcOk;
    forall u | u in s'.thr ensures PlacedOk(s', u) && PcOk(s', u) {
      BornOne(s, s', n, i, u);
    }
  }

  lemma BornIdle(s: State, s': State, n: nat, i: nat)
    requires IdleOk(s) && Born(s, s', n, i) && n !in s.thr && s.tp != IDLE
    ensures IdleOk(s')
  {
  }

  lemma BornLists(s: State, s': State, n: nat, i: nat)
    requires ListsOk(s) && Born(s, s', n, i) && n !in s.thr && s.tp !in s.ready && forall c :: s.tp !in Waiters(s, c)
    ensures ListsOk(s')
  {
    assert forall c :: Waiters(s', c) == Waiters(s, c);
    hide Waiters, NoDup;
  }

  lemma BornOne(s: State, s': State, n: nat, i: nat, u: nat)
    requires s.tp in s.thr && StatesOk(s) && Born(s, s', n, i) && n !in s.thr && n !in s.ready && s.thr[s.tp].pc.Code? && u in s'.thr
    ensures PlacedOk(s', u) && PcOk(s', u)
  {
    assert u in s.thr ==> PlacedOk(s, u) && PcOk(s, u);
    assert forall c :: Waiters(s', c) == Waiters(s, c);
    hide Waiters, StatesOk;
  }

  lemma BornJoins(s: State, s': State, n: nat, i: nat)
    requires JoinsOk(s) && n !in s.thr && Born(s, s', n, i) && s.thr[s.tp].st == Self
    ensures JoinsOk(s')
  {
    forall u, tid, d | LiveChild(s, u, tid, d) ensures LiveChild(s', u, tid, d) {
    }
    forall u | u in s'.thr ensures JoinOk(s', u) {
      if u != n {
        assert JoinOk(s, u);
      }
    }
  }

  lemma BornLocks(s: State, s': State, n: nat, i: nat)
    requires LocksOk(s) && n !in s.thr && Born(s, s', n, i)
    ensures LocksOk(s')
  {
    assert forall c :: Waiters(s', c) == Waiters(s, c);
    hide Waiters;
    forall u | u in s'.thr ensures HoldsOk(s', u) {
      if u != n {
        assert HoldsOk(s, u);
      }
    }
    forall l | l in s'.locks ensures LockOk(s', l) {
      assert LockOk(s, l);
    }
  }

  lemma SpawnMarkInv(s: State)
    requires Inv(s) && s.thr[s.tp].pc == Code(Caller) && s.tp != IDLE
    ensures Inv(SpawnMark(s))
  {
    hide ListsOk, StatesOk, IdleOk, ParentsOk, JoinsOk, LocksOk, Waiters;
    if FreeSlot(s.tab, 1).Some? {
      var s', n, i := SpawnMark(s), s.births, FreeSlot(s.tab, 1).value;
      SpawnIsBorn(s);
      NotBorn(s);
      SelfUnlisted(s);
      hide TableOk, Born, FreeSlot;
      BornTable(s, s', n, i);
      BornStates(s, s', n, i);
      BornJoins(s, s', n, i);
      BornLocks(s, s', n, i);
    }
  }

  lemma SpawnInsertInv(s: State)
    requires Inv(s) && s.thr[s.tp].pc.SpawnMarked?
    ensures Inv(SpawnInsert(s))
  {
    hide TableOk, ListsOk, StatesOk, IdleOk, ParentsOk, JoinsOk, LocksOk, JoinOk;
    TpIn(s);
    var s' := SpawnInsert(s);
    assert forall d :: Waiters(s', d) == Waiters(s, d);
    hide Waiters;
    SpawnInsertStates(s);
    KinTable(s, s');
    SelfUnlisted(s);
    JoinOne(s, s', s.tp);
    KinJoins(s, s', s.tp);
    OldLockWaits(s, s');
    KinLocks(s, s');
  }

  lemma SpawnInsertStates(s: State)
    requires s.tp in s.thr && ListsOk(s) && StatesOk(s) && IdleOk(s) && s.thr[s.tp].pc.SpawnMarked?
    ensures ListsOk(SpawnInsert(s)) && StatesOk(SpawnInsert(s)) && IdleOk(SpawnInsert(s))
  {
    var s' := SpawnInsert(s);
    assert forall d :: Waiters(s', d) == Waiters(s, d);
    hide Waiters;
    SelfUnlisted(s);
    assert PcOk(s, s.tp);
    NoDupAppend(s.ready, [s.thr[s.tp].pc.child]);
    hide NoDup;
    forall u | u in s'.thr ensures PlacedOk(s', u) && PcOk(s', u) {
      assert PlacedOk(s, u) && PcOk(s, u);
    }
  }

  // ---- exiting ----

  /** The running thread marked as exited, its parent not yet told. */
  function Exiting(s: State): State
    requires s.tp in s.thr
  {
    Put(s, s.tp, s.thr[s.tp].(st := Exited, pc := ExitMarked))
  }

  lemma ExitingTable(s: State)
    requires TableOk(s) && ParentsOk(s)
    ensures TableOk(Exiting(s)) && ParentsOk(Exiting(s))
  {
    var s' := Exiting(s);
    forall u | u in s'.thr ensures ThreadSlot(s', u) {
      assert ThreadSlot(s, u);
    }
    forall i: nat ensures SlotThread(s', i) {
      assert SlotThread(s, i);
    }
  }

  lemma ExitingStates(s: State)
    requires s.tp in s.thr && ListsOk(s) && StatesOk(s) && IdleOk(s) && s.thr[s.tp].pc == Code(Caller) && s.tp != IDLE && s.thr[s.tp].locks == []
    ensures ListsOk(Exiting(s)) && StatesOk(Exiting(s)) && IdleOk(Exiting(s))
  {
    var s' := Exiting(s);
    SelfUnlisted(s);
    assert forall d :: Waiters(s', d) == Waiters(s, d);
    hide Waiters, NoDup;
    forall u | u in s'.thr ensures PlacedOk(s', u) && PcOk(s', u) {
      assert PlacedOk(s, u) && PcOk(s, u);
    }
  }

  /** Only the parent can have been waiting for the exiting thread, and it is on the list about to be woken. */
  lemma ExitingJoin(s: State, p: nat, u: nat)
    requires s.tp in s.thr && StatesOk(s) && JoinsOk(s) && s.thr[s.tp].parent == Some(p) && u in s.thr && s.thr[s.tp].pc == Code(Caller)
    requires u !in Waiters(s, ChildExit(p))
    ensures JoinOk(Exiting(s), u)
  {
    hide Waiters;
    var s' := Exiting(s);
    assert JoinOk(s, u) && PlacedOk(s, u);
    forall tid, d | LiveChild(s, u, tid, d) && d != s.tp ensures LiveChild(s', u, tid, d) {
    }
  }

  lemma ExitInv(s: State)
    requires Inv(s) && s.thr[s.tp].pc == Code(Caller) && s.tp != IDLE && s.tp != MAIN && s.thr[s.tp].locks == []
    ensures Inv(Exit(s))
  {
    hide TableOk, ListsOk, StatesOk, IdleOk, ParentsOk, JoinsOk, LocksOk, JoinOk, Waiters, Exiting, Broadcast, LockOk, HoldsOk;
    ExitShape(s);
    var s1, p := Exiting(s), s.thr[s.tp].parent.value;
    var c := ChildExit(p);
    ExitingTable(s);
    ExitingStates(s);
    forall u | u in s1.thr && u !in Waiters(s1, c) ensures JoinOk(s1, u) {
      ExitingJoin(s, p, u);
    }
    ExitingLocks(s);
    BroadcastTable(s1, c);
    BroadcastLists(s1, c);
    BroadcastStates(s1, c);
    BroadcastTree(s1, c);
    BroadcastJoins(s1, c);
    LocksParts(s1);
    BroadcastLocks(s1, c);
  }

  lemma ExitShape(s: State)
    requires TableOk(s) && ParentsOk(s) && s.tp != MAIN
    ensures s.tp in s.thr && s.thr[s.tp].parent.Some? && Exiting(s).thr.Keys == s.thr.Keys && Exiting(s).tp == s.tp
    ensures Exit(s) == Broadcast(Exiting(s), ChildExit(s.thr[s.tp].parent.value))
    ensures forall d :: Waiters(Exiting(s), d) == Waiters(s, d)
  {
  }

  lemma LocksParts(s: State)
    requires s.tp in s.thr && LocksOk(s)
    ensures forall l :: l in s.locks ==> LockOk(s, l)
    ensures forall u :: u in s.thr ==> HoldsOk(s, u)
    ensures forall l :: Waiters(s, LockCv(l)) != [] ==> l in s.locks
    ensures s.thr[s.tp].pc.WaitMarked? && s.thr[s.tp].cond.Some? && s.thr[s.tp].cond.value.LockCv? ==>
      s.thr[s.tp].cond.value.lock in s.locks && s.locks[s.thr[s.tp].cond.value.lock].owner.Some?
  {
    hide LockOk, HoldsOk;
  }

  lemma ExitingLocks(s: State)
    requires s.tp in s.thr && LocksOk(s)
    ensures LocksOk(Exiting(s))
  {
    var s' := Exiting(s);
    assert forall d :: Waiters(s', d) == Waiters(s, d);
    hide Waiters;
    forall u | u in s'.thr ensures HoldsOk(s', u) {
      assert HoldsOk(s, u);
    }
    forall l | l in s'.locks ensures LockOk(s', l) {
      assert LockOk(s, l);
    }
  }

  // ---- reclaiming ----

  /** s' is s without the exited thread u of slot i; its children have gone to its parent. */
  ghost predicate Gone(s: State, s': State, u: nat, i: nat) {
    && i < |s.tab| && s.tab[i] == Some(u) && u in s.thr && s.thr[u].st == Exited && u != s.tp && s.tp in s.thr
    && s.thr[u].parent == Some(s.tp)
    && s'.thr.Keys == s.thr.Keys - {u} && s'.tab == s.tab[i := None] && s'.births == s.births
    && s'.ready == s.ready && s'.waits == s.waits && s'.locks == s.locks && s'.tp == s.tp
    && forall v :: v in s.thr && v != u ==>
         s'.thr[v] == if s.thr[v].parent == Some(u) then s.thr[v].(parent := Some(s.tp)) else s.thr[v]
  }

  lemma GoneTable(s: State, s': State, u: nat, i: nat)
    requires TableOk(s) && ParentsOk(s) && IdleOk(s) && Gone(s, s', u, i)
    ensures TableOk(s')
  {
    assert u != MAIN && u != IDLE;
    hide IdleOk, ParentsOk;
    assert SlotThread(s, i);
    forall v | v in s'.thr ensures ThreadSlot(s', v) {
      GoneSlot(s, s', u, i, v);
    }
    forall j: nat ensures SlotThread(s', j) {
      GoneEntry(s, s', u, i, j);
    }
    hide ThreadSlot, SlotThread;
  }

  lemma GoneSlot(s: State, s': State, u: nat, i: nat, v: nat)
    requires TableOk(s) && Gone(s, s', u, i) && v in s'.thr
    ensures ThreadSlot(s', v)
  {
    assert SlotThread(s, i) && ThreadSlot(s, v);
    hide TableOk;
  }

  lemma GoneEntry(s: State, s': State, u: nat, i: nat, j: nat)
    requires TableOk(s) && Gone(s, s', u, i)
    ensures SlotThread(s', j)
  {
    assert ThreadSlot(s, u) && SlotThread(s, i) && SlotThread(s, j);
    hide TableOk;
  }

  /** Orphans get an older parent still. */
  lemma GoneParents(s: State, s': State, u: nat, i: nat)
    requires ParentsOk(s) && Gone(s, s', u, i)
    ensures ParentsOk(s')
  {
  }

  lemma GoneStates(s: State, s': State, u: nat, i: nat)
    requires s.tp in s.thr && s.tp in s'.thr && s'.tp == s.tp && s.thr[s.tp].pc.Code?
    requires ListsOk(s) && StatesOk(s) && IdleOk(s) && Gone(s, s', u, i)
    ensures ListsOk(s') && StatesOk(s') && IdleOk(s')
  {
    assert forall d :: Waiters(s', d) == Waiters(s, d);
    hide Waiters, NoDup;
    GoneLists(s, s', u, i);
    hide ListsOk;
    forall v | v in s'.thr ensures PlacedOk(s', v) && PcOk(s', v) {
      GoneOne(s, s', u, i, v);
    }
    hide PlacedOk, PcOk;
  }

  lemma GoneLists(s: State, s': State, u: nat, i: nat)
    requires ListsOk(s) && Gone(s, s', u, i)
    ensures ListsOk(s')
  {
    assert forall d :: Waiters(s', d) == Waiters(s, d);
    hide Waiters, NoDup;
  }

  lemma GoneOne(s: State, s': State, u: nat, i: nat, v: nat)
    requires s.tp in s.thr && s.tp in s'.thr && s'.tp == s.tp && s.thr[s.tp].pc.Code?
    requires StatesOk(s) && Gone(s, s', u, i) && v in s'.thr
    ensures PlacedOk(s', v) && PcOk(s', v)
  {
    assert PlacedOk(s, v) && PcOk(s, v);
    assert forall d :: Waiters(s', d) == Waiters(s, d);
    hide Waiters, StatesOk;
  }

  lemma GoneJoins(s: State, s': State, u: nat, i: nat)
    requires JoinsOk(s) && Gone(s, s', u, i)
    ensures JoinsOk(s')
  {
    forall w, tid, d | w != u && LiveChild(s, w, tid, d) ensures LiveChild(s', w, tid, d) {
    }
    forall v | v in s'.thr ensures JoinOk(s', v) {
      assert JoinOk(s, v);
    }
  }

  lemma GoneLocks(s: State, s': State, u: nat, i: nat)
    requires LocksOk(s) && Gone(s, s', u, i) && s.thr[u].locks == []
    ensures LocksOk(s')
  {
    assert forall d :: Waiters(s', d) == Waiters(s, d);
    hide Waiters;
    forall v | v in s'.thr ensures HoldsOk(s', v) {
      assert HoldsOk(s, v);
    }
    forall l | l in s'.locks ensures LockOk(s', l) {
      assert LockOk(s, l);
    }
  }

  /** The running thread back in its caller's code. */
  function BackToCaller(s: State): State
    requires s.tp in s.thr
  {
    Put(s, s.tp, s.thr[s.tp].(pc := Code(Caller)))
  }

  lemma CallerInv(s: State)
    requires Inv(s) && s.thr[s.tp].pc.Code?
    ensures Inv(BackToCaller(s))
  {
    hide TableOk, ListsOk, StatesOk, IdleOk, ParentsOk, JoinsOk, LocksOk, JoinOk;
    TpIn(s);
    var s' := BackToCaller(s);
    assert forall d :: Waiters(s', d) == Waiters(s, d);
    hide Waiters;
    CallerStates(s);
    SelfUnlisted(s);
    KinTable(s, s');
    JoinOne(s, s', s.tp);
    KinJoins(s, s', s.tp);
    OldLockWaits(s, s');
    KinLocks(s, s');
  }

  lemma CallerStates(s: State)
    requires s.tp in s.thr && ListsOk(s) && StatesOk(s) && IdleOk(s) && s.thr[s.tp].pc.Code?
    ensures ListsOk(BackToCaller(s)) && StatesOk(BackToCaller(s)) && IdleOk(BackToCaller(s))
  {
    var s' := BackToCaller(s);
    assert forall d :: Waiters(s', d) == Waiters(s, d);
    hide Waiters, NoDup;
    forall u | u in s'.thr ensures PlacedOk(s', u) && PcOk(s', u) {
      assert PlacedOk(s, u) && PcOk(s, u);
    }
  }

  lemma ReclaimInv(s: State, u: nat, i: nat)
    requires Inv(s) && s.thr[s.tp].pc == Code(Caller) && i < |s.tab| && s.tab[i] == Some(u) && u in s.thr
    requires s.thr[u].st == Exited && s.thr[u].parent == Some(s.tp)
    ensures Inv(Reclaim(s, i))
  {
    hide TableOk, ListsOk, StatesOk, IdleOk, ParentsOk, JoinsOk, LocksOk, Gone, Reclaim;
    TpIn(s);
    var s' := Reclaim(s, i);
    ReclaimIsGone(s, u, i);
    GoneTable(s, s', u, i);
    GoneParents(s, s', u, i);
    TpIn(s');
    SameTp(s, s', u, i);
    GoneStates(s, s', u, i);
    GoneJoins(s, s', u, i);
    GoneLocks(s, s', u, i);
  }

  lemma ReclaimIsGone(s: State, u: nat, i: nat)
    requires s.tp in s.thr && StatesOk(s) && s.thr[s.tp].pc == Code(Caller) && i < |s.tab| && s.tab[i] == Some(u) && u in s.thr
    requires s.thr[u].st == Exited && s.thr[u].parent == Some(s.tp)
    ensures Gone(s, Reclaim(s, i), u, i) && s.thr[u].locks == []
  {
    assert PlacedOk(s, u) && PcOk(s, s.tp);
    hide StatesOk;
  }

  lemma SameTp(s: State, s': State, u: nat, i: nat)
    requires Gone(s, s', u, i)
    ensures s'.tp == s.tp
  {
  }

  /** If some child matches and none can be reaped, one of them is alive. */
  lemma LiveMatch(s: State, u: nat, tid: nat)
    requires TableOk(s) && AnyMatch(s, u, tid) && FirstReapable(s, u, tid, 1).None?
    ensures exists d :: LiveChild(s, u, tid, d)
  {
    var i :| 1 <= i < |s.tab| && Matches(s, u, tid, i);
    assert !Reapable(s, u, tid, i);
    assert SlotThread(s, i);
    assert LiveChild(s, u, tid, s.tab[i].value);
  }

  lemma JoinInv(s: State, tid: nat)
    requires Inv(s) && s.thr[s.tp].pc.Code? && s.tp != IDLE
    ensures Inv(Join(s, tid))
  {
    hide ListsOk, StatesOk, IdleOk, ParentsOk, JoinsOk, LocksOk, Waiters;
    SelfUnlisted(s);
    var r := FirstReapable(s, s.tp, tid, 1);
    CallerInv(s);
    if r.Some? {
      var u := s.tab[r.value].value;
      assert Reapable(s, s.tp, tid, r.value);
      assert u != s.tp;
      hide Inv, TableOk, FirstReapable, Reclaim;
      ReclaimInv(BackToCaller(s), u, r.value);
    } else if AnyMatch(s, s.tp, tid) {
      LiveMatch(s, s.tp, tid);
      hide Inv, TableOk, FirstReapable, AnyMatch;
      MarkWaitInv(s, ChildExit(s.tp), Joining(tid));
    }
  }
}
