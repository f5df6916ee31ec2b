/** Trees outside the address spaces: the copy clone_pt builds, and the tree free_user_pt takes apart. */
module Sv39Copy {
  import opened Base
  import opened Sv39
  import opened Sv39Edit

  /** own names exactly the pages reached from f, each with its path. */
  ghost predicate Exact(m: Mem, f: nat, own: map<nat, seq<nat>>) {
    && (forall p :: Ref(m, f, p).Some? ==> Ref(m, f, p).value in own && own[Ref(m, f, p).value] == p)
    && forall v :: v in own ==> Ref(m, f, own[v]) == Some(v)
  }

  ghost predicate AgreeOn(m: Mem, m': Mem, s: set<nat>) {
    forall v :: v in s ==> Agree(m, m', v)
  }

  lemma ExactSame(m: Mem, m': Mem, f: nat, own: map<nat, seq<nat>>)
    requires Exact(m, f, own) && AgreeOn(m, m', own.Keys)
    ensures SameBelow(m, m', f) && Exact(m', f, own)
  {
    forall p | Ref(m, f, p).Some? ensures Agree(m, m', Ref(m, f, p).value) {
      assert Ref(m, f, p).value in own;
    }
    forall p ensures Ref(m', f, p) == Ref(m, f, p) {
      RefSame(m, m', f, p);
    }
  }

  // ---- copies ----

  /** e' is e for the copy: empty, shared, or leading to a copy of what e leads to. */
  ghost predicate EntryCopy(m: Mem, e: Pte, e': Pte, h: nat)
    requires h > 0
    decreases h, 0
  {
    if !e.v then e' == NULL_PTE
    else if e.g then e' == e
    else e' == (if Leaf(e) then e.(ppn := e'.ppn) else PtabPte(e'.ppn, false)) && Copy(m, e.ppn, e'.ppn, h - 1)
  }

  /** The tree of height h at f is a copy of the one at t. */
  ghost predicate Copy(m: Mem, t: nat, f: nat, h: nat)
    decreases h, 2
  {
    && t in m && f in m
    && if h == 0 then m[t].Page? && m[f] == m[t]
       else PartCopy(m, t, f, h, PTES)
  }

  /** The first j entries have been copied. */
  ghost predicate PartCopy(m: Mem, t: nat, f: nat, h: nat, j: nat)
    requires h > 0
    decreases h, 1
  {
    && t in m && m[t].Table? && |m[t].pt| == PTES && f in m && m[f].Table? && |m[f].pt| == PTES
    && forall i :: 0 <= i < PTES ==> if i < j then EntryCopy(m, m[t].pt[i], m[f].pt[i], h) else m[f].pt[i] == NULL_PTE
  }

  lemma {:induction false} CopySame(m: Mem, m': Mem, t: nat, f: nat, h: nat)
    requires Copy(m, t, f, h) && SameBelow(m, m', t) && SameBelow(m, m', f)
    ensures Copy(m', t, f, h)
    decreases h
  {
    assert Ref(m, t, []).Some? && Ref(m, f, []).Some?;
    if h > 0 {
      forall i | 0 <= i < PTES ensures EntryCopy(m', m[t].pt[i], m[f].pt[i], h) {
        var e, e' := m[t].pt[i], m[f].pt[i];
        assert EntryCopy(m, e, e', h) && Entry(m, t, i) == e && Entry(m, f, i) == e';
        if e.v && !e.g {
          SameChild(m, m', t, i);
          SameChild(m, m', f, i);
          CopySame(m, m', e.ppn, e'.ppn, h - 1);
        }
      }
    }
  }

  /** A copy of a sound tree is sound. */
  lemma {:induction false} CopyTree(m: Mem, t: nat, f: nat, h: nat, kernel: set<nat>)
    requires Copy(m, t, f, h) && Tree(m, t, h, kernel)
    ensures Tree(m, f, h, kernel)
    decreases h
  {
    if h > 0 {
      forall i | 0 <= i < PTES
        ensures EntryOk(m[f].pt[i], h, kernel) && (m[f].pt[i].v && !m[f].pt[i].g ==> Tree(m, m[f].pt[i].ppn, h - 1, kernel))
      {
        var e, e' := m[t].pt[i], m[f].pt[i];
        assert EntryCopy(m, e, e', h) && EntryOk(e, h, kernel);
        if e.v && !e.g {
          CopyTree(m, e.ppn, e'.ppn, h - 1, kernel);
        }
      }
    }
  }

  /** What the copy translates an address to, compared with the original. */
  ghost predicate SameMeaning(m: Mem, x: Xlate, x': Xlate) {
    match x
    case Fault => x' == Fault
    case Hit(v, e) => x'.Hit? && x'.e == e.(ppn := x'.ppn) && v in m && x'.ppn in m && m[v].Page? && m[x'.ppn] == m[v]
  }

  /** The copy means what the original means: kernel addresses translate alike, and every other address leads to
      a page with the same bytes and flags. */
  lemma {:induction false} CopyTranslate(m: Mem, t: nat, f: nat, h: nat, idx: seq<nat>, kernel: set<nat>)
    requires Copy(m, t, f, h) && Tree(m, t, h, kernel) && 0 < |idx| == h <= LEVELS && forall k :: 0 <= k < h ==> idx[k] < PTES
    ensures Entry(m, t, idx[0]).v && Entry(m, t, idx[0]).g ==> Translate(m, f, idx) == Translate(m, t, idx)
    ensures !(Entry(m, t, idx[0]).v && Entry(m, t, idx[0]).g) ==> SameMeaning(m, Translate(m, t, idx), Translate(m, f, idx))
    decreases h
  {
    var e, e' := Entry(m, t, idx[0]), Entry(m, f, idx[0]);
    assert e == m[t].pt[idx[0]] && e' == m[f].pt[idx[0]];
    assert EntryCopy(m, e, e', h) && EntryOk(e, h, kernel);
    if e.v && !e.g {
      if Leaf(e) {
        assert idx[1..] == [] && Span(0) == 1 && Offset([]) == 0;
      } else {
        assert idx[1..][0] == idx[1];
        CopyTranslate(m, e.ppn, e'.ppn, h - 1, idx[1..], kernel);
        NoGlobalBelow(m, e.ppn, h - 1, idx[1], kernel);
      }
    }
  }

  lemma NoGlobalBelow(m: Mem, t: nat, h: nat, i: nat, kernel: set<nat>)
    requires Tree(m, t, h, kernel) && 0 < h < LEVELS && i < PTES
    ensures Entry(m, t, i).v ==> !Entry(m, t, i).g
  {
    assert EntryOk(m[t].pt[i], h, kernel);
  }

  // ---- growing a tree entry by entry ----

  /** The pages below entry i of f do not include f. */
  lemma ChildApart(m: Mem, m': Mem, f: nat, own: map<nat, seq<nat>>, i: nat)
    requires Exact(m, f, own) && Entry(m, f, i).v && !Entry(m, f, i).g && AgreeOn(m, m', own.Keys - {f})
    ensures SameBelow(m, m', Entry(m, f, i).ppn)
  {
    var c := Entry(m, f, i).ppn;
    forall q | Ref(m, c, q).Some? ensures Agree(m, m', Ref(m, c, q).value) {
      RefCons(m, f, i, q);
      var v := Ref(m, f, [i] + q).value;
      assert own[v] == [i] + q;
      assert Ref(m, f, []) == Some(f);
    }
  }

  ghost function GraftOwn(own: map<nat, seq<nat>>, j: nat, cown: map<nat, seq<nat>>): map<nat, seq<nat>> {
    map v | v in own.Keys + cown.Keys :: if v in cown then [j] + cown[v] else own[v]
  }

  ghost predicate Graftable(m: Mem, f: nat, own: map<nat, seq<nat>>, j: nat, e: Pte, cown: map<nat, seq<nat>>) {
    && Exact(m, f, own) && f in m && m[f].Table? && |m[f].pt| == PTES && j < PTES && !Entry(m, f, j).v
    && (e.v && !e.g ==> Exact(m, e.ppn, cown) && own.Keys !! cown.Keys)
  }

  lemma GraftRef(m: Mem, f: nat, own: map<nat, seq<nat>>, j: nat, e: Pte, cown: map<nat, seq<nat>>, p: seq<nat>)
    requires Graftable(m, f, own, j, e, cown)
    ensures Ref(SetEntry(m, f, j, e), f, p) ==
      if p != [] && p[0] == j then (if e.v && !e.g then Ref(m, e.ppn, p[1..]) else None) else Ref(m, f, p)
  {
    var m' := SetEntry(m, f, j, e);
    assert Ref(m, f, []) == Some(f);
    if p != [] {
      var i, q := p[0], p[1..];
      EntryOfSet(m, f, j, e, f, i);
      if i != j {
        var x := Entry(m, f, i);
        if x.v && !x.g {
          ChildApart(m, m', f, own, i);
          RefSame(m, m', x.ppn, q);
        }
      } else if e.v && !e.g {
        ExactSame(m, m', e.ppn, cown);
        RefSame(m, m', e.ppn, q);
      }
    }
  }

  /** Hanging a tree under an empty entry. */
  lemma Graft(m: Mem, f: nat, own: map<nat, seq<nat>>, j: nat, e: Pte, cown: map<nat, seq<nat>>)
    requires Graftable(m, f, own, j, e, cown)
    ensures Exact(SetEntry(m, f, j, e), f, if e.v && !e.g then GraftOwn(own, j, cown) else own)
  {
    var m' := SetEntry(m, f, j, e);
    var own' := if e.v && !e.g then GraftOwn(own, j, cown) else own;
    forall p | Ref(m', f, p).Some? ensures Ref(m', f, p).value in own' && own'[Ref(m', f, p).value] == p {
      GraftRef(m, f, own, j, e, cown, p);
      if p != [] && p[0] == j {
        assert p == [j] + p[1..];
      } else {
        assert Ref(m, f, p).value in own;
      }
    }
    forall v | v in own' ensures Ref(m', f, own'[v]) == Some(v) {
      GraftRef(m, f, own, j, e, cown, own'[v]);
      if e.v && !e.g && v in cown {
        assert ([j] + cown[v])[1..] == cown[v];
      } else {
        var p := own[v];
        if p != [] && p[0] == j {
          assert false;
        }
      }
    }
  }

  /** Every page reached from t belongs to some address space. */
  ghost predicate Settled(m: Mem, t: nat, owner: map<nat, Node>) {
    forall p :: Ref(m, t, p).Some? ==> Ref(m, t, p).value in owner
  }

  lemma SettledChild(m: Mem, t: nat, owner: map<nat, Node>, i: nat)
    requires Settled(m, t, owner) && Entry(m, t, i).v && !Entry(m, t, i).g
    ensures Settled(m, Entry(m, t, i).ppn, owner)
  {
    forall p | Ref(m, Entry(m, t, i).ppn, p).Some? ensures Ref(m, Entry(m, t, i).ppn, p).value in owner {
      RefCons(m, t, i, p);
      assert Ref(m, t, [i] + p).Some?;
    }
  }

  lemma SettledSame(m: Mem, m': Mem, t: nat, owner: map<nat, Node>)
    requires Settled(m, t, owner) && AgreeOn(m, m', owner.Keys)
    ensures SameBelow(m, m', t) && Settled(m', t, owner)
  {
    assert SameBelow(m, m', t);
    forall p ensures Ref(m', t, p) == Ref(m, t, p) {
      RefSame(m, m', t, p);
    }
  }

  /** A change elsewhere keeps a copy in progress. */
  lemma PartSame(m: Mem, m': Mem, t: nat, f: nat, h: nat, j: nat)
    requires h > 0 && PartCopy(m, t, f, h, j) && SameBelow(m, m', t) && SameBelow(m, m', f)
    ensures PartCopy(m', t, f, h, j)
  {
    assert Ref(m, t, []).Some? && Ref(m, f, []).Some?;
    forall i | 0 <= i < PTES && i < j ensures EntryCopy(m', m[t].pt[i], m[f].pt[i], h) {
      var e, e' := m[t].pt[i], m[f].pt[i];
      assert EntryCopy(m, e, e', h) && Entry(m, t, i) == e && Entry(m, f, i) == e';
      if e.v && !e.g {
        SameChild(m, m', t, i);
        SameChild(m, m', f, i);
        CopySame(m, m', e.ppn, e'.ppn, h - 1);
      }
    }
  }

  /** Storing the next entry of a copy in progress. */
  lemma PartSet(m: Mem, t: nat, f: nat, h: nat, j: nat, e': Pte, own: map<nat, seq<nat>>, cown: map<nat, seq<nat>>, owner: map<nat, Node>)
    requires h > 0 && PartCopy(m, t, f, h, j) && j < PTES && Graftable(m, f, own, j, e', cown)
    requires Settled(m, t, owner) && f !in owner && EntryCopy(m, m[t].pt[j], e', h)
    ensures PartCopy(SetEntry(m, f, j, e'), t, f, h, j + 1)
  {
    var m' := SetEntry(m, f, j, e');
    assert Ref(m, t, []).Some? && Ref(m, f, []).Some?;
    SettledSame(m, m', t, owner);
    forall i | 0 <= i < PTES && i < j + 1 ensures EntryCopy(m', m'[t].pt[i], m'[f].pt[i], h) {
      var e, x := m[t].pt[i], if i == j then e' else m[f].pt[i];
      assert EntryCopy(m, e, x, h) && Entry(m, t, i) == e && m'[t].pt[i] == e && m'[f].pt[i] == x;
      if e.v && !e.g {
        SameChild(m, m', t, i);
        if i == j {
          ExactSame(m, m', e'.ppn, cown);
        } else {
          assert Entry(m, f, i) == x;
          ChildApart(m, m', f, own, i);
        }
        CopySame(m, m', e.ppn, x.ppn, h - 1);
      }
    }
  }
}
