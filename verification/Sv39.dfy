/** Sv39 page tables over physical memory, and translation as section 4.4 of the RISC-V Privileged Architecture
    (version 20211203) defines it. Physical memory maps page numbers to tables or page bytes. */
module Sv39 {
  import opened Base

  const PTES: nat := 512
  const LEVELS: nat := 3

  datatype Pte = Pte(v: bool, r: bool, w: bool, x: bool, u: bool, g: bool, a: bool, d: bool, ppn: nat)

  const NULL_PTE: Pte := Pte(false, false, false, false, false, false, false, false, 0)

  /** PTE_LEAF */
  predicate Leaf(e: Pte) {
    e.r || e.w || e.x
  }

  /** The permission bits a caller passes to map_page. */
  datatype Flags = Flags(r: bool, w: bool, x: bool, u: bool, g: bool)

  function LeafPte(ppn: nat, f: Flags): Pte {
    Pte(true, f.r, f.w, f.x, f.u, f.g, true, true, ppn)
  }

  function PtabPte(ppn: nat, g: bool): Pte {
    Pte(true, false, false, false, false, g, false, false, ppn)
  }

  datatype Frame = Table(pt: seq<Pte>) | Page(bytes: seq<u8>)

  type Mem = map<nat, Frame>

  function ZeroTable(): (f: Frame)
    ensures f.Table? && |f.pt| == PTES && forall i :: 0 <= i < PTES ==> f.pt[i] == NULL_PTE
  {
    Table(seq(PTES, i => NULL_PTE))
  }

  /** Entry i of table t. */
  function Entry(m: Mem, t: nat, i: nat): Pte {
    if t in m && m[t].Table? && i < |m[t].pt| then m[t].pt[i] else NULL_PTE
  }

  // ---- translation ----

  datatype Xlate = Fault | Hit(ppn: nat, e: Pte)

  /** Pages under one entry of a table whose entries have k levels below them. */
  function Span(k: nat): (s: nat)
    ensures s >= 1
  {
    if k == 0 then 1 else PTES * Span(k - 1)
  }

  /** The page a remaining index path selects inside a superpage. */
  function Offset(idx: seq<nat>): nat {
    if idx == [] then 0 else idx[0] * Span(|idx| - 1) + Offset(idx[1..])
  }

  /** What the hardware does with the indices idx, starting at table t. */
  function Translate(m: Mem, t: nat, idx: seq<nat>): Xlate
    decreases |idx|
  {
    if idx == [] then Fault
    else
      var e := Entry(m, t, idx[0]);
      if !e.v || (!e.r && e.w) then Fault
      else if e.r || e.x then
        if e.ppn % Span(|idx| - 1) != 0 then Fault else Hit(e.ppn + Offset(idx[1..]), e)
      else Translate(m, e.ppn, idx[1..])
  }

  /** The translation leads to page pp with exactly the permissions of f, not global, and marked accessed and
      dirty. */
  predicate Grants(x: Xlate, pp: nat, f: Flags) {
    && x.Hit? && x.ppn == pp && x.e.ppn == pp && x.e.v && x.e.a && x.e.d && !x.e.g
    && x.e.r == f.r && x.e.w == f.w && x.e.x == f.x && x.e.u == f.u
  }

  // ---- the tree of non-global entries ----

  /** The page reached from t along non-global entries. */
  function Ref(m: Mem, t: nat, p: seq<nat>): Option<nat>
    decreases |p|
  {
    if p == [] then Some(t)
    else
      var e := Entry(m, t, p[0]);
      if e.v && !e.g then Ref(m, e.ppn, p[1..]) else None
  }

  lemma RefCons(m: Mem, t: nat, i: nat, p: seq<nat>)
    ensures Ref(m, t, [i] + p) == (var e := Entry(m, t, i); if e.v && !e.g then Ref(m, e.ppn, p) else None)
  {
    assert ([i] + p)[1..] == p;
  }

  lemma {:induction false} RefAppend(m: Mem, t: nat, p: seq<nat>, q: seq<nat>)
    ensures Ref(m, t, p + q) == (var u := Ref(m, t, p); if u.Some? then Ref(m, u.value, q) else None)
    decreases |p|
  {
    if p == [] {
      assert p + q == q;
    } else {
      assert p + q == [p[0]] + (p[1..] + q);
      RefCons(m, t, p[0], p[1..] + q);
      var e := Entry(m, t, p[0]);
      if e.v && !e.g {
        RefAppend(m, e.ppn, p[1..], q);
      }
    }
  }

  /** A kernel subtable reached through a global entry, or a superpage. */
  predicate GlobalOk(e: Pte, kernel: set<nat>) {
    Leaf(e) || e.ppn in kernel
  }

  /** Entry e of a table of height h: global entries only in a root, leaves only at the bottom. */
  predicate EntryOk(e: Pte, h: nat, kernel: set<nat>) {
    e.v ==> if e.g then h == LEVELS && GlobalOk(e, kernel) else Leaf(e) <==> h == 1
  }

  /** t is a table of height h (a page when h is 0) and so is everything below it. */
  ghost predicate Tree(m: Mem, t: nat, h: nat, kernel: set<nat>)
    decreases h
  {
    && t in m
    && if h == 0 then m[t].Page?
       else m[t].Table? && |m[t].pt| == PTES && forall i :: 0 <= i < PTES ==>
         && EntryOk(m[t].pt[i], h, kernel)
         && (m[t].pt[i].v && !m[t].pt[i].g ==> Tree(m, m[t].pt[i].ppn, h - 1, kernel))
  }

  /** The kernel's own subtables: only pointers among themselves. */
  ghost predicate KernelOk(m: Mem, kernel: set<nat>) {
    forall k, i: nat :: k in kernel && Entry(m, k, i).v && !Leaf(Entry(m, k, i)) ==> Entry(m, k, i).ppn in kernel
  }

  /** A place in one of the address spaces. */
  datatype Node = Node(root: nat, path: seq<nat>)

  /** Every page reached in every space belongs to exactly one place. */
  ghost predicate Owned(m: Mem, roots: set<nat>, owner: map<nat, Node>) {
    && (forall r, p :: r in roots && Ref(m, r, p).Some? ==> Ref(m, r, p).value in owner && owner[Ref(m, r, p).value] == Node(r, p))
    && forall v :: v in owner ==> owner[v].root in roots && Ref(m, owner[v].root, owner[v].path) == Some(v)
  }

  /** All address spaces are sound, share nothing but the kernel's global entries, and leave the kernel's
      subtables alone. */
  ghost predicate Spaces(m: Mem, roots: set<nat>, owner: map<nat, Node>, kernel: set<nat>) {
    && (forall r :: r in roots ==> Tree(m, r, LEVELS, kernel))
    && Owned(m, roots, owner)
    && owner.Keys !! kernel && KernelOk(m, kernel)
  }

  // ---- frames ----

  /** The two memories agree on everything reached from t. */
  ghost predicate SameBelow(m: Mem, m': Mem, t: nat) {
    forall p :: Ref(m, t, p).Some? ==> Agree(m, m', Ref(m, t, p).value)
  }

  predicate Agree(m: Mem, m': Mem, v: nat) {
    (v in m <==> v in m') && (v in m ==> m'[v] == m[v])
  }

  lemma SameChild(m: Mem, m': Mem, t: nat, i: nat)
    requires SameBelow(m, m', t) && Entry(m, t, i).v && !Entry(m, t, i).g
    ensures SameBelow(m, m', Entry(m, t, i).ppn)
  {
    var c := Entry(m, t, i).ppn;
    forall p | Ref(m, c, p).Some? ensures Agree(m, m', Ref(m, c, p).value) {
      RefCons(m, t, i, p);
      assert Ref(m, t, [i] + p).Some?;
    }
  }

  lemma {:induction false} RefSame(m: Mem, m': Mem, t: nat, p: seq<nat>)
    requires SameBelow(m, m', t)
    ensures Ref(m', t, p) == Ref(m, t, p)
    decreases |p|
  {
    assert Ref(m, t, []).Some?;
    if p != [] {
      var e := Entry(m, t, p[0]);
      if e.v && !e.g {
        SameChild(m, m', t, p[0]);
        RefSame(m, m', e.ppn, p[1..]);
      }
    }
  }

  lemma {:induction false} TreeSame(m: Mem, m': Mem, t: nat, h: nat, kernel: set<nat>)
    requires SameBelow(m, m', t) && Tree(m, t, h, kernel)
    ensures Tree(m', t, h, kernel)
    decreases h
  {
    assert Ref(m, t, []).Some?;
    if h > 0 {
      forall i | 0 <= i < PTES && m[t].pt[i].v && !m[t].pt[i].g ensures Tree(m', m[t].pt[i].ppn, h - 1, kernel) {
        assert Entry(m, t, i) == m[t].pt[i];
        SameChild(m, m', t, i);
        TreeSame(m, m', m[t].pt[i].ppn, h - 1, kernel);
      }
    }
  }

  /** Translation inside the kernel's subtables depends only on them. */
  lemma {:induction false} KernelTranslate(m: Mem, m': Mem, k: nat, idx: seq<nat>, kernel: set<nat>)
    requires k in kernel && KernelOk(m, kernel) && forall v :: v in kernel ==> Agree(m, m', v)
    ensures Translate(m', k, idx) == Translate(m, k, idx)
    decreases |idx|
  {
    if idx != [] {
      var e := Entry(m, k, idx[0]);
      assert Entry(m', k, idx[0]) == e;
      if e.v && !Leaf(e) {
        KernelTranslate(m, m', e.ppn, idx[1..], kernel);
      }
    }
  }

  lemma {:induction false} TranslateSame(m: Mem, m': Mem, t: nat, h: nat, idx: seq<nat>, kernel: set<nat>)
    requires SameBelow(m, m', t) && Tree(m, t, h, kernel) && |idx| == h
    requires KernelOk(m, kernel) && forall v :: v in kernel ==> Agree(m, m', v)
    ensures Translate(m', t, idx) == Translate(m, t, idx)
    decreases h
  {
    assert Ref(m, t, []).Some?;
    if idx != [] {
      var e := Entry(m, t, idx[0]);
      assert Entry(m', t, idx[0]) == e;
      if e.v && !Leaf(e) {
        assert e == m[t].pt[idx[0]];
        if e.g {
          KernelTranslate(m, m', e.ppn, idx[1..], kernel);
        } else {
          SameChild(m, m', t, idx[0]);
          TranslateSame(m, m', e.ppn, h - 1, idx[1..], kernel);
        }
      }
    }
  }
}
