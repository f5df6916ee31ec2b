/** free_user_pt, reset_active_mspace and discard_active_mspace of kernel/memory.c. */
module VmFree {
  import opened Base
  import opened Pages
  import opened Sv39
  import opened Sv39Edit
  import opened Sv39Ops
  import opened Sv39Copy
  import opened Sv39Size
  import opened Vm
  import opened VmClone

  /** A table with its non-global entries before n cleared. */
  ghost predicate Cleared(a: Frame, b: Frame, n: nat) {
    && a.Table? && b.Table? && |a.pt| == |b.pt| == PTES
    && forall i :: 0 <= i < PTES ==> b.pt[i] == if i < n && a.pt[i].v && !a.pt[i].g then NULL_PTE else a.pt[i]
  }

  /** A tree outside the spaces that is about to be taken apart. */
  ghost predicate Loose(vm: Memory, t: nat, h: nat, own: map<nat, seq<nat>>)
    reads vm, vm.pages
  {
    && vm.Sound() && 0 < h <= LEVELS && Tree(vm.mem, t, h, vm.kernel) && Exact(vm.mem, t, own)
    && own.Keys !! vm.owner.Keys && own.Keys !! vm.kernel && own.Keys - {t} <= vm.pages.live && t !in FreeSet(vm.pages.chunks)
  }

  /** Entry i of table t is a kernel mapping. */
  predicate GlobalAt(m: Mem, t: nat, i: nat) {
    Entry(m, t, i).v && Entry(m, t, i).g
  }

  /** The work done so far, compared with memory m0 at the start. */
  ghost predicate Freeing(vm: Memory, t: nat, own: map<nat, seq<nat>>, n: nat, m0: Mem, live0: set<nat>, free0: set<nat>)
    reads vm, vm.pages
  {
    && vm.Sound()
    && FreeSet(vm.pages.chunks) == free0 + Below(own, n) && vm.pages.live == live0 - Below(own, n)
    && t in m0 && t in vm.mem && Cleared(m0[t], vm.mem[t], n)
    && (forall v :: v in own && own[v] != [] && own[v][0] >= n ==> Agree(m0, vm.mem, v))
    && forall v :: v !in own ==> Agree(m0, vm.mem, v)
  }

  /** free_user_pt: every page below t is freed exactly once, global entries stay, and nothing else changes. */
  method FreeUser(vm: Memory, t: nat, h: nat, ghost own: map<nat, seq<nat>>) returns (hasGlobal: bool)
    requires Loose(vm, t, h, own)
    modifies vm`mem, vm.pages
    ensures vm.pages.all == old(vm.pages.all)
    ensures Freeing(vm, t, own, PTES, old(vm.mem), old(vm.pages.live), old(FreeSet(vm.pages.chunks)))
    ensures hasGlobal ==> h == LEVELS
    ensures hasGlobal <==> exists i: nat :: i < PTES && GlobalAt(old(vm.mem), t, i)
    decreases h, 1
  {
    hide MemOk, FreeSet, Tree, Exact;
    ghost var m0, live0, free0 := vm.mem, vm.pages.live, FreeSet(vm.pages.chunks);
    hasGlobal := false;
    FreeStart(vm, t, h, own);
    for i := 0 to PTES
      invariant vm.pages.all == old(vm.pages.all) && (hasGlobal ==> h == LEVELS)
      invariant hasGlobal <==> exists j: nat :: j < i && GlobalAt(m0, t, j)
      invariant Freeing(vm, t, own, i, m0, live0, free0)
    {
      EntryFacts(m0, t, h, i, own, vm.kernel);
      BelowMore(own, i);
      var e := vm.mem[t].pt[i];
      assert GlobalAt(m0, t, i) <==> e.v && e.g;
      if e.v {
        if e.g {
          hasGlobal := true;
        } else {
          FreeEntry(vm, t, h, i, own, m0, live0, free0);
        }
      }
    }
  }

  /** What hangs behind one entry: a page, or a table and everything below it. */
  method FreeChild(vm: Memory, c: nat, leaf: bool, h: nat, ghost cown: map<nat, seq<nat>>)
    requires vm.Sound() && h < LEVELS && (leaf <==> h == 0) && Tree(vm.mem, c, h, vm.kernel) && Exact(vm.mem, c, cown)
    requires cown.Keys !! vm.owner.Keys && cown.Keys !! vm.kernel && cown.Keys <= vm.pages.live
    modifies vm`mem, vm.pages
    ensures vm.Sound() && vm.pages.all == old(vm.pages.all)
    ensures FreeSet(vm.pages.chunks) == old(FreeSet(vm.pages.chunks)) + cown.Keys && vm.pages.live == old(vm.pages.live) - cown.Keys
    ensures forall v :: v !in cown ==> Agree(old(vm.mem), vm.mem, v)
    decreases h, 2
  {
    hide MemOk, FreeSet, Tree, Exact;
    RootInOwn(vm.mem, c, cown);
    BelowAll(vm.mem, c, h, cown, vm.kernel);
    if leaf {
      vm.FreePhysPage(c);
    } else {
      var g := FreeUser(vm, c, h, cown);
      ghost var m1 := vm.mem;
      if !g {
        vm.FreePhysPage(c);
      }
      forall v | v !in cown ensures Agree(old(vm.mem), vm.mem, v) {
        assert Agree(old(vm.mem), m1, v) && Agree(m1, vm.mem, v);
      }
    }
  }

  /** One round of the loop of free_user_pt on a valid entry that is not global. */
  method FreeEntry(vm: Memory, t: nat, h: nat, i: nat, ghost own: map<nat, seq<nat>>, ghost m0: Mem, ghost live0: set<nat>, ghost free0: set<nat>)
    requires Freeing(vm, t, own, i, m0, live0, free0) && 0 < h <= LEVELS && i < PTES
    requires m0[t].pt[i].v && !m0[t].pt[i].g && (Leaf(m0[t].pt[i]) <==> h == 1)
    requires Tree(m0, m0[t].pt[i].ppn, h - 1, vm.kernel) && Exact(m0, m0[t].pt[i].ppn, OwnBelow(own, i))
    requires own.Keys !! vm.owner.Keys && own.Keys !! vm.kernel && own.Keys - {t} <= live0 && t !in free0 && t in own && own[t] == []
    modifies vm`mem, vm.pages
    ensures vm.pages.all == old(vm.pages.all) && Freeing(vm, t, own, i + 1, m0, live0, free0)
    decreases h, 0
  {
    hide MemOk, FreeSet, Tree, Exact;
    ghost var cown := OwnBelow(own, i);
    BelowMore(own, i);
    var e := vm.mem[t].pt[i];
    ChildKept(m0, vm.mem, e.ppn, h - 1, cown, vm.kernel);
    FreeChild(vm, e.ppn, e.r || e.w || e.x, h - 1, cown);
    ghost var m2 := vm.mem;
    assert Agree(old(vm.mem), m2, t);
    NotFreePage(vm, t);
    LooseWrite(m2, vm.roots, vm.owner, vm.kernel, vm.main, vm.pages.all, vm.pages.live, t, Table(m2[t].pt[i := NULL_PTE]));
    vm.mem := vm.mem[t := Table(vm.mem[t].pt[i := NULL_PTE])];
    forall v | v != t && v !in cown ensures Agree(old(vm.mem), vm.mem, v) {
      assert Agree(old(vm.mem), m2, v);
    }
    forall v | v in own && own[v] != [] && own[v][0] >= i + 1 ensures Agree(m0, vm.mem, v) {
      assert Agree(m0, old(vm.mem), v) && Agree(old(vm.mem), vm.mem, v);
    }
    forall v | v !in own ensures Agree(m0, vm.mem, v) {
      assert Agree(m0, old(vm.mem), v) && Agree(old(vm.mem), vm.mem, v);
    }
  }

  lemma ChildKept(m: Mem, m': Mem, c: nat, h: nat, cown: map<nat, seq<nat>>, kernel: set<nat>)
    requires Tree(m, c, h, kernel) && Exact(m, c, cown) && AgreeOn(m, m', cown.Keys)
    ensures Tree(m', c, h, kernel) && Exact(m', c, cown)
  {
    ExactSame(m, m', c, cown);
    TreeSame(m, m', c, h, kernel);
  }

  lemma NotFreePage(vm: Memory, t: nat)
    requires vm.Sound() && t !in FreeSet(vm.pages.chunks)
    ensures t !in vm.pages.all - vm.pages.live
  {
  }

  lemma FreeStart(vm: Memory, t: nat, h: nat, own: map<nat, seq<nat>>)
    requires Loose(vm, t, h, own)
    ensures Freeing(vm, t, own, 0, vm.mem, vm.pages.live, FreeSet(vm.pages.chunks))
  {
    assert Below(own, 0) == {};
  }

  lemma EntryFacts(m: Mem, t: nat, h: nat, i: nat, own: map<nat, seq<nat>>, kernel: set<nat>)
    requires Tree(m, t, h, kernel) && 0 < h <= LEVELS && i < PTES && Exact(m, t, own)
    ensures t in m && m[t].Table? && |m[t].pt| == PTES && EntryOk(m[t].pt[i], h, kernel)
    ensures m[t].pt[i].v && !m[t].pt[i].g ==> Tree(m, m[t].pt[i].ppn, h - 1, kernel) && Exact(m, m[t].pt[i].ppn, OwnBelow(own, i))
    ensures !(m[t].pt[i].v && !m[t].pt[i].g) ==> OwnBelow(own, i) == map[]
    ensures t in own && t !in OwnBelow(own, i) && own[t] == []
  {
    assert Entry(m, t, i) == m[t].pt[i];
    ExactBelow(m, t, own, i);
  }

  // ---- whole spaces ----

  ghost function WithoutRoot(owner: map<nat, Node>, r: nat): map<nat, Node> {
    map v | v in owner && owner[v].root != r :: owner[v]
  }

  /** A space can be set aside: the others stay sound without it. */
  lemma SetAside(m: Mem, roots: set<nat>, owner: map<nat, Node>, kernel: set<nat>, r: nat)
    requires Spaces(m, roots, owner, kernel) && r in roots
    ensures Spaces(m, roots - {r}, WithoutRoot(owner, r), kernel)
    ensures Tree(m, r, LEVELS, kernel) && Exact(m, r, OwnOf(owner, r))
    ensures OwnOf(owner, r).Keys == PagesOf(owner, r) && r in PagesOf(owner, r)
  {
    hide Tree, KernelOk, Ref, Owned, Exact;
    OthersOwned(m, roots, owner, r);
    ExactOf(m, roots, owner, r);
  }

  lemma OthersOwned(m: Mem, roots: set<nat>, owner: map<nat, Node>, r: nat)
    requires Owned(m, roots, owner)
    ensures Owned(m, roots - {r}, WithoutRoot(owner, r))
  {
    hide Ref;
    var owner' := WithoutRoot(owner, r);
    forall q, p | q in roots - {r} && Ref(m, q, p).Some? ensures Ref(m, q, p).value in owner' && owner'[Ref(m, q, p).value] == Node(q, p) {
      assert Ref(m, q, p).value in owner && owner[Ref(m, q, p).value] == Node(q, p);
    }
    forall v | v in owner' ensures owner'[v].root in roots - {r} && Ref(m, owner'[v].root, owner'[v].path) == Some(v) {
      assert Ref(m, owner[v].root, owner[v].path) == Some(v);
    }
  }

  lemma AsideOk(m: Mem, roots: set<nat>, owner: map<nat, Node>, kernel: set<nat>, main: nat, all: set<nat>, live: set<nat>, r: nat)
    requires MemOk(m, roots, owner, kernel, main, all, live) && r in roots
    requires Spaces(m, roots - {r}, WithoutRoot(owner, r), kernel)
    ensures MemOk(m, roots - {r}, WithoutRoot(owner, r), kernel, main, all, live)
    ensures PagesOf(owner, r) !! WithoutRoot(owner, r).Keys && PagesOf(owner, r) !! kernel && PagesOf(owner, r) - {main} <= live
  {
    hide Tree, KernelOk, Ref;
  }

  /** main is the root of its own space only. */
  lemma MainElsewhere(m: Mem, roots: set<nat>, owner: map<nat, Node>, kernel: set<nat>, r: nat, main: nat)
    requires Spaces(m, roots, owner, kernel) && r in roots && main in roots && r != main
    ensures main !in PagesOf(owner, r)
  {
    RefNil(m, main);
  }

  /** A space whose pages agree in two memories translates alike in both. */
  lemma SpaceKept(m: Mem, m': Mem, roots: set<nat>, owner: map<nat, Node>, kernel: set<nat>)
    requires Spaces(m, roots, owner, kernel) && AgreeOn(m, m', owner.Keys) && AgreeOn(m, m', kernel)
    ensures SameXlate(m, m', roots, {}) && PagesKept(m, owner, m', owner)
  {
    hide Translate, Tree;
    forall r, idx: seq<nat> | r in roots && |idx| == LEVELS ensures Translate(m', r, idx) == Translate(m, r, idx) {
      assert SameBelow(m, m', r);
      TranslateSame(m, m', r, LEVELS, idx, kernel);
    }
  }

  /** Set the active space aside, so that its pages can be freed. */
  ghost method Release(vm: Memory, r: nat) returns (own: map<nat, seq<nat>>)
    requires vm.Sound() && r in vm.roots && vm.main in vm.roots
    modifies vm`roots, vm`owner
    ensures vm.roots == old(vm.roots) - {r} && vm.owner == WithoutRoot(old(vm.owner), r)
    ensures own == OwnOf(old(vm.owner), r) && Loose(vm, r, LEVELS, own)
    ensures own.Keys == PagesOf(old(vm.owner), r) && r in own && own.Keys - {vm.main} <= vm.pages.live
    ensures r != vm.main ==> vm.main !in own
    ensures Spaces(vm.mem, vm.roots, vm.owner, vm.kernel)
  {
    hide Tree, Exact, FreeSet;
    SpaceFacts(vm.mem, vm.roots, vm.owner, vm.kernel, vm.main, vm.pages.all, vm.pages.live);
    SetAside(vm.mem, vm.roots, vm.owner, vm.kernel, r);
    AsideOk(vm.mem, vm.roots, vm.owner, vm.kernel, vm.main, vm.pages.all, vm.pages.live, r);
    if r != vm.main {
      MainElsewhere(vm.mem, vm.roots, vm.owner, vm.kernel, r, vm.main);
    }
    OwnedNotFree(vm);
    own := OwnOf(vm.owner, r);
    vm.roots := vm.roots - {r};
    vm.owner := WithoutRoot(vm.owner, r);
    RootNotPool(old(vm.mem), old(vm.roots), old(vm.owner), vm.kernel, vm.main, vm.pages.all, vm.pages.live, r);
  }

  lemma RootNotPool(m: Mem, roots: set<nat>, owner: map<nat, Node>, kernel: set<nat>, main: nat, all: set<nat>, live: set<nat>, r: nat)
    requires MemOk(m, roots, owner, kernel, main, all, live) && r in roots && main in roots
    ensures main in PagesOf(owner, r) ==> r == main
  {
    RefNil(m, main);
  }

  /** discard_active_mspace: every page of the space is freed exactly once, and no other space notices. */
  method Discard(vm: Memory) returns (mtag: nat)
    requires vm.Valid() && vm.satp != vm.main
    modifies vm`mem, vm`satp, vm`roots, vm`owner, vm.pages
    ensures vm.Valid() && vm.pages.all == old(vm.pages.all) && vm.satp == vm.main && mtag == old(vm.satp)
    ensures vm.roots == old(vm.roots) - {mtag} && vm.owner == WithoutRoot(old(vm.owner), mtag)
    ensures FreeSet(vm.pages.chunks) == old(FreeSet(vm.pages.chunks)) + PagesOf(old(vm.owner), mtag)
    ensures vm.pages.live == old(vm.pages.live) - PagesOf(old(vm.owner), mtag)
    ensures SameXlate(old(vm.mem), vm.mem, vm.roots, {}) && PagesKept(old(vm.mem), vm.owner, vm.mem, vm.owner)
    ensures forall v :: v !in PagesOf(old(vm.owner), mtag) ==> Agree(old(vm.mem), vm.mem, v)
  {
    hide MemOk, FreeSet, Tree, Exact, Spaces, SameXlate, PagesKept;
    mtag := vm.satp;
    vm.satp := vm.main;
    ghost var own := Release(vm, mtag);
    BelowAll(vm.mem, mtag, LEVELS, own, vm.kernel);
    var g := FreeUser(vm, mtag, LEVELS, own);
    ghost var m1 := vm.mem;
    vm.FreePhysPage(mtag);
    forall v | v !in own ensures Agree(old(vm.mem), vm.mem, v) {
      assert Agree(old(vm.mem), m1, v) && Agree(m1, vm.mem, v);
    }
    KernelElsewhere(vm, own.Keys);
    SpaceKept(old(vm.mem), vm.mem, vm.roots, vm.owner, vm.kernel);
  }

  lemma KernelElsewhere(vm: Memory, s: set<nat>)
    requires vm.Sound() && s <= vm.pages.all
    ensures s !! vm.kernel
  {
    hide Spaces;
  }

  /** A root with its non-global entries cleared is an empty space. */
  lemma ClearedRoot(m: Mem, m': Mem, r: nat, kernel: set<nat>)
    requires Tree(m, r, LEVELS, kernel) && r in m' && Cleared(m[r], m'[r], PTES)
    ensures Tree(m', r, LEVELS, kernel) && Exact(m', r, map[r := []])
  {
    forall p ensures Ref(m', r, p) == if p == [] then Some(r) else None {
      if p != [] {
        var e := Entry(m', r, p[0]);
        assert p[0] < PTES ==> e == m'[r].pt[p[0]];
        assert e.v ==> e.g;
      }
    }
    forall i | 0 <= i < PTES ensures EntryOk(m'[r].pt[i], LEVELS, kernel) {
      assert EntryOk(m[r].pt[i], LEVELS, kernel);
    }
  }

  /** In the emptied space kernel addresses translate as before and all others fault. */
  lemma ClearedTranslate(m: Mem, m': Mem, r: nat, idx: seq<nat>, kernel: set<nat>)
    requires Tree(m, r, LEVELS, kernel) && r in m' && Cleared(m[r], m'[r], PTES) && KernelOk(m, kernel) && AgreeOn(m, m', kernel)
    requires |idx| == LEVELS && idx[0] < PTES
    ensures Translate(m', r, idx) == if Entry(m, r, idx[0]).v && Entry(m, r, idx[0]).g then Translate(m, r, idx) else Fault
  {
    var e := Entry(m, r, idx[0]);
    assert e == m[r].pt[idx[0]] && EntryOk(e, LEVELS, kernel);
    if e.v && e.g {
      assert Entry(m', r, idx[0]) == e;
      if !Leaf(e) {
        KernelTranslate(m, m', e.ppn, idx[1..], kernel);
      }
    }
  }

  /** Kernel addresses translate as before, all others fault. */
  ghost predicate OnlyKernel(m: Mem, m': Mem, root: nat, vma: nat) {
    Translate(m', root, Idx(vma)) == if KernelAddress(m, root, vma) then Translate(m, root, Idx(vma)) else Fault
  }

  /** reset_active_mspace: the active space keeps its kernel entries only. */
  method Reset(vm: Memory)
    requires vm.Valid()
    modifies vm`mem, vm`roots, vm`owner, vm.pages
    ensures vm.Valid() && vm.pages.all == old(vm.pages.all) && vm.roots == old(vm.roots)
    ensures FreeSet(vm.pages.chunks) == old(FreeSet(vm.pages.chunks)) + (PagesOf(old(vm.owner), vm.satp) - {vm.satp})
    ensures PagesOf(vm.owner, vm.satp) == {vm.satp} && WithoutRoot(vm.owner, vm.satp) == WithoutRoot(old(vm.owner), vm.satp)
    ensures SameXlate(old(vm.mem), vm.mem, vm.roots - {vm.satp}, {})
    ensures PagesKept(old(vm.mem), WithoutRoot(vm.owner, vm.satp), vm.mem, vm.owner)
    ensures forall vma: nat :: OnlyKernel(old(vm.mem), vm.mem, vm.satp, vma)
  {
    hide MemOk, FreeSet, Tree, Exact, Spaces, SameXlate, PagesKept, Translate, Idx;
    var root := vm.satp;
    ghost var own := Release(vm, root);
    ghost var rest, owner1 := vm.roots, vm.owner;
    BelowAll(vm.mem, root, LEVELS, own, vm.kernel);
    KernelRule(vm.mem, vm.roots, vm.owner, vm.kernel);
    var g := FreeUser(vm, root, LEVELS, own);
    forall v | v !in own ensures Agree(old(vm.mem), vm.mem, v) {
    }
    SpaceKept(old(vm.mem), vm.mem, vm.roots, vm.owner, vm.kernel);
    ClearedRoot(old(vm.mem), vm.mem, root, vm.kernel);
    SpaceFacts(vm.mem, vm.roots, vm.owner, vm.kernel, vm.main, vm.pages.all, vm.pages.live);
    SpaceAdded(vm.mem, vm.roots, vm.owner, vm.kernel, root, map[root := []]);
    NewSpaceOk(vm.mem, vm.roots, vm.owner, vm.kernel, vm.main, vm.pages.all, vm.pages.live, root, map[root := []]);
    vm.owner := AddSpace(vm.owner, root, map[root := []]);
    vm.roots := vm.roots + {root};
    Emptied(old(vm.owner), root);
    assert vm.roots - {root} == rest;
    PagesKeptMore(old(vm.mem), owner1, vm.mem, vm.owner);
    forall vma: nat ensures OnlyKernel(old(vm.mem), vm.mem, root, vma) {
      ClearedTranslate(old(vm.mem), vm.mem, root, Idx(vma), vm.kernel);
    }
  }

  lemma KernelRule(m: Mem, roots: set<nat>, owner: map<nat, Node>, kernel: set<nat>)
    requires Spaces(m, roots, owner, kernel)
    ensures KernelOk(m, kernel) && owner.Keys !! kernel
  {
  }

  lemma Emptied(owner: map<nat, Node>, r: nat)
    ensures PagesOf(AddSpace(WithoutRoot(owner, r), r, map[r := []]), r) == {r}
    ensures r !in WithoutRoot(owner, r) ==> WithoutRoot(AddSpace(WithoutRoot(owner, r), r, map[r := []]), r) == WithoutRoot(owner, r)
  {
    if r !in WithoutRoot(owner, r) {
      assert WithoutRoot(AddSpace(WithoutRoot(owner, r), r, map[r := []]), r) == WithoutRoot(owner, r);
    }
  }

  lemma PagesKeptMore(m: Mem, owner: map<nat, Node>, m': Mem, owner': map<nat, Node>)
    requires PagesKept(m, owner, m', owner) && forall v :: v in owner ==> v in owner' && owner'[v] == owner[v]
    ensures PagesKept(m, owner, m', owner')
  {
  }

  /** A clone that is discarded again leaves the allocator and every page in use as they were. */
  method CloneAndDiscard(vm: Memory) returns (ok: bool)
    requires vm.Valid()
    modifies vm`mem, vm`satp, vm`roots, vm`owner, vm.pages
    ensures vm.Valid()
    ensures ok <==> Count(PagesOf(old(vm.owner), old(vm.satp))) <= Count(old(FreeSet(vm.pages.chunks)))
    ensures ok ==> FreeSet(vm.pages.chunks) == old(FreeSet(vm.pages.chunks)) && vm.pages.live == old(vm.pages.live)
    ensures ok ==> vm.roots == old(vm.roots) && vm.owner == old(vm.owner)
    ensures OnlyFresh(old(vm.mem), vm.mem, old(FreeSet(vm.pages.chunks)))
    ensures !ok ==> FreeSet(vm.pages.chunks) == {}
  {
    hide MemOk, FreeSet, Copy, SameXlate, PagesKept, Count;
    ghost var free := FreeSet(vm.pages.chunks);
    OwnedNotFree(vm);
    RootsOwned(vm.mem, vm.roots, vm.owner, vm.kernel, vm.main, vm.pages.all, vm.pages.live);
    var r := CloneActive(vm);
    if r.None? {
      return false;
    }
    ghost var m1, owner1 := vm.mem, vm.owner;
    vm.satp := r.value;
    var mtag := Discard(vm);
    BackToStart(old(vm.mem), old(vm.roots), old(vm.owner), vm.kernel, vm.main, vm.pages.all, old(vm.pages.live), owner1, r.value);
    forall v | v !in free ensures Agree(old(vm.mem), vm.mem, v) {
      assert Agree(old(vm.mem), m1, v) && Agree(m1, vm.mem, v);
    }
    return true;
  }

  lemma BackToStart(m: Mem, roots: set<nat>, owner: map<nat, Node>, kernel: set<nat>, main: nat, all: set<nat>, live: set<nat>, owner1: map<nat, Node>, f: nat)
    requires MemOk(m, roots, owner, kernel, main, all, live) && f !in roots
    requires forall v :: v in owner1 && owner1[v].root != f ==> v in owner && owner1[v] == owner[v]
    requires forall v :: v in owner ==> v in owner1 && owner1[v] == owner[v]
    ensures WithoutRoot(owner1, f) == owner
  {
    hide Tree, KernelOk, Ref;
    forall v | v in owner ensures owner[v].root != f {
    }
    assert WithoutRoot(owner1, f) == owner;
  }

  /** What process_fork does with a clone when no thread can be made: the space is emptied but its root is never
      given back, so exactly that page stays allocated. */
  method CloneAndReset(vm: Memory) returns (r: Option<nat>)
    requires vm.Valid()
    modifies vm`mem, vm`satp, vm`roots, vm`owner, vm.pages
    ensures vm.Valid() && vm.satp == old(vm.satp)
    ensures r.Some? ==> r.value in old(FreeSet(vm.pages.chunks)) && FreeSet(vm.pages.chunks) == old(FreeSet(vm.pages.chunks)) - {r.value}
    ensures r.Some? ==> vm.roots == old(vm.roots) + {r.value} && PagesOf(vm.owner, r.value) == {r.value}
    ensures r.Some? ==> WithoutRoot(vm.owner, r.value) == old(vm.owner)
    ensures r.None? ==> FreeSet(vm.pages.chunks) == {} && vm.owner == old(vm.owner)
  {
    hide MemOk, FreeSet, Copy, SameXlate, PagesKept, OnlyKernel, OnlyFresh, PagesOf, WithoutRoot, Count;
    RootsOwned(vm.mem, vm.roots, vm.owner, vm.kernel, vm.main, vm.pages.all, vm.pages.live);
    r := CloneActive(vm);
    if r.Some? {
      ghost var owner1 := vm.owner;
      BackToStart(old(vm.mem), old(vm.roots), old(vm.owner), vm.kernel, vm.main, vm.pages.all, old(vm.pages.live), owner1, r.value);
      OwnRoot(vm.mem, vm.roots, vm.owner, vm.kernel, vm.main, vm.pages.all, vm.pages.live, r.value);
      var saved := vm.satp;
      vm.satp := r.value;
      Reset(vm);
      vm.satp := saved;
      AllBut(old(FreeSet(vm.pages.chunks)), PagesOf(owner1, r.value), r.value);
    }
  }

  lemma AllBut(free: set<nat>, taken: set<nat>, r: nat)
    requires taken <= free && r in taken
    ensures free - taken + (taken - {r}) == free - {r}
  {
  }

  lemma OwnRoot(m: Mem, roots: set<nat>, owner: map<nat, Node>, kernel: set<nat>, main: nat, all: set<nat>, live: set<nat>, r: nat)
    requires MemOk(m, roots, owner, kernel, main, all, live) && r in roots
    ensures r in PagesOf(owner, r)
  {
    RefNil(m, r);
  }

  // ---- what a clone means ----

  /** In a clone every kernel address translates as before, and every other address leads to a page of its own
      with the same bytes and flags. */
  lemma CloneMeaning(m: Mem, roots: set<nat>, owner: map<nat, Node>, kernel: set<nat>, r: nat, f: nat, vma: nat)
    requires Spaces(m, roots, owner, kernel) && r in roots && f in roots && Copy(m, r, f, LEVELS)
    ensures KernelAddress(m, r, vma) ==> Translate(m, f, Idx(vma)) == Translate(m, r, Idx(vma))
    ensures !KernelAddress(m, r, vma) ==> SameMeaning(m, Translate(m, r, Idx(vma)), Translate(m, f, Idx(vma)))
  {
    hide Translate, Idx, Owned, Copy;
    CopyTranslate(m, r, f, LEVELS, Idx(vma), kernel);
  }

  /** No user page is visible in two spaces, or twice in one: a store through one address shows at no other. */
  lemma Isolated(m: Mem, roots: set<nat>, owner: map<nat, Node>, kernel: set<nat>, r: nat, vma: nat, r': nat, vma': nat)
    requires Spaces(m, roots, owner, kernel) && r in roots && r' in roots && Wellformed(vma) && Wellformed(vma')
    requires Translate(m, r, Idx(vma)).Hit? && !KernelAddress(m, r, vma)
    requires Translate(m, r', Idx(vma')).Hit? && !KernelAddress(m, r', vma')
    requires Translate(m, r, Idx(vma)).ppn == Translate(m, r', Idx(vma')).ppn
    ensures r == r' && vma / PAGE_SIZE == vma' / PAGE_SIZE
  {
    hide Translate, Idx, Tree, KernelOk;
    UserPage(m, roots, owner, kernel, r, vma);
    UserPage(m, roots, owner, kernel, r', vma');
    hide Ref;
    IdxInjective(vma, vma');
  }

  // ---- a store ----

  /** Writing the bytes of a page changes no entry of any table. */
  lemma {:induction false} PageTranslate(m: Mem, v: nat, bytes: seq<u8>, t: nat, idx: seq<nat>)
    requires v in m && m[v].Page?
    ensures Translate(m[v := Page(bytes)], t, idx) == Translate(m, t, idx)
    decreases |idx|
  {
    if idx != [] {
      assert Entry(m[v := Page(bytes)], t, idx[0]) == Entry(m, t, idx[0]);
      PageTranslate(m, v, bytes, Entry(m, t, idx[0]).ppn, idx[1..]);
    }
  }

  /** A store through a user address changes the translation of no address of any space, and of all the user
      addresses of all the spaces it shows at those of the same page of the same space only. */
  lemma StoreShows(m: Mem, roots: set<nat>, owner: map<nat, Node>, kernel: set<nat>, r: nat, vma: nat, bytes: seq<u8>, r': nat, vma': nat)
    requires Spaces(m, roots, owner, kernel) && r in roots && r' in roots && Wellformed(vma) && Wellformed(vma')
    requires Translate(m, r, Idx(vma)).Hit? && !KernelAddress(m, r, vma)
    ensures Translate(m, r, Idx(vma)).ppn in m && m[Translate(m, r, Idx(vma)).ppn].Page?
    ensures var v := Translate(m, r, Idx(vma)).ppn; var m' := m[v := Page(bytes)];
      && Translate(m', r', Idx(vma')) == Translate(m, r', Idx(vma'))
      && (r == r' && vma / PAGE_SIZE == vma' / PAGE_SIZE ==> Translate(m', r', Idx(vma')).Hit? && m'[Translate(m', r', Idx(vma')).ppn] == Page(bytes))
      && (Translate(m, r', Idx(vma')).Hit? && !KernelAddress(m, r', vma') && !(r == r' && vma / PAGE_SIZE == vma' / PAGE_SIZE) ==>
           Agree(m, m', Translate(m', r', Idx(vma')).ppn))
  {
    var v := Translate(m, r, Idx(vma)).ppn;
    UserPage(m, roots, owner, kernel, r, vma);
    PageTranslate(m, v, bytes, r', Idx(vma'));
    hide Spaces;
    if vma / PAGE_SIZE == vma' / PAGE_SIZE {
      IdxSame(vma, vma');
    }
    hide Translate, Idx, KernelAddress, Wellformed;
    if Translate(m, r', Idx(vma')).Hit? && !KernelAddress(m, r', vma') && Translate(m, r', Idx(vma')).ppn == v {
      Isolated(m, roots, owner, kernel, r, vma, r', vma');
    }
  }

  lemma IdxSame(a: nat, b: nat)
    requires a / PAGE_SIZE == b / PAGE_SIZE
    ensures Idx(a) == Idx(b)
  {
  }
}
