/** How many pages a tree has, and which of them lie below which entry. */
module Sv39Size {
  import opened Base
  import opened Sv39
  import opened Sv39Edit
  import opened Sv39Ops
  import opened Sv39Copy

  /** The part of a tree below entry i. */
  ghost function OwnBelow(own: map<nat, seq<nat>>, i: nat): map<nat, seq<nat>> {
    map v | v in own && own[v] != [] && own[v][0] == i :: own[v][1..]
  }

  /** The pages below the first n entries. */
  ghost function Below(own: map<nat, seq<nat>>, n: nat): set<nat> {
    set v | v in own && own[v] != [] && own[v][0] < n
  }

  lemma BelowMore(own: map<nat, seq<nat>>, i: nat)
    ensures Below(own, i + 1) == Below(own, i) + OwnBelow(own, i).Keys && Below(own, i) !! OwnBelow(own, i).Keys
  {
  }

  lemma ExactBelow(m: Mem, f: nat, own: map<nat, seq<nat>>, i: nat)
    requires Exact(m, f, own)
    ensures Entry(m, f, i).v && !Entry(m, f, i).g ==> Exact(m, Entry(m, f, i).ppn, OwnBelow(own, i))
    ensures !(Entry(m, f, i).v && !Entry(m, f, i).g) ==> OwnBelow(own, i) == map[]
    ensures f in own && own[f] == [] && f !in OwnBelow(own, i)
  {
    assert Ref(m, f, []) == Some(f);
    var c := Entry(m, f, i).ppn;
    if Entry(m, f, i).v && !Entry(m, f, i).g {
      forall p | Ref(m, c, p).Some?
        ensures Ref(m, c, p).value in OwnBelow(own, i) && OwnBelow(own, i)[Ref(m, c, p).value] == p
      {
        RefCons(m, f, i, p);
        assert own[Ref(m, f, [i] + p).value] == [i] + p;
      }
      forall v | v in OwnBelow(own, i) ensures Ref(m, c, OwnBelow(own, i)[v]) == Some(v) {
        assert own[v] == [i] + own[v][1..];
        RefCons(m, f, i, own[v][1..]);
      }
    } else {
      forall v | v in own && own[v] != [] ensures own[v][0] != i {
        assert Ref(m, f, own[v]).Some?;
      }
      assert OwnBelow(own, i) == map[];
    }
  }

  /** Every path of a tree starts with an index below 512. */
  lemma BelowAll(m: Mem, c: nat, h: nat, own: map<nat, seq<nat>>, kernel: set<nat>)
    requires Tree(m, c, h, kernel) && Exact(m, c, own)
    ensures Below(own, PTES) == own.Keys - {c}
    ensures h == 0 ==> own.Keys == {c}
  {
    assert Ref(m, c, []) == Some(c);
    forall v | v in own && v != c ensures own[v] != [] && own[v][0] < PTES && h > 0 {
      assert Ref(m, c, own[v]) == Some(v);
      assert own[v] != [] ==> Entry(m, c, own[v][0]).v;
    }
  }

  // ---- counting ----

  /** The pages of the tree of height h at t, tables included. */
  ghost function Size(m: Mem, t: nat, h: nat): nat
    decreases h, 1, 0
  {
    if h == 0 then 1 else 1 + Sizes(m, t, h, PTES)
  }

  /** The pages below the first n entries of t. */
  ghost function Sizes(m: Mem, t: nat, h: nat, n: nat): nat
    requires h > 0
    decreases h, 0, n
  {
    if n == 0 then 0 else Sizes(m, t, h, n - 1) + EntrySize(m, Entry(m, t, n - 1), h)
  }

  ghost function EntrySize(m: Mem, e: Pte, h: nat): nat
    requires h > 0
    decreases h - 1, 2, 0
  {
    if e.v && !e.g then Size(m, e.ppn, h - 1) else 0
  }

  lemma {:induction false} SizesMore(m: Mem, t: nat, h: nat, n: nat, k: nat)
    requires h > 0 && n <= k
    ensures Sizes(m, t, h, n) <= Sizes(m, t, h, k)
    decreases k
  {
    if n < k {
      SizesMore(m, t, h, n, k - 1);
    }
  }

  /** A tree that is the same in two memories has the same size in both. */
  lemma {:induction false} SizeSame(m: Mem, m': Mem, t: nat, h: nat)
    requires SameBelow(m, m', t)
    ensures Size(m', t, h) == Size(m, t, h)
    decreases h, 1, 0
  {
    if h > 0 {
      SizesSame(m, m', t, h, PTES);
    }
  }

  lemma {:induction false} SizesSame(m: Mem, m': Mem, t: nat, h: nat, n: nat)
    requires h > 0 && SameBelow(m, m', t)
    ensures Sizes(m', t, h, n) == Sizes(m, t, h, n)
    decreases h, 0, n
  {
    if n > 0 {
      SizesSame(m, m', t, h, n - 1);
      assert Ref(m, t, []).Some?;
      var e := Entry(m, t, n - 1);
      assert Entry(m', t, n - 1) == e;
      if e.v && !e.g {
        SameChild(m, m', t, n - 1);
        SizeSame(m, m', e.ppn, h - 1);
      }
    }
  }

  /** The size is the number of pages. */
  lemma {:induction false} ExactSize(m: Mem, t: nat, h: nat, own: map<nat, seq<nat>>, kernel: set<nat>)
    requires Tree(m, t, h, kernel) && Exact(m, t, own)
    ensures |own.Keys| == Size(m, t, h)
    decreases h, 1, 0
  {
    hide Exact;
    BelowAll(m, t, h, own, kernel);
    RootIn(m, t, own);
    if h > 0 {
      ExactSizes(m, t, h, own, kernel, PTES);
      assert own.Keys == Below(own, PTES) + {t};
    }
  }

  lemma RootIn(m: Mem, t: nat, own: map<nat, seq<nat>>)
    requires Exact(m, t, own)
    ensures t in own && own[t] == []
  {
    assert Ref(m, t, []) == Some(t);
  }

  lemma {:induction false} ExactSizes(m: Mem, t: nat, h: nat, own: map<nat, seq<nat>>, kernel: set<nat>, n: nat)
    requires h > 0 && Tree(m, t, h, kernel) && Exact(m, t, own) && n <= PTES
    ensures |Below(own, n)| == Sizes(m, t, h, n)
    decreases h, 0, n
  {
    hide Exact, Tree, Size, Sizes, EntrySize, OwnBelow, Below, Entry;
    SizesStep(m, t, h, n);
    if n == 0 {
      NoneBelow(own);
    } else {
      ExactSizes(m, t, h, own, kernel, n - 1);
      EntryCount(m, t, h, own, kernel, n - 1);
      MoreBelow(own, n - 1);
    }
  }

  lemma MoreBelow(own: map<nat, seq<nat>>, i: nat)
    ensures |Below(own, i + 1)| == |Below(own, i)| + |OwnBelow(own, i).Keys|
  {
    BelowMore(own, i);
    Disjoint(Below(own, i), OwnBelow(own, i).Keys);
  }

  lemma {:induction false} EntryCount(m: Mem, t: nat, h: nat, own: map<nat, seq<nat>>, kernel: set<nat>, i: nat)
    requires h > 0 && Tree(m, t, h, kernel) && Exact(m, t, own) && i < PTES
    ensures |OwnBelow(own, i).Keys| == EntrySize(m, Entry(m, t, i), h)
    decreases h - 1, 2, 0
  {
    hide Exact, Tree, Size, OwnBelow, Entry;
    ExactBelow(m, t, own, i);
    var e := Entry(m, t, i);
    if e.v && !e.g {
      TreeChild(m, t, h, i, kernel);
      ExactSize(m, e.ppn, h - 1, OwnBelow(own, i), kernel);
    }
  }

  lemma NoneBelow(own: map<nat, seq<nat>>)
    ensures Below(own, 0) == {}
  {
  }

  lemma Disjoint(a: set<nat>, b: set<nat>)
    requires a !! b
    ensures |a + b| == |a| + |b|
  {
  }

  lemma SizesStep(m: Mem, t: nat, h: nat, n: nat)
    requires h > 0
    ensures Sizes(m, t, h, n) == if n == 0 then 0 else Sizes(m, t, h, n - 1) + EntrySize(m, Entry(m, t, n - 1), h)
  {
  }

  lemma TreeChild(m: Mem, t: nat, h: nat, i: nat, kernel: set<nat>)
    requires h > 0 && Tree(m, t, h, kernel) && i < PTES && Entry(m, t, i).v && !Entry(m, t, i).g
    ensures Tree(m, Entry(m, t, i).ppn, h - 1, kernel)
  {
    assert Entry(m, t, i) == m[t].pt[i];
  }

  // ---- the pages of a space ----

  /** The pages of a space, tables and root included. */
  ghost function PagesOf(owner: map<nat, Node>, r: nat): set<nat> {
    set v | v in owner && owner[v].root == r
  }

  ghost function OwnOf(owner: map<nat, Node>, r: nat): map<nat, seq<nat>> {
    map v | v in owner && owner[v].root == r :: owner[v].path
  }

  lemma ExactOf(m: Mem, roots: set<nat>, owner: map<nat, Node>, r: nat)
    requires Owned(m, roots, owner) && r in roots
    ensures Exact(m, r, OwnOf(owner, r)) && r in owner && owner[r].root == r
  {
    hide Ref;
    RefNil(m, r);
    var own := OwnOf(owner, r);
    forall p | Ref(m, r, p).Some? ensures Ref(m, r, p).value in own && own[Ref(m, r, p).value] == p {
      var v := Ref(m, r, p).value;
      assert v in owner && owner[v] == Node(r, p);
    }
    forall v | v in own ensures Ref(m, r, own[v]) == Some(v) {
      assert Ref(m, owner[v].root, owner[v].path) == Some(v);
    }
  }

  lemma SpaceSize(m: Mem, roots: set<nat>, owner: map<nat, Node>, kernel: set<nat>, r: nat)
    requires Spaces(m, roots, owner, kernel) && r in roots
    ensures |PagesOf(owner, r)| == Size(m, r, LEVELS)
  {
    hide Tree, KernelOk, Exact, Ref, Size;
    ExactOf(m, roots, owner, r);
    assert OwnOf(owner, r).Keys == PagesOf(owner, r);
    ExactSize(m, r, LEVELS, OwnOf(owner, r), kernel);
  }
}
