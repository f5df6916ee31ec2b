/** The two edits map_page and unmap make: linking an empty table, and setting a bottom entry. */
module Sv39Ops {
  import opened Base
  import opened Sv39
  import opened Sv39Edit

  /** Every address of every space translates as before, except at n. */
  ghost predicate SameXlate(m: Mem, m': Mem, roots: set<nat>, but: set<Node>) {
    forall r, idx: seq<nat> :: r in roots && |idx| == LEVELS && Node(r, idx) !in but ==> Translate(m', r, idx) == Translate(m, r, idx)
  }

  /** Every page of every space is where it was and holds what it held. */
  ghost predicate PagesKept(m: Mem, owner: map<nat, Node>, m': Mem, owner': map<nat, Node>) {
    forall v :: v in owner && v in m && m[v].Page? ==> v in owner' && owner'[v] == owner[v] && v in m' && m'[v] == m[v]
  }

  lemma SameXlateTrans(a: Mem, b: Mem, c: Mem, roots: set<nat>, s: set<Node>, t: set<Node>)
    requires SameXlate(a, b, roots, s) && SameXlate(b, c, roots, t)
    ensures SameXlate(a, c, roots, s + t)
  {
    hide Translate;
  }

  lemma SameXlateBoth(a: Mem, b: Mem, c: Mem, roots: set<nat>)
    requires SameXlate(a, b, roots, {}) && SameXlate(b, c, roots, {})
    ensures SameXlate(a, c, roots, {})
  {
    hide Translate;
  }

  lemma PagesKeptTrans(a: Mem, oa: map<nat, Node>, b: Mem, ob: map<nat, Node>, c: Mem, oc: map<nat, Node>)
    requires PagesKept(a, oa, b, ob) && PagesKept(b, ob, c, oc)
    ensures PagesKept(a, oa, c, oc)
  {
  }

  /** What a bottom entry translates to. */
  function LeafX(e: Pte): Xlate {
    if !e.v || (!e.r && e.w) || !(e.r || e.x) then Fault else Hit(e.ppn, e)
  }

  /** An entry made from the flags of a caller grants what they say; write permission alone faults. */
  lemma LeafGrants(pp: nat, f: Flags)
    requires (f.r || f.w || f.x) && !f.g
    ensures if f.r || !f.w then Grants(LeafX(LeafPte(pp, f)), pp, f) else LeafX(LeafPte(pp, f)) == Fault
  {
  }

  /** Entries on the way to a table are not leaves. */
  lemma PathNonLeaf(m: Mem, roots: set<nat>, owner: map<nat, Node>, kernel: set<nat>, n: Node, q: seq<nat>, v: nat)
    requires Spaces(m, roots, owner, kernel) && n.root in roots && |n.path| < LEVELS && Ref(m, n.root, n.path).Some?
    requires Ref(m, n.root, q) == Some(v) && q <= n.path && q != n.path
    ensures !Leaf(Entry(m, v, n.path[|q|]))
  {
    HeightAt(m, n.root, LEVELS, q, kernel);
    var j := n.path[|q|];
    assert n.path == (q + [j]) + n.path[|q| + 1..];
    RefAppend(m, n.root, q + [j], n.path[|q| + 1..]);
    RefSnoc(m, n.root, q, v, j);
    assert Entry(m, v, j) == m[v].pt[j];
  }

  /** Translation at the changed entry, before and after. */
  lemma TranslateAt(m: Mem, roots: set<nat>, owner: map<nat, Node>, kernel: set<nat>, t: nat, n: Node, i: nat, e: Pte, idx: seq<nat>)
    requires Spaces(m, roots, owner, kernel) && At(m, roots, owner, t, n, i) && n.root in roots && n.path + [i] <= idx
    ensures Translate(SetEntry(m, t, i, e), n.root, idx) == Translate(SetEntry(m, t, i, e), t, idx[|n.path|..])
    ensures Translate(m, n.root, idx) == Translate(m, t, idx[|n.path|..])
  {
    hide Translate, Tree, KernelOk, Ref;
    assert Ref(m, n.root, n.path).Some?;
    forall q, v | Ref(m, n.root, q) == Some(v) && q <= n.path && q != n.path ensures !Leaf(Entry(m, v, n.path[|q|])) {
      PathNonLeaf(m, roots, owner, kernel, n, q, v);
    }
    assert [] + idx == idx;
    RefNil(m, n.root);
    TranslateThrough(m, roots, owner, t, n, i, e, [], n.root, idx);
    var e0 := Entry(m, t, i);
    assert SetEntry(m, t, i, e0) == m by {
      assert m[t].pt[i := e0] == m[t].pt;
    }
    TranslateThrough(m, roots, owner, t, n, i, e0, [], n.root, idx);
  }

  lemma RefNil(m: Mem, r: nat)
    ensures Ref(m, r, []) == Some(r)
  {
  }

  lemma TranslateElsewhere(m: Mem, roots: set<nat>, owner: map<nat, Node>, kernel: set<nat>, t: nat, n: Node, i: nat, e: Pte, r: nat, idx: seq<nat>)
    requires Spaces(m, roots, owner, kernel) && At(m, roots, owner, t, n, i) && r in roots && |idx| == LEVELS
    requires !(r == n.root && n.path + [i] <= idx)
    ensures Translate(SetEntry(m, t, i, e), r, idx) == Translate(m, r, idx)
  {
    hide Translate, Owned, KernelOk, Tree;
    assert [] + idx == idx;
    RefNil(m, r);
    TranslateOfSet(m, roots, owner, kernel, t, n, i, e, r, [], r, idx);
  }

  /** Overwriting a page that belongs to nobody disturbs no space. */
  lemma ScratchPage(m: Mem, roots: set<nat>, owner: map<nat, Node>, kernel: set<nat>, f: nat, x: Frame)
    requires Spaces(m, roots, owner, kernel) && f in m && f !in owner && f !in kernel
    ensures Spaces(m[f := x], roots, owner, kernel) && SameXlate(m, m[f := x], roots, {}) && PagesKept(m, owner, m[f := x], owner)
  {
    hide Translate, Tree;
    var m' := m[f := x];
    forall r | r in roots ensures SameBelow(m, m', r) {
    }
    forall r | r in roots ensures Tree(m', r, LEVELS, kernel) {
      TreeSame(m, m', r, LEVELS, kernel);
    }
    forall r, p | r in roots ensures Ref(m', r, p) == Ref(m, r, p) {
      RefSame(m, m', r, p);
    }
    forall r, idx: seq<nat> | r in roots && |idx| == LEVELS ensures Translate(m', r, idx) == Translate(m, r, idx) {
      TranslateSame(m, m', r, LEVELS, idx, kernel);
    }
    assert KernelOk(m', kernel) by {
      forall k, j: nat | k in kernel && Entry(m', k, j).v && !Leaf(Entry(m', k, j)) ensures Entry(m', k, j).ppn in kernel {
        assert Entry(m', k, j) == Entry(m, k, j);
      }
    }
  }

  lemma ZeroChildless(m: Mem, f: nat)
    requires f in m && m[f] == ZeroTable()
    ensures Childless(m, f)
  {
  }

  lemma ZeroIsTree(m: Mem, f: nat, h: nat, kernel: set<nat>)
    requires f in m && m[f] == ZeroTable() && h > 0
    ensures Tree(m, f, h, kernel)
  {
  }

  /** An empty entry and an entry leading to an empty table both fault. */
  lemma LinkFaults(m: Mem, t: nat, i: nat, f: nat, idx: seq<nat>)
    requires |idx| > 1 && idx[0] == i && f in m && m[f] == ZeroTable()
    requires !Entry(m, t, i).v || Entry(m, t, i) == PtabPte(f, false)
    ensures Translate(m, t, idx) == Fault
  {
    assert !Entry(m, f, idx[1]).v;
    assert idx[1..][0] == idx[1];
  }

  /** Linking an empty table changes no translation. */
  lemma LinkTable(m: Mem, roots: set<nat>, owner: map<nat, Node>, kernel: set<nat>, t: nat, n: Node, i: nat, f: nat)
    requires Spaces(m, roots, owner, kernel) && At(m, roots, owner, t, n, i) && n.root in roots
    requires |n.path| + 1 < LEVELS && !Entry(m, t, i).v
    requires f in m && m[f] == ZeroTable() && f !in owner && f !in kernel
    ensures Spaces(SetEntry(m, t, i, PtabPte(f, false)), roots, owner[f := Node(n.root, n.path + [i])], kernel)
    ensures SameXlate(m, SetEntry(m, t, i, PtabPte(f, false)), roots, {})
    ensures PagesKept(m, owner, SetEntry(m, t, i, PtabPte(f, false)), owner[f := Node(n.root, n.path + [i])])
  {
    hide Tree, Owned, KernelOk, Translate, Ref, Childless;
    var e := PtabPte(f, false);
    var m' := SetEntry(m, t, i, e);
    ZeroChildless(m, f);
    ZeroIsTree(m, f, LEVELS - |n.path| - 1, kernel);
    SpacesOfSet(m, roots, owner, kernel, t, n, i, e);
    forall r, idx: seq<nat> | r in roots && |idx| == LEVELS ensures Translate(m', r, idx) == Translate(m, r, idx) {
      if r == n.root && n.path + [i] <= idx {
        TranslateAt(m, roots, owner, kernel, t, n, i, e, idx);
        assert idx[|n.path|..][0] == i;
        EntryOfSet(m, t, i, e, t, i);
        LinkFaults(m, t, i, f, idx[|n.path|..]);
        LinkFaults(m', t, i, f, idx[|n.path|..]);
      } else {
        TranslateElsewhere(m, roots, owner, kernel, t, n, i, e, r, idx);
      }
    }
  }

  /** Setting a bottom entry changes the translation of one page of one space. */
  lemma SetLeaf(m: Mem, roots: set<nat>, owner: map<nat, Node>, kernel: set<nat>, t: nat, n: Node, i: nat, e: Pte)
    requires Editable(m, roots, owner, kernel, t, n, i, e) && |n.path| + 1 == LEVELS
    ensures Spaces(SetEntry(m, t, i, e), roots, NewOwner(m, owner, t, n, i, e), kernel)
    ensures SameXlate(m, SetEntry(m, t, i, e), roots, {Node(n.root, n.path + [i])})
    ensures Translate(SetEntry(m, t, i, e), n.root, n.path + [i]) == LeafX(e)
  {
    var m' := SetEntry(m, t, i, e);
    SpacesOfSet(m, roots, owner, kernel, t, n, i, e);
    hide Tree, Owned, KernelOk, Ref;
    TranslateAt(m, roots, owner, kernel, t, n, i, e, n.path + [i]);
    assert (n.path + [i])[|n.path|..] == [i];
    EntryOfSet(m, t, i, e, t, i);
    LeafTranslate(m', t, i);
    forall r, idx: seq<nat> | r in roots && |idx| == LEVELS && Node(r, idx) != Node(n.root, n.path + [i])
      ensures Translate(m', r, idx) == Translate(m, r, idx)
    {
      hide Translate;
      TranslateElsewhere(m, roots, owner, kernel, t, n, i, e, r, idx);
    }
  }

  lemma LeafTranslate(m: Mem, t: nat, i: nat)
    ensures Translate(m, t, [i]) == LeafX(Entry(m, t, i))
  {
    assert Span(0) == 1 && Offset([]) == 0 && [i][1..] == [];
    assert Translate(m, Entry(m, t, i).ppn, []) == Fault;
  }
}
