/** What changing one entry of one table does to the address spaces: exactly one subtree moves. */
module Sv39Edit {
  import opened Base
  import opened Sv39

  /** Storing e in entry i of table t. */
  function SetEntry(m: Mem, t: nat, i: nat, e: Pte): Mem
    requires t in m && m[t].Table? && i < |m[t].pt|
  {
    m[t := Table(m[t].pt[i := e])]
  }

  /** Table t lies at place n of the spaces, and entry i of it is being changed. */
  ghost predicate At(m: Mem, roots: set<nat>, owner: map<nat, Node>, t: nat, n: Node, i: nat) {
    && Owned(m, roots, owner) && t in owner && owner[t] == n && |n.path| < LEVELS
    && t in m && m[t].Table? && |m[t].pt| == PTES && i < PTES
  }

  lemma EntryOfSet(m: Mem, t: nat, i: nat, e: Pte, u: nat, j: nat)
    requires t in m && m[t].Table? && |m[t].pt| == PTES && i < PTES
    ensures Entry(SetEntry(m, t, i, e), u, j) == if u == t && j == i then e else Entry(m, u, j)
  {
  }

  /** One more step along a path. */
  lemma RefSnoc(m: Mem, r: nat, pre: seq<nat>, u: nat, j: nat)
    requires Ref(m, r, pre) == Some(u)
    ensures Ref(m, r, pre + [j]) == (var e := Entry(m, u, j); if e.v && !e.g then Some(e.ppn) else None)
  {
    RefAppend(m, r, pre, [j]);
    RefCons(m, u, j, []);
    assert [j] + [] == [j];
  }

  /** Paths that do not go through the changed entry lead where they led. */
  lemma {:induction false} RefOfSet(m: Mem, roots: set<nat>, owner: map<nat, Node>, t: nat, n: Node, i: nat, e: Pte,
                                    r: nat, pre: seq<nat>, u: nat, p: seq<nat>)
    requires At(m, roots, owner, t, n, i) && r in roots && Ref(m, r, pre) == Some(u)
    requires !(r == n.root && n.path + [i] <= pre + p)
    ensures Ref(SetEntry(m, t, i, e), u, p) == Ref(m, u, p)
    decreases |p|
  {
    if p != [] {
      var m', x := SetEntry(m, t, i, e), Entry(m, u, p[0]);
      EntryOfSet(m, t, i, e, u, p[0]);
      assert owner[u] == Node(r, pre);
      assert pre + [p[0]] <= pre + p;
      if x.v && !x.g {
        RefSnoc(m, r, pre, u, p[0]);
        assert pre + [p[0]] + p[1..] == pre + p;
        RefOfSet(m, roots, owner, t, n, i, e, r, pre + [p[0]], x.ppn, p[1..]);
      }
    }
  }

  /** Paths through the changed entry follow the new one. */
  lemma RefThrough(m: Mem, roots: set<nat>, owner: map<nat, Node>, t: nat, n: Node, i: nat, e: Pte, p: seq<nat>)
    requires At(m, roots, owner, t, n, i) && n.path + [i] <= p && n.root in roots
    ensures Ref(SetEntry(m, t, i, e), n.root, p) ==
      if e.v && !e.g then Ref(SetEntry(m, t, i, e), e.ppn, p[|n.path| + 1..]) else None
  {
    var m', rest := SetEntry(m, t, i, e), p[|n.path| + 1..];
    assert p == n.path + ([i] + rest);
    assert [] + n.path == n.path;
    RefOfSet(m, roots, owner, t, n, i, e, n.root, [], n.root, n.path);
    RefAppend(m', n.root, n.path, [i] + rest);
    RefCons(m', t, i, rest);
    EntryOfSet(m, t, i, e, t, i);
  }

  /** Nothing hangs below v. */
  ghost predicate Childless(m: Mem, v: nat) {
    forall i: nat :: !Entry(m, v, i).v
  }

  lemma ChildlessRef(m: Mem, v: nat, p: seq<nat>)
    requires Childless(m, v)
    ensures Ref(m, v, p) == if p == [] then Some(v) else None
  {
    if p != [] {
      assert !Entry(m, v, p[0]).v;
    }
  }

  lemma ChildlessBelow(m: Mem, m': Mem, v: nat)
    requires Childless(m, v) && Agree(m, m', v)
    ensures SameBelow(m, m', v) && Childless(m', v)
  {
    forall p | Ref(m, v, p).Some? ensures Agree(m, m', Ref(m, v, p).value) {
      ChildlessRef(m, v, p);
    }
    forall i: nat ensures !Entry(m', v, i).v {
      assert Entry(m', v, i) == Entry(m, v, i);
    }
  }

  /** The change being made: the old entry is free or a bottom leaf, and the new one is empty or leads to a
      page or empty table that belonged to nobody. */
  ghost predicate Editable(m: Mem, roots: set<nat>, owner: map<nat, Node>, kernel: set<nat>, t: nat, n: Node, i: nat, e: Pte) {
    && Spaces(m, roots, owner, kernel) && At(m, roots, owner, t, n, i) && n.root in roots
    && (Entry(m, t, i).v ==> !Entry(m, t, i).g && |n.path| + 1 == LEVELS)
    && (e.v ==>
          && EntryOk(e, LEVELS - |n.path|, kernel) && !e.g
          && e.ppn !in owner && e.ppn !in kernel && Childless(m, e.ppn) && Tree(m, e.ppn, LEVELS - |n.path| - 1, kernel))
  }

  /** Who owns what afterwards. */
  ghost function NewOwner(m: Mem, owner: map<nat, Node>, t: nat, n: Node, i: nat, e: Pte): map<nat, Node> {
    var kept := if Entry(m, t, i).v then owner - {Entry(m, t, i).ppn} else owner;
    if e.v then kept[e.ppn := Node(n.root, n.path + [i])] else kept
  }

  /** A node at this path has this height. */
  lemma {:induction false} HeightAt(m: Mem, r: nat, h: nat, p: seq<nat>, kernel: set<nat>)
    requires Tree(m, r, h, kernel) && Ref(m, r, p).Some?
    ensures |p| <= h && Tree(m, Ref(m, r, p).value, h - |p|, kernel)
    decreases |p|
  {
    if p != [] {
      var e := Entry(m, r, p[0]);
      if h > 0 {
        assert e == m[r].pt[p[0]];
        HeightAt(m, e.ppn, h - 1, p[1..], kernel);
      }
    }
  }

  /** Below the old entry there is one page at most. */
  lemma OldEntry(m: Mem, roots: set<nat>, owner: map<nat, Node>, kernel: set<nat>, t: nat, n: Node, i: nat, e: Pte, p: seq<nat>)
    requires Editable(m, roots, owner, kernel, t, n, i, e) && n.path + [i] <= p
    ensures Ref(m, n.root, p) == if Entry(m, t, i).v && p == n.path + [i] then Some(Entry(m, t, i).ppn) else None
  {
    var rest := p[|n.path| + 1..];
    assert p == n.path + [i] + rest;
    RefSnoc(m, n.root, n.path, t, i);
    RefAppend(m, n.root, n.path + [i], rest);
    if Entry(m, t, i).v && rest != [] && Ref(m, n.root, p).Some? {
      HeightAt(m, n.root, LEVELS, p, kernel);
    }
    assert rest == [] ==> p == n.path + [i];
  }

  lemma NewEntry(m: Mem, roots: set<nat>, owner: map<nat, Node>, kernel: set<nat>, t: nat, n: Node, i: nat, e: Pte, p: seq<nat>)
    requires Editable(m, roots, owner, kernel, t, n, i, e) && n.path + [i] <= p
    ensures Ref(SetEntry(m, t, i, e), n.root, p) == if e.v && p == n.path + [i] then Some(e.ppn) else None
  {
    var m' := SetEntry(m, t, i, e);
    var rest := p[|n.path| + 1..];
    assert p == n.path + [i] + rest;
    RefThrough(m, roots, owner, t, n, i, e, p);
    if e.v {
      ChildlessBelow(m, m', e.ppn);
      ChildlessRef(m', e.ppn, rest);
    }
    assert rest == [] <==> p == n.path + [i];
  }

  lemma OwnedOfSet(m: Mem, roots: set<nat>, owner: map<nat, Node>, kernel: set<nat>, t: nat, n: Node, i: nat, e: Pte)
    requires Editable(m, roots, owner, kernel, t, n, i, e)
    ensures Owned(SetEntry(m, t, i, e), roots, NewOwner(m, owner, t, n, i, e))
  {
    hide Tree, KernelOk, EntryOk;
    var m', owner' := SetEntry(m, t, i, e), NewOwner(m, owner, t, n, i, e);
    OldEntry(m, roots, owner, kernel, t, n, i, e, n.path + [i]);
    NewEntry(m, roots, owner, kernel, t, n, i, e, n.path + [i]);
    forall r, p | r in roots && Ref(m', r, p).Some? ensures Ref(m', r, p).value in owner' && owner'[Ref(m', r, p).value] == Node(r, p) {
      if r == n.root && n.path + [i] <= p {
        NewEntry(m, roots, owner, kernel, t, n, i, e, p);
      } else {
        assert [] + p == p;
        RefOfSet(m, roots, owner, t, n, i, e, r, [], r, p);
      }
    }
    forall v | v in owner' ensures owner'[v].root in roots && Ref(m', owner'[v].root, owner'[v].path) == Some(v) {
      if !(e.v && v == e.ppn) {
        var k := owner[v];
        if k.root == n.root && n.path + [i] <= k.path {
          OldEntry(m, roots, owner, kernel, t, n, i, e, k.path);
          assert false;
        } else {
          assert [] + k.path == k.path;
          RefOfSet(m, roots, owner, t, n, i, e, k.root, [], k.root, k.path);
        }
      }
    }
  }

  lemma {:induction false} TreeOfSet(m: Mem, roots: set<nat>, owner: map<nat, Node>, kernel: set<nat>, t: nat, n: Node, i: nat, e: Pte,
                                     r: nat, pre: seq<nat>, u: nat, h: nat)
    requires Editable(m, roots, owner, kernel, t, n, i, e)
    requires r in roots && Ref(m, r, pre) == Some(u) && Tree(m, u, h, kernel) && |pre| + h == LEVELS
    ensures Tree(SetEntry(m, t, i, e), u, h, kernel)
    decreases h
  {
    var m' := SetEntry(m, t, i, e);
    assert owner[u] == Node(r, pre);
    if h > 0 {
      forall j | 0 <= j < PTES
        ensures EntryOk(m'[u].pt[j], h, kernel)
        ensures m'[u].pt[j].v && !m'[u].pt[j].g ==> Tree(m', m'[u].pt[j].ppn, h - 1, kernel)
      {
        EntryOfSet(m, t, i, e, u, j);
        var x := m'[u].pt[j];
        if u == t && j == i {
          if e.v {
            ChildlessBelow(m, m', e.ppn);
            TreeSame(m, m', e.ppn, h - 1, kernel);
          }
        } else if x.v && !x.g {
          assert x == Entry(m, u, j) == m[u].pt[j];
          RefSnoc(m, r, pre, u, j);
          TreeOfSet(m, roots, owner, kernel, t, n, i, e, r, pre + [j], x.ppn, h - 1);
        }
      }
    }
  }

  /** The spaces stay sound. */
  lemma SpacesOfSet(m: Mem, roots: set<nat>, owner: map<nat, Node>, kernel: set<nat>, t: nat, n: Node, i: nat, e: Pte)
    requires Editable(m, roots, owner, kernel, t, n, i, e)
    ensures Spaces(SetEntry(m, t, i, e), roots, NewOwner(m, owner, t, n, i, e), kernel)
  {
    var m' := SetEntry(m, t, i, e);
    OwnedOfSet(m, roots, owner, kernel, t, n, i, e);
    forall r | r in roots ensures Tree(m', r, LEVELS, kernel) {
      assert Ref(m, r, []) == Some(r);
      TreeOfSet(m, roots, owner, kernel, t, n, i, e, r, [], r, LEVELS);
    }
    hide Tree, Owned;
    forall k, j: nat | k in kernel && Entry(m', k, j).v && !Leaf(Entry(m', k, j)) ensures Entry(m', k, j).ppn in kernel {
      EntryOfSet(m, t, i, e, k, j);
    }
  }

  /** Addresses that do not go through the changed entry translate as before, in every space. */
  lemma {:induction false} TranslateOfSet(m: Mem, roots: set<nat>, owner: map<nat, Node>, kernel: set<nat>, t: nat, n: Node, i: nat, e: Pte,
                                          r: nat, pre: seq<nat>, u: nat, idx: seq<nat>)
    requires Spaces(m, roots, owner, kernel) && At(m, roots, owner, t, n, i)
    requires r in roots && Ref(m, r, pre) == Some(u) && |pre| + |idx| == LEVELS && Tree(m, u, |idx|, kernel)
    requires !(r == n.root && n.path + [i] <= pre + idx)
    ensures Translate(SetEntry(m, t, i, e), u, idx) == Translate(m, u, idx)
    decreases |idx|
  {
    if idx != [] {
      var m', x := SetEntry(m, t, i, e), Entry(m, u, idx[0]);
      EntryOfSet(m, t, i, e, u, idx[0]);
      assert owner[u] == Node(r, pre);
      assert pre + [idx[0]] <= pre + idx;
      if x.v && !Leaf(x) {
        assert x == m[u].pt[idx[0]];
        if x.g {
          KernelTranslate(m, m', x.ppn, idx[1..], kernel);
        } else {
          RefSnoc(m, r, pre, u, idx[0]);
          assert pre + [idx[0]] + idx[1..] == pre + idx;
          TranslateOfSet(m, roots, owner, kernel, t, n, i, e, r, pre + [idx[0]], x.ppn, idx[1..]);
        }
      }
    }
  }

  /** On the way to the changed table, entries are pointers and are not the changed one. */
  lemma StepDown(m: Mem, roots: set<nat>, owner: map<nat, Node>, t: nat, n: Node, i: nat, e: Pte, pre: seq<nat>, u: nat)
    requires At(m, roots, owner, t, n, i) && n.root in roots && Ref(m, n.root, pre) == Some(u) && pre < n.path && ClearPath(m, n)
    ensures Entry(m, u, n.path[|pre|]).v && !Entry(m, u, n.path[|pre|]).g && !Leaf(Entry(m, u, n.path[|pre|]))
    ensures Entry(SetEntry(m, t, i, e), u, n.path[|pre|]) == Entry(m, u, n.path[|pre|])
    ensures Ref(m, n.root, pre + [n.path[|pre|]]) == Some(Entry(m, u, n.path[|pre|]).ppn)
  {
    var j := n.path[|pre|];
    RefSnoc(m, n.root, pre, u, j);
    assert n.path == (pre + [j]) + n.path[|pre| + 1..];
    RefAppend(m, n.root, pre + [j], n.path[|pre| + 1..]);
    assert Ref(m, n.root, n.path) == Some(t);
    assert owner[u] == Node(n.root, pre);
    EntryOfSet(m, t, i, e, u, j);
  }

  /** No entry on the way to n is a leaf. */
  ghost predicate ClearPath(m: Mem, n: Node) {
    forall q, v :: Ref(m, n.root, q) == Some(v) && q <= n.path && q != n.path ==> !Leaf(Entry(m, v, n.path[|q|]))
  }

  /** One step along path, on the way to entry i of its last table. */
  lemma StepPath(path: seq<nat>, i: nat, pre: seq<nat>, idx: seq<nat>)
    requires pre <= path && pre != path && path + [i] <= pre + idx
    ensures |pre| < |path| && idx != [] && idx[0] == path[|pre|] && pre + [idx[0]] <= path && pre + [idx[0]] + idx[1..] == pre + idx
  {
    assert (path + [i])[|pre|] == path[|pre|] && (pre + idx)[|pre|] == idx[0];
  }

  /** Addresses that go through the changed entry are decided by it. */
  lemma {:induction false} TranslateThrough(m: Mem, roots: set<nat>, owner: map<nat, Node>, t: nat, n: Node, i: nat, e: Pte,
                                            pre: seq<nat>, u: nat, idx: seq<nat>)
    requires At(m, roots, owner, t, n, i) && n.root in roots && Ref(m, n.root, pre) == Some(u)
    requires pre <= n.path && n.path + [i] <= pre + idx && ClearPath(m, n)
    ensures Translate(SetEntry(m, t, i, e), u, idx) == Translate(SetEntry(m, t, i, e), t, (pre + idx)[|n.path|..])
    decreases |idx|
  {
    var m' := SetEntry(m, t, i, e);
    if pre == n.path {
      assert (pre + idx)[|n.path|..] == idx;
      SameNode(m, roots, owner, t, n, i, u);
    } else {
      hide Ref, Owned, SetEntry, Entry, Translate, At, ClearPath, Leaf;
      StepPath(n.path, i, pre, idx);
      StepDown(m, roots, owner, t, n, i, e, pre, u);
      TranslateDown(m', u, idx);
      TranslateThrough(m, roots, owner, t, n, i, e, pre + [idx[0]], Entry(m, u, idx[0]).ppn, idx[1..]);
    }
  }

  lemma TranslateDown(m: Mem, u: nat, idx: seq<nat>)
    requires idx != []
    ensures var e := Entry(m, u, idx[0]); e.v && !Leaf(e) ==> Translate(m, u, idx) == Translate(m, e.ppn, idx[1..])
  {
  }

  lemma SameNode(m: Mem, roots: set<nat>, owner: map<nat, Node>, t: nat, n: Node, i: nat, u: nat)
    requires At(m, roots, owner, t, n, i) && Ref(m, n.root, n.path) == Some(u)
    ensures u == t
  {
  }
}
