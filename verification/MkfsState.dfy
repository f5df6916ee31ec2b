/** The state tools/mkfs_ktfs.py works on between its steps: the bump allocator over the data area and the
    pointer lists collected while a file's data is written. */
module MkfsState {
  import opened Base
  import opened Format
  import opened KtfsTree
  import opened KtfsKernel
  import opened KtfsFiles
  import opened Layout
  import opened MkfsTree

  /** Blocks below next are marked used and no others; the superblock, the inode blocks and every block from
      next on are still zero. */
  ghost predicate Bump(g: Geo, im: seq<Block>, next: nat) {
    && GeoOk(g, im) && g.FirstData() <= next <= g.blockCount
    && (forall b: nat :: b < g.blockCount ==> (Used(g, im, b) <==> b < next))
    && forall b: nat :: b < g.blockCount && (b == 0 || g.FirstInode() <= b < g.FirstData() || next <= b) ==> im[b] == ZERO_BLOCK
  }

  lemma GrownTrans(g: Geo, a: seq<Block>, b: seq<Block>, c: seq<Block>, n: nat, m: nat)
    requires Grown(g, a, b, n) && Grown(g, b, c, m) && n <= m
    ensures Grown(g, a, c, n)
  {
  }

  /** Taking the next block. */
  lemma BumpMark(g: Geo, im: seq<Block>, next: nat)
    requires Bump(g, im, next) && next < g.blockCount
    ensures Bump(g, MarkStore(g, im, next), next + 1) && Grown(g, im, MarkStore(g, im, next), next + 1)
    ensures MarkStore(g, im, next)[next] == ZERO_BLOCK
  {
    hide Used, MarkStore;
    var im' := MarkStore(g, im, next);
    MarkBitmapOnly(g, im, next);
    forall b: nat | b < g.blockCount ensures Used(g, im', b) <==> b < next + 1 {
      UsedOfMark(g, im, next, b);
    }
  }

  /** Writing a block already taken. */
  lemma BumpWrite(g: Geo, im: seq<Block>, next: nat, b: nat, data: Block)
    requires Bump(g, im, next) && g.FirstData() <= b < next
    ensures Bump(g, im[b := data], next) && Grown(g, im, im[b := data], b)
  {
    hide Used;
    var im' := im[b := data];
    forall n: nat | n < g.blockCount ensures Used(g, im', n) == Used(g, im, n) {
      UsedSame(g, im, im', n);
    }
  }

  /** An index block holding these pointers and zeros behind them. */
  ghost predicate Packed(b: Block, ws: seq<u32>) {
    |ws| <= PTRS && forall j: nat :: j < PTRS ==> WordAt(b, j) == if j < |ws| then ws[j] else 0
  }

  // ---- the pointers collected after m data blocks ----

  function LeafCount(m: nat, j: nat, k: nat): nat {
    var first := NDIRECT + PTRS + j * DIND_SPAN + k * PTRS;
    if m <= first then 0 else Min(m - first, PTRS)
  }

  ghost predicate InnerLeaves(m: nat, base: nat, j: nat, k: nat, ps: seq<u32>) {
    && |ps| == LeafCount(m, j, k)
    && forall l: nat :: l < |ps| ==> ps[l] == base + NDIRECT + PTRS + j * DIND_SPAN + k * PTRS + l
  }

  ghost predicate DindCollected(m: nat, base: nat, j: nat, inner: map<nat, seq<u32>>) {
    && (forall k: nat :: k in inner <==> k < Inner(m, j))
    && forall k: nat :: k in inner ==> InnerLeaves(m, base, j, k, inner[k])
  }

  ghost predicate Collected(m: nat, base: nat, direct: seq<u32>, ind: seq<u32>, dind: seq<map<nat, seq<u32>>>) {
    && |direct| == NDIRECT && (forall k: nat :: k < NDIRECT ==> direct[k] == if k < m then base + k else 0)
    && |ind| == (if m <= NDIRECT then 0 else Min(m - NDIRECT, PTRS))
    && (forall k: nat :: k < |ind| ==> ind[k] == base + NDIRECT + k)
    && AllCollected(m, base, dind)
  }

  ghost predicate AllCollected(m: nat, base: nat, dind: seq<map<nat, seq<u32>>>) {
    |dind| == NDIND && forall j: nat :: j < NDIND ==> DindCollected(m, base, j, dind[j])
  }

  /** Where the pointer to logical block m is put, as in add_file. */
  lemma DindSplit(m: nat, outer: nat, k: nat, l: nat)
    requires NDIRECT + PTRS <= m < MAXBLOCKS
    requires outer == (m - NDIRECT - PTRS) / DIND_SPAN && k == (m - NDIRECT - PTRS) / PTRS % PTRS && l == (m - NDIRECT - PTRS) % PTRS
    ensures outer < NDIND && k < PTRS && l < PTRS
    ensures m == NDIRECT + PTRS + outer * DIND_SPAN + k * PTRS + l
  {
    var d := m - NDIRECT - PTRS;
    var q := d / PTRS;
    assert d == q * PTRS + l;
    assert q == q / PTRS * PTRS + k;
    assert d / DIND_SPAN == q / PTRS;
  }

  lemma InnerSteps(m: nat, j: nat, k: nat, l: nat)
    requires j < NDIND && k < PTRS && l < PTRS && m == NDIRECT + PTRS + j * DIND_SPAN + k * PTRS + l
    ensures Inner(m, j) == (if l == 0 then k else k + 1) && Inner(m + 1, j) == k + 1
    ensures forall i: nat :: i < NDIND && i != j ==> Inner(m + 1, i) == Inner(m, i)
    ensures LeafCount(m, j, k) == l && LeafCount(m + 1, j, k) == l + 1
    ensures forall i: nat, h: nat :: i < NDIND && h < PTRS && (i != j || h != k) ==> LeafCount(m + 1, i, h) == LeafCount(m, i, h)
  {
  }

  /** Python's setdefault(k, []).append(rel). */
  function Appended(inner: map<nat, seq<u32>>, k: nat, rel: u32): map<nat, seq<u32>> {
    inner[k := (if k in inner then inner[k] else []) + [rel]]
  }

  /** The pointer to logical block m goes to the end of its inner list. */
  lemma CollectDind(m: nat, base: nat, dind: seq<map<nat, seq<u32>>>, j: nat, k: nat, l: nat, rel: u32)
    requires j < NDIND && k < PTRS && l < PTRS && m == NDIRECT + PTRS + j * DIND_SPAN + k * PTRS + l
    requires AllCollected(m, base, dind) && rel == base + m
    ensures AllCollected(m + 1, base, dind[j := Appended(dind[j], k, rel)])
  {
    InnerSteps(m, j, k, l);
    FirstBeforeSecond(m);
    hide Inner, LeafCount, DindBlocks;
    assert k in dind[j] <==> l > 0;
    assert k in dind[j] ==> InnerLeaves(m, base, j, k, dind[j][k]);
  }

  lemma CollectSmall(m: nat, base: nat, dind: seq<map<nat, seq<u32>>>)
    requires m < NDIRECT + PTRS && AllCollected(m, base, dind)
    ensures AllCollected(m + 1, base, dind)
  {
    forall i: nat | i < NDIND ensures Inner(m + 1, i) == 0 && Inner(m, i) == 0 {
    }
  }
}
