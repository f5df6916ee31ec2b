/** Where tools/mkfs_ktfs.py puts the blocks of a file of n blocks: its data blocks in a row, then the indirect
    block, then each double-indirect block followed by its inner index blocks. */
module Layout {
  import opened Base
  import opened Format
  import opened KtfsTree

  const DIND_SPAN: nat := PTRS * PTRS

  /** Logical blocks behind double-indirect pointer j. */
  function DindBlocks(n: nat, j: nat): nat {
    var first := NDIRECT + PTRS + j * DIND_SPAN;
    if n <= first then 0 else Min(n - first, DIND_SPAN)
  }

  /** Inner index blocks behind double-indirect pointer j. */
  function Inner(n: nat, j: nat): nat {
    (DindBlocks(n, j) + PTRS - 1) / PTRS
  }

  /** Whether a file of n blocks has a pointer at p. */
  predicate Has(n: nat, p: Path) {
    match p
    case Direct(k) => k < NDIRECT && k < n
    case Ind => n > NDIRECT
    case IndLeaf(k) => k < PTRS && NDIRECT + k < n
    case Dind(j) => j < NDIND && DindBlocks(n, j) > 0
    case DindMid(j, k) => j < NDIND && k < Inner(n, j)
    case DindLeaf(j, k, l) => j < NDIND && k < PTRS && l < PTRS && NDIRECT + PTRS + j * DIND_SPAN + k * PTRS + l < n
  }

  /** The place of double-indirect block j. */
  function DindPos(n: nat, j: nat): nat {
    if j == 0 then n + 1 else n + 2 + Inner(n, 0)
  }

  /** The block p points to, counted from the first block of the file. */
  function Pos(n: nat, p: Path): nat {
    match p
    case Direct(k) => k
    case Ind => n
    case IndLeaf(k) => NDIRECT + k
    case Dind(j) => DindPos(n, j)
    case DindMid(j, k) => DindPos(n, j) + 1 + k
    case DindLeaf(j, k, l) => NDIRECT + PTRS + j * DIND_SPAN + k * PTRS + l
  }

  /** The blocks a file of n blocks takes, index blocks included. */
  function Need(n: nat): nat {
    n + (if n > NDIRECT then 1 else 0)
      + (if DindBlocks(n, 0) > 0 then 1 + Inner(n, 0) else 0)
      + (if DindBlocks(n, 1) > 0 then 1 + Inner(n, 1) else 0)
  }

  /** Which pointer leads to the r-th block of the file. */
  function PathAt(n: nat, r: nat): Path {
    if r < n then LeafPath(r)
    else if r == n then Ind
    else if r == n + 1 then Dind(0)
    else if r < n + 2 + Inner(n, 0) then DindMid(0, r - n - 2)
    else if r == n + 2 + Inner(n, 0) then Dind(1)
    else DindMid(1, r - n - 3 - Inner(n, 0))
  }

  lemma LeafPathOf(j: nat, k: nat, l: nat)
    requires j < NDIND && k < PTRS && l < PTRS
    ensures LeafPath(NDIRECT + PTRS + j * DIND_SPAN + k * PTRS + l) == DindLeaf(j, k, l)
  {
    var m := j * DIND_SPAN + k * PTRS + l;
    assert k * PTRS + l < DIND_SPAN;
    assert m / (PTRS * PTRS) == j && m % (PTRS * PTRS) == k * PTRS + l;
    assert m % PTRS == l;
  }

  /** No two pointers of a file lead to the same block, and all blocks lie inside the file's stretch. */
  lemma PathAtPos(n: nat, p: Path)
    requires Has(n, p)
    ensures PathAt(n, Pos(n, p)) == p && Pos(n, p) < Need(n)
  {
    match p {
      case DindLeaf(j, k, l) => LeafPathOf(j, k, l);
      case IndLeaf(k) =>
      case Direct(k) =>
      case Ind =>
      case Dind(j) => FirstBeforeSecond(n);
      case DindMid(j, k) => FirstBeforeSecond(n);
    }
  }

  /** The second double-indirect block exists only when the first is full. */
  lemma FirstBeforeSecond(n: nat)
    ensures DindBlocks(n, 1) > 0 ==> DindBlocks(n, 0) == DIND_SPAN && Inner(n, 0) == PTRS
    ensures Inner(n, 0) <= PTRS && Inner(n, 1) <= PTRS
    ensures forall j :: Inner(n, j) > 0 <==> DindBlocks(n, j) > 0
  {
  }

  /** Below the capacity, the pointers to data are exactly the logical blocks. */
  lemma LeafHas(n: nat, lb: nat)
    requires n <= MAXBLOCKS && lb < n
    ensures Has(n, LeafPath(lb)) && Pos(n, LeafPath(lb)) == lb
  {
    if lb >= NDIRECT + PTRS {
      LeafPathDecode(lb - NDIRECT - PTRS);
    }
  }
}
