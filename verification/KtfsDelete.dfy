/** Deleting a file (ktfs_delete of kernel/ktfs.c): which blocks come back, and that nobody else's do. */
module KtfsDelete {
  import opened Base
  import opened Format
  import opened BlockCache
  import opened KtfsTree
  import opened KtfsSteps
  import opened KtfsKernel
  import opened KtfsFiles
  import opened KtfsIo
  import opened KtfsDir
  import opened KtfsDirOps

  /** Only bitmap blocks differ. */
  ghost predicate BitmapOnly(g: Geo, st: seq<Block>, st': seq<Block>) {
    |st'| == |st| && forall b :: 0 <= b < |st| && !(1 <= b < g.FirstInode()) ==> st'[b] == st[b]
  }

  /** No bitmap block differs. */
  ghost predicate SameBitmap(g: Geo, st: seq<Block>, st': seq<Block>) {
    |st'| == |st| && forall b :: 0 <= b < |st| && 1 <= b < g.FirstInode() ==> st'[b] == st[b]
  }

  /** The pointers ktfs_delete frees: direct blocks, the indirect block, and the blocks it points to. */
  predicate Simple(p: Path) {
    p.Direct? || p.Ind? || p.IndLeaf?
  }

  /** Exactly the data blocks in freed have lost their bit. */
  ghost predicate BitsCleared(g: Geo, st: seq<Block>, st': seq<Block>, freed: set<nat>)
    requires GeoOk(g, st) && GeoOk(g, st')
  {
    forall n: nat :: n < g.blockCount ==> (Used(g, st', n) <==> Used(g, st, n) && !(n >= g.FirstData() && n - g.FirstData() in freed))
  }

  /** Midway through freeing inode t of an image: inos is the inode table without t's pointers, and freed are
      the blocks given back so far, all of them t's. */
  ghost predicate FreeState(g: Geo, a: Image, st: seq<Block>, owner: map<nat, Node>, freed: set<nat>, t: nat, exact: bool) {
    && GeoOk(g, a.st)
    && t < |a.inos| && a.inos[t] == ZERO_INODE && t != g.root
    && owner == a.owner - freed
    && TreeInv(g, st, a.inos, owner)
    && BitmapOnly(g, a.st, st)
    && (forall v :: v in freed ==> v in a.owner && a.owner[v].i == t && Simple(a.owner[v].p))
    && (exact ==> BitsCleared(g, a.st, st, freed))
  }

  lemma UsedOfClear(g: Geo, st: seq<Block>, n: nat, m: nat)
    requires GeoOk(g, st) && n < g.blockCount && m < g.blockCount
    ensures Used(g, ClearStore(g, st, n), m) <==> m != n && Used(g, st, m)
  {
    if n / BITS_PER_BLOCK == m / BITS_PER_BLOCK {
      BitOfSet(st[1 + n / BITS_PER_BLOCK], n % BITS_PER_BLOCK, m % BITS_PER_BLOCK);
    }
  }

  lemma ClearIsBitmapOnly(g: Geo, st: seq<Block>, n: nat)
    requires GeoOk(g, st) && n < g.blockCount
    ensures BitmapOnly(g, st, ClearStore(g, st, n))
  {
    assert n / BITS_PER_BLOCK < g.bitmapBlocks;
  }

  /** Giving up one of t's blocks, whether or not its bit could be cleared. */
  lemma FreeTree(g: Geo, a: Image, st: seq<Block>, owner: map<nat, Node>, freed: set<nat>, t: nat, exact: bool, v: nat, st': seq<Block>)
    requires FreeState(g, a, st, owner, freed, t, exact)
    requires v in a.owner && a.owner[v].i == t && g.FirstData() + v < g.blockCount
    requires st' == st || st' == ClearStore(g, st, g.FirstData() + v)
    ensures TreeInv(g, st', a.inos, owner - {v})
  {
    hide Used, ClearStore;
    assert v != 0;
    ClearIsBitmapOnly(g, st, g.FirstData() + v);
    FreeOwned(g, a, st, owner, t, v, st');
    hide Owned, Ptr;
    forall w | w in owner - {v} ensures g.FirstData() + w < g.blockCount && Used(g, st', g.FirstData() + w) {
      UsedOfClear(g, st, g.FirstData() + v, g.FirstData() + w);
    }
  }

  lemma FreeOwned(g: Geo, a: Image, st: seq<Block>, owner: map<nat, Node>, t: nat, v: nat, st': seq<Block>)
    requires Owned(g, st, a.inos, owner) && BitmapOnly(g, st, st') && t < |a.inos| && a.inos[t] == ZERO_INODE
    requires v in owner ==> owner[v].i == t
    ensures Owned(g, st', a.inos, owner - {v})
  {
    forall i: nat, p | i < |a.inos| && Ptr(g, st', a.inos[i], p).Some?
      ensures Ptr(g, st', a.inos[i], p).value in owner - {v} && (owner - {v})[Ptr(g, st', a.inos[i], p).value] == Node(i, p)
    {
      PtrFrame(g, st, st', a.inos, owner, i, p);
      assert i != t;
    }
  }

  lemma FreeStep(g: Geo, a: Image, st: seq<Block>, owner: map<nat, Node>, freed: set<nat>, t: nat, exact: bool, v: nat, st': seq<Block>)
    requires FreeState(g, a, st, owner, freed, t, exact)
    requires v in a.owner && a.owner[v].i == t && Simple(a.owner[v].p) && g.FirstData() + v < g.blockCount
    requires st' == ClearStore(g, st, g.FirstData() + v) || (st' == st && !exact)
    ensures FreeState(g, a, st', owner - {v}, freed + {v}, t, exact)
  {
    hide Used, Owned, OwnerUsed, ClearStore, BitsCleared;
    FreeTree(g, a, st, owner, freed, t, exact, v, st');
    ClearIsBitmapOnly(g, st, g.FirstData() + v);
    assert a.owner - (freed + {v}) == owner - {v};
    if exact {
      ClearedMore(g, a.st, st, freed, v);
    }
  }

  lemma ClearedMore(g: Geo, st0: seq<Block>, st: seq<Block>, freed: set<nat>, v: nat)
    requires GeoOk(g, st0) && GeoOk(g, st) && BitsCleared(g, st0, st, freed) && g.FirstData() + v < g.blockCount
    ensures BitsCleared(g, st0, ClearStore(g, st, g.FirstData() + v), freed + {v})
  {
    hide Used, ClearStore;
    forall n: nat | n < g.blockCount
      ensures Used(g, ClearStore(g, st, g.FirstData() + v), n) <==> Used(g, st0, n) && !(n >= g.FirstData() && n - g.FirstData() in freed + {v})
    {
      UsedOfClear(g, st, g.FirstData() + v, n);
      assert Used(g, st, n) <==> Used(g, st0, n) && !(n >= g.FirstData() && n - g.FirstData() in freed);
      var m := n - g.FirstData();
      assert m in freed + {v} <==> m in freed || m == v;
    }
  }

  /** The pointers of ino are all t's. */
  ghost predicate Mine(g: Geo, a: Image, ino: Inode, t: nat) {
    forall p :: Ptr(g, a.st, ino, p).Some? ==>
      var v := Ptr(g, a.st, ino, p).value; v in a.owner && a.owner[v] == Node(t, p) && g.FirstData() + v < g.blockCount
  }

  /** Every pointer of ino up to here has been freed. */
  ghost predicate DirectFreed(ino: Inode, n: nat, freed: set<nat>) {
    forall k :: 0 <= k < n && k < NDIRECT && ino.block[k] != 0 ==> ino.block[k] in freed
  }

  ghost predicate IndirectFreed(g: Geo, st: seq<Block>, ino: Inode, n: nat, freed: set<nat>) {
    forall k: nat :: k < n && Ptr(g, st, ino, IndLeaf(k)).Some? ==> Ptr(g, st, ino, IndLeaf(k)).value in freed
  }

  /** free_data_block on one of t's blocks; its result is ignored, as the C code does. */
  method FreeBlock(fs: Ktfs, v: nat, ghost a: Image, ghost freed: set<nat>, ghost t: nat, ghost exact: bool)
    requires fs.Ready() && FreeState(fs.geo, a, fs.cache.store, fs.owner, freed, t, exact)
    requires exact ==> fs.cache.Quiet(1)
    requires v in a.owner && a.owner[v].i == t && Simple(a.owner[v].p) && fs.geo.FirstData() + v < fs.geo.blockCount
    modifies fs.cache, fs.cache.dev, fs`owner
    ensures fs.Ready() && fs.cache.held == old(fs.cache.held)
    ensures FreeState(fs.geo, a, fs.cache.store, fs.owner, freed + {v}, t, exact)
  {
    hide Inv, Used, TreeInv, ClearStore;
    ghost var st := fs.cache.store;
    var rc := fs.FreeDataBlock(v);
    FreeStep(fs.geo, a, st, fs.owner, freed, t, exact, v, fs.cache.store);
    fs.owner := fs.owner - {v};
  }

  method FreeDirect(fs: Ktfs, ino: Inode, ghost a: Image, ghost t: nat, ghost exact: bool) returns (ghost freed: set<nat>)
    requires fs.Ready() && FreeState(fs.geo, a, fs.cache.store, fs.owner, {}, t, exact)
    requires exact ==> fs.cache.Quiet(1)
    requires Mine(fs.geo, a, ino, t) && Tidy(ino)
    modifies fs.cache, fs.cache.dev, fs`owner
    ensures fs.Ready() && fs.cache.held == old(fs.cache.held)
    ensures FreeState(fs.geo, a, fs.cache.store, fs.owner, freed, t, exact) && DirectFreed(ino, NDIRECT, freed)
  {
    freed := {};
    hide Inv, FreeState;
    for k := 0 to NDIRECT
      invariant fs.Ready() && fs.cache.held == old(fs.cache.held)
      invariant FreeState(fs.geo, a, fs.cache.store, fs.owner, freed, t, exact) && DirectFreed(ino, k, freed)
    {
      var v := ino.block[k];
      if v != 0 {
        assert Ptr(fs.geo, a.st, ino, Direct(k)) == Some(v);
        FreeBlock(fs, v, a, freed, t, exact);
        freed := freed + {v};
      }
    }
  }

  lemma IndLeafWords(g: Geo, st: seq<Block>, ino: Inode, arr: Block)
    requires ino.indirect != 0 && g.FirstData() + ino.indirect < |st| && st[g.FirstData() + ino.indirect] == arr
    ensures forall k: nat :: k < PTRS ==> Ptr(g, st, ino, IndLeaf(k)) == NonZero(WordAt(arr, k))
  {
  }

  /** The blocks the pinned indirect block points to. */
  method FreeIndirect(fs: Ktfs, ino: Inode, ghost a: Image, ghost t: nat, ghost exact: bool, ghost freed0: set<nat>) returns (ghost freed: set<nat>)
    requires fs.Ready() && FreeState(fs.geo, a, fs.cache.store, fs.owner, freed0, t, exact)
    requires exact ==> fs.cache.Quiet(1)
    requires Mine(fs.geo, a, ino, t) && ino.indirect != 0 && fs.geo.FirstData() + ino.indirect in fs.cache.held
    modifies fs.cache, fs.cache.dev, fs`owner
    ensures fs.Ready() && fs.cache.held == old(fs.cache.held)
    ensures FreeState(fs.geo, a, fs.cache.store, fs.owner, freed, t, exact)
    ensures freed0 <= freed && IndirectFreed(fs.geo, a.st, ino, PTRS, freed)
  {
    freed := freed0;
    var b := fs.geo.FirstData() + ino.indirect;
    assert BitmapOnly(fs.geo, a.st, fs.cache.store);
    hide Inv, FreeState, Ptr, WordAt, Mine, BitmapOnly, IndirectFreed;
    var arr := fs.cache.Peek(b);
    BitmapOnlyAt(fs.geo, a.st, fs.cache.store, b);
    IndLeafWords(fs.geo, a.st, ino, arr);
    NoneFreedYet(fs.geo, a.st, ino, freed);
    for k := 0 to PTRS
      invariant fs.Ready() && fs.cache.held == old(fs.cache.held)
      invariant FreeState(fs.geo, a, fs.cache.store, fs.owner, freed, t, exact)
      invariant freed0 <= freed && IndirectFreed(fs.geo, a.st, ino, k, freed)
    {
      var v := WordAt(arr, k);
      ghost var before := freed;
      if v != 0 {
        MineAt(fs.geo, a, ino, t, IndLeaf(k));
        FreeBlock(fs, v, a, freed, t, exact);
        freed := freed + {v};
      }
      FreedOneMore(fs.geo, a.st, ino, k, before, freed);
    }
  }

  lemma BitmapOnlyAt(g: Geo, st: seq<Block>, st': seq<Block>, b: nat)
    requires BitmapOnly(g, st, st') && g.FirstInode() <= b < |st|
    ensures st'[b] == st[b]
  {
  }

  lemma MineAt(g: Geo, a: Image, ino: Inode, t: nat, p: Path)
    requires Mine(g, a, ino, t) && Ptr(g, a.st, ino, p).Some?
    ensures var v := Ptr(g, a.st, ino, p).value; v in a.owner && a.owner[v] == Node(t, p) && g.FirstData() + v < g.blockCount
  {
  }

  lemma NoneFreedYet(g: Geo, st: seq<Block>, ino: Inode, freed: set<nat>)
    ensures IndirectFreed(g, st, ino, 0, freed)
  {
  }

  lemma FreedOneMore(g: Geo, st: seq<Block>, ino: Inode, k: nat, freed: set<nat>, freed': set<nat>)
    requires IndirectFreed(g, st, ino, k, freed) && freed <= freed'
    requires Ptr(g, st, ino, IndLeaf(k)).Some? ==> Ptr(g, st, ino, IndLeaf(k)).value in freed'
    ensures IndirectFreed(g, st, ino, k + 1, freed')
  {
    hide Ptr;
  }

  /** The first half of ktfs_delete: give the blocks of the file back. Blocks behind a double-indirect pointer
      are not among them. */
  method FreeFile(fs: Ktfs, ino: Inode, ghost a: Image, ghost t: nat, ghost exact: bool) returns (ghost freed: set<nat>)
    requires fs.Ready() && FreeState(fs.geo, a, fs.cache.store, fs.owner, {}, t, exact)
    requires exact ==> fs.cache.Quiet(2)
    requires Mine(fs.geo, a, ino, t) && Tidy(ino)
    modifies fs.cache, fs.cache.dev, fs`owner
    ensures fs.Ready() && fs.cache.held == old(fs.cache.held)
    ensures FreeState(fs.geo, a, fs.cache.store, fs.owner, freed, t, exact)
    ensures exact ==> forall p :: Simple(p) && Ptr(fs.geo, a.st, ino, p).Some? && Ptr(fs.geo, a.st, ino, p).value != 0 ==>
      Ptr(fs.geo, a.st, ino, p).value in freed
  {
    IndPtr(fs.geo, a.st, ino);
    RoomyLess(fs.cache.dev.healthy, fs.cache.held);
    hide Inv, FreeState, Ptr, Tidy, DirectFreed, IndirectFreed, Roomy, Simple, GeoOk, Mine;
    freed := FreeDirect(fs, ino, a, t, exact);
    if ino.indirect != 0 {
      freed := FreeLeaves(fs, ino, a, t, exact, freed);
      FreeBlock(fs, ino.indirect, a, freed, t, exact);
      FreedMore(fs.geo, a.st, ino, freed, freed + {ino.indirect});
      freed := freed + {ino.indirect};
    }
    if exact {
      AllFreed(fs.geo, a.st, ino, freed);
    }
  }

  /** The data blocks below the indirect block; it is pinned meanwhile. */
  method FreeLeaves(fs: Ktfs, ino: Inode, ghost a: Image, ghost t: nat, ghost exact: bool, ghost freed0: set<nat>) returns (ghost freed: set<nat>)
    requires fs.Ready() && FreeState(fs.geo, a, fs.cache.store, fs.owner, freed0, t, exact)
    requires (exact ==> fs.cache.Quiet(2)) && Mine(fs.geo, a, ino, t) && ino.indirect != 0
    modifies fs.cache, fs.cache.dev, fs`owner
    ensures fs.Ready() && fs.cache.held == old(fs.cache.held)
    ensures FreeState(fs.geo, a, fs.cache.store, fs.owner, freed, t, exact) && freed0 <= freed
    ensures exact ==> IndirectFreed(fs.geo, a.st, ino, PTRS, freed)
  {
    IndInRange(fs.geo, a, fs.cache.store, fs.owner, freed0, ino, t, exact);
    hide Inv, FreeState, Ptr, IndirectFreed, Roomy, Mine, GeoOk;
    freed := freed0;
    var b := fs.geo.FirstData() + ino.indirect;
    OneMore(fs.cache.dev.healthy, fs.cache.held, b, 1);
    RoomyLess(fs.cache.dev.healthy, fs.cache.held);
    var got := fs.cache.Pin(b);
    if got {
      freed := FreeIndirect(fs, ino, a, t, exact, freed);
      fs.cache.ReleaseBlock(b, false);
    }
  }

  lemma IndInRange(g: Geo, a: Image, st: seq<Block>, owner: map<nat, Node>, freed: set<nat>, ino: Inode, t: nat, exact: bool)
    requires GeoOk(g, st) && FreeState(g, a, st, owner, freed, t, exact) && Mine(g, a, ino, t) && ino.indirect != 0
    ensures g.FirstData() + ino.indirect < |st|
  {
    hide FreeState;
    assert Ptr(g, a.st, ino, Ind) == Some(ino.indirect);
  }

  lemma RoomyLess(healthy: bool, held: multiset<nat>)
    ensures Roomy(healthy, held, 2) ==> Roomy(healthy, held, 1)
  {
  }

  lemma IndPtr(g: Geo, st: seq<Block>, ino: Inode)
    ensures ino.indirect != 0 ==> Ptr(g, st, ino, Ind) == Some(ino.indirect)
  {
  }

  lemma FreedMore(g: Geo, st: seq<Block>, ino: Inode, freed: set<nat>, freed': set<nat>)
    requires freed <= freed'
    ensures DirectFreed(ino, NDIRECT, freed) ==> DirectFreed(ino, NDIRECT, freed')
    ensures IndirectFreed(g, st, ino, PTRS, freed) ==> IndirectFreed(g, st, ino, PTRS, freed')
  {
    hide Ptr;
  }

  /** Every direct and indirect block has been freed. */
  lemma AllFreed(g: Geo, st: seq<Block>, ino: Inode, freed: set<nat>)
    requires DirectFreed(ino, NDIRECT, freed)
    requires ino.indirect != 0 ==> ino.indirect in freed && IndirectFreed(g, st, ino, PTRS, freed)
    ensures forall p :: Simple(p) && Ptr(g, st, ino, p).Some? && Ptr(g, st, ino, p).value != 0 ==> Ptr(g, st, ino, p).value in freed
  {
  }

  // ---- the directory entry ----

  /** Overwriting bytes inside a file. */
  lemma OverlayContents(g: Geo, a: Image, b: Image, i: nat, pos: nat, data: seq<u8>)
    requires WriteSafe(g, a, b, i, pos, data) && b.inos[i] == a.inos[i] && Full(g, a.st, a.inos[i])
    ensures Contents(g, b.st, a.inos[i]) == NewContents(Contents(g, a.st, a.inos[i]), pos, data)
  {
    hide TreeInv, BlockOf, Ptr, InoLeq, Tidy, SameMeta;
    forall o | 0 <= o < a.inos[i].size
      ensures Contents(g, b.st, a.inos[i])[o] == NewContents(Contents(g, a.st, a.inos[i]), pos, data)[o]
    {
      assert HasBlock(g, a.st, a.inos[i], o / BLKSZ);
      assert KeptBlock(g, a, b, i, o / BLKSZ, pos, data);
    }
  }

  /** Overwriting entry k of the root directory. */
  lemma DentMoved(g: Geo, st: seq<Block>, owner: map<nat, Node>, r: Inode, k: nat, lb: nat, off: nat, v: nat, raw: seq<u8>, st1: seq<Block>)
    requires FsInv(g, st, owner) && |raw| == DENSZ && r == InodeAt(g, st, g.root) && (k + 1) * DENSZ <= r.size
    requires lb == k * DENSZ / BLKSZ && off == k * DENSZ % BLKSZ && off + DENSZ <= BLKSZ
    requires Ptr(g, st, r, LeafPath(lb)) == Some(v) && g.FirstData() + v < |st|
    requires st1 == st[g.FirstData() + v := Patch(st[g.FirstData() + v], off, raw)]
    ensures FsInv(g, st1, owner) && OthersSame(g, st, st1, g.root) && InodeAt(g, st1, g.root) == r
    ensures Dents(Contents(g, st1, r)) == Dents(Contents(g, st, r))[k := ParseDent(raw)]
  {
    hide Used, TreeInv, Ptr, LeafPath, BlockOf, Patch, InodeAt, WriteSafe, KeptBlock, Full, Tidy, InoLeq, HasBlock, ParseDent, Dents, Pasted, Wrote;
    var a := Image(st, Table(g, st), owner);
    assert r == a.inos[g.root];
    StartWrite(g, a, g.root, k * DENSZ);
    WroteSafe(g, a, a, r, g.root, k * DENSZ, []);
    assert [] + raw == raw;
    TableTree(g, st, owner);
    PokeLays(g, a, g.root, lb, v, off, raw);
    var b := Poked(g, a, v, off, raw);
    PokeKeepsSafe(g, a, a, b, g.root, k * DENSZ, [], lb, raw);
    AbortedWrite(g, a, b, g.root, k * DENSZ, raw, DENSZ);
    OverlayContents(g, a, b, g.root, k * DENSZ, raw);
    DentsReplace(Contents(g, st, r), Contents(g, st1, r), k, raw);
  }

  /** Cutting a file short keeps the image sound and leaves the front of the file. */
  lemma ShrunkFile(g: Geo, st: seq<Block>, owner: map<nat, Node>, size: u32, st': seq<Block>)
    requires FsInv(g, st, owner) && size <= InodeAt(g, st, g.root).size
    requires st' == InodeStore(g, st, g.root, WithSize(InodeAt(g, st, g.root), size))
    ensures FsInv(g, st', owner) && OthersSame(g, st, st', g.root) && InodeAt(g, st', g.root).size == size
    ensures Contents(g, st', InodeAt(g, st', g.root)) == Contents(g, st, InodeAt(g, st, g.root))[..size]
  {
    hide Used, TreeInv, Ptr, BlockOf, InodeAt, Tidy, InodeStore, HasBlock, InoLeq;
    var r := InodeAt(g, st, g.root);
    var r', t := WithSize(r, size), Table(g, st);
    ShrinkLeq(r, size);
    TreeShrink(g, st, t, owner, g.root, r');
    forall lb: nat | lb < NBlocks(size)
      ensures HasBlock(g, st, r', lb) && BlockOf(g, st, r', lb) == BlockOf(g, st, r, lb)
    {
      ShrunkBlock(g, st, r, size, lb);
      assert HasBlock(g, st, r, lb);
    }
    assert Contents(g, st, r') == Contents(g, st, r)[..size];
    InodeWritten(g, st, t[g.root := r'], owner, g.root, r');
  }

  lemma ShrinkLeq(ino: Inode, size: u32)
    requires size <= ino.size
    ensures InoLeq(WithSize(ino, size), ino)
  {
    assert NBlocks(size) <= NBlocks(ino.size);
  }

  lemma ShrunkBlock(g: Geo, st: seq<Block>, ino: Inode, size: u32, lb: nat)
    requires size <= ino.size && lb < NBlocks(size)
    ensures HasBlock(g, st, WithSize(ino, size), lb) == HasBlock(g, st, ino, lb)
    ensures BlockOf(g, st, WithSize(ino, size), lb) == BlockOf(g, st, ino, lb)
  {
    assert NBlocks(size) <= NBlocks(ino.size);
  }

  method EntryHasInode(fs: Ktfs, root: Inode, k: nat, target: nat) returns (hit: bool)
    requires AtRest(fs) && root == InodeAt(fs.geo, fs.cache.store, fs.geo.root) && (k + 1) * DENSZ <= root.size
    modifies fs.cache, fs.cache.dev
    ensures AtRest(fs) && fs.cache.store == old(fs.cache.store) && k < |RootDents(fs.geo, fs.cache.store)|
    ensures hit ==> RootDents(fs.geo, fs.cache.store)[k].inode == target
    ensures fs.cache.dev.healthy && !hit ==> RootDents(fs.geo, fs.cache.store)[k].inode != target
  {
    hide Inv, FsInv, InodeAt, CStr, Contents;
    var rc, raw := ReadDent(fs, root, k);
    hit := rc == 0 && raw[0] as nat + 0x100 * raw[1] as nat == target;
  }

  /** The scan of ktfs_delete for the entry with this inode number; entries that cannot be read are passed over. */
  method FindByInode(fs: Ktfs, root: Inode, target: nat) returns (k: nat)
    requires AtRest(fs) && root == InodeAt(fs.geo, fs.cache.store, fs.geo.root)
    modifies fs.cache, fs.cache.dev
    ensures AtRest(fs) && fs.cache.store == old(fs.cache.store)
    ensures k <= root.size / DENSZ == |RootDents(fs.geo, fs.cache.store)|
    ensures k < root.size / DENSZ ==> RootDents(fs.geo, fs.cache.store)[k].inode == target
    ensures fs.cache.dev.healthy ==> forall j :: 0 <= j < k ==> RootDents(fs.geo, fs.cache.store)[j].inode != target
  {
    hide Inv, FsInv, InodeAt, CStr, Contents;
    ghost var ds := RootDents(fs.geo, fs.cache.store);
    k := 0;
    while k < root.size / DENSZ
      invariant k <= root.size / DENSZ && AtRest(fs) && fs.cache.store == old(fs.cache.store)
      invariant fs.cache.dev.healthy ==> forall j :: 0 <= j < k ==> ds[j].inode != target
    {
      var hit := EntryHasInode(fs, root, k, target);
      if hit {
        return;
      }
      k := k + 1;
    }
  }

  /** Moves the last entry into slot k, as the C code does when k is not the last. */
  method MoveLast(fs: Ktfs, root: Inode, k: nat) returns (rc: int)
    requires AtRest(fs) && root == InodeAt(fs.geo, fs.cache.store, fs.geo.root) && k + 1 < root.size / DENSZ
    modifies fs.cache, fs.cache.dev, fs`owner
    ensures AtRest(fs) && (rc == 0 || rc == -EIO)
    ensures OthersSame(fs.geo, old(fs.cache.store), fs.cache.store, fs.geo.root)
    ensures InodeAt(fs.geo, fs.cache.store, fs.geo.root) == root
    ensures SameBitmap(fs.geo, old(fs.cache.store), fs.cache.store)
    ensures rc == 0 ==> var ds := RootDents(fs.geo, old(fs.cache.store));
      RootDents(fs.geo, fs.cache.store) == ds[k := ds[|ds| - 1]]
    ensures rc != 0 ==> RootDents(fs.geo, fs.cache.store) == RootDents(fs.geo, old(fs.cache.store))
    ensures fs.cache.dev.healthy ==> rc == 0
  {
    hide Inv, FsInv, TreeInv, Ptr, LeafPath, InodeAt, Used, BlockOf, Patch, Extends, OthersSame, ParseDent, Dents, Contents;
    ghost var g, st := fs.geo, fs.cache.store;
    OthersSameRefl(g, st, g.root);
    var total := root.size / DENSZ;
    var raw;
    rc, raw := ReadDent(fs, root, total - 1);
    if rc != 0 {
      return;
    }
    var logical, off := k * DENSZ / BLKSZ, k * DENSZ % BLKSZ;
    DentInBlock(k);
    TableTree(g, st, fs.owner);
    EntryHasBlock(g, st, fs.owner, k, logical);
    var blk, root';
    ghost var sh;
    assert Table(g, st)[g.root] == Over(root, root);
    rc, blk, root', sh := fs.ResolveOrAlloc(root, fs.geo.root, logical, false, Table(g, st));
    if rc != 0 {
      return -EIO;
    }
    PtrInRange(g, st, Table(g, st), fs.owner, g.root, LeafPath(logical));
    DentMoved(g, st, fs.owner, root, k, logical, off, blk, raw, st[g.FirstData() + blk := Patch(st[g.FirstData() + blk], off, raw)]);
    var ok := CopyToBlock(fs, blk, off, raw);
    rc := if ok then 0 else -EIO;
  }

  lemma EntryHasBlock(g: Geo, st: seq<Block>, owner: map<nat, Node>, k: nat, lb: nat)
    requires FsInv(g, st, owner) && (k + 1) * DENSZ <= InodeAt(g, st, g.root).size && lb == k * DENSZ / BLKSZ
    ensures Ptr(g, st, InodeAt(g, st, g.root), LeafPath(lb)).Some? && lb < MAXBLOCKS
  {
    hide TreeInv, InodeAt, Ptr, LeafPath;
    assert HasBlock(g, st, InodeAt(g, st, g.root), lb);
    ResolveIsPtr(g, st, InodeAt(g, st, g.root), lb);
  }

  lemma OthersSameRefl(g: Geo, st: seq<Block>, i: nat)
    requires GeoOk(g, st)
    ensures OthersSame(g, st, st, i)
  {
  }

  lemma InodeStoreBitmap(g: Geo, st: seq<Block>, i: nat, ino: Inode)
    requires GeoOk(g, st) && i < g.Inodes()
    ensures SameBitmap(g, st, InodeStore(g, st, i, ino))
  {
    hide PutInode;
  }

  /** Cuts the last entry off the directory and flushes. */
  method DropLast(fs: Ktfs, root: Inode) returns (rc: int)
    requires AtRest(fs) && root == InodeAt(fs.geo, fs.cache.store, fs.geo.root) && root.size % DENSZ == 0 && root.size > 0
    modifies fs.cache, fs.cache.dev
    ensures AtRest(fs) && (rc == 0 || rc == -EIO)
    ensures OthersSame(fs.geo, old(fs.cache.store), fs.cache.store, fs.geo.root)
    ensures SameBitmap(fs.geo, old(fs.cache.store), fs.cache.store)
    ensures rc == 0 ==> var ds := RootDents(fs.geo, old(fs.cache.store)); |ds| > 0 && RootDents(fs.geo, fs.cache.store) == ds[..|ds| - 1]
    ensures rc == 0 ==> InodeAt(fs.geo, fs.cache.store, fs.geo.root).size == root.size - DENSZ
    ensures fs.cache.dev.healthy ==> rc == 0 && fs.cache.dev.blocks == fs.cache.store
  {
    hide Inv, FsInv, InodeAt, OthersSame, Dents, Contents, InodeStore;
    ghost var g, st := fs.geo, fs.cache.store;
    OthersSameRefl(g, st, g.root);
    InodeStoreBitmap(g, st, g.root, WithSize(root, root.size - DENSZ));
    ShrunkFile(g, st, fs.owner, root.size - DENSZ, InodeStore(g, st, g.root, WithSize(root, root.size - DENSZ)));
    DentsPrefix(Contents(g, st, root), root.size / DENSZ - 1);
    var ok := fs.WriteInode(fs.geo.root, WithSize(root, root.size - DENSZ));
    if !ok {
      return -EIO;
    }
    var flushed := fs.cache.Flush();
    return 0;
  }

  /** The second half of ktfs_delete: swap the entry with the last one and cut the directory short. */
  method RemoveDent(fs: Ktfs, target: nat) returns (rc: int, ghost k: nat)
    requires AtRest(fs) && InodeAt(fs.geo, fs.cache.store, fs.geo.root).size % DENSZ == 0
    modifies fs.cache, fs.cache.dev, fs`owner
    ensures AtRest(fs) && (rc == 0 || rc == -EIO || rc == -ENOENT)
    ensures OthersSame(fs.geo, old(fs.cache.store), fs.cache.store, fs.geo.root)
    ensures SameBitmap(fs.geo, old(fs.cache.store), fs.cache.store)
    ensures rc == 0 ==> var ds := RootDents(fs.geo, old(fs.cache.store));
      k < |ds| && ds[k].inode == target && RootDents(fs.geo, fs.cache.store) == SwapRemove(ds, k)
    ensures rc == 0 ==> InodeAt(fs.geo, fs.cache.store, fs.geo.root).size % DENSZ == 0
    ensures fs.cache.dev.healthy ==> rc != -EIO && (rc == 0 ==> fs.cache.dev.blocks == fs.cache.store)
    ensures fs.cache.dev.healthy && rc == -ENOENT ==> forall j :: 0 <= j < |RootDents(fs.geo, old(fs.cache.store))| ==>
      RootDents(fs.geo, old(fs.cache.store))[j].inode != target
  {
    hide Inv, FsInv, InodeAt, OthersSame, Dents, Contents, InodeStore;
    ghost var g, st := fs.geo, fs.cache.store;
    ghost var ds := RootDents(g, st);
    k := 0;
    OthersSameRefl(g, st, g.root);
    var ok, root := fs.ReadInode(fs.geo.root);
    if !ok {
      rc := -EIO;
      return;
    }
    var total := root.size / DENSZ;
    var found := FindByInode(fs, root, target);
    k := found;
    if found == total {
      rc := -ENOENT;
      return;
    }
    if found != total - 1 {
      rc := MoveLast(fs, root, found);
      if rc != 0 {
        return;
      }
    }
    ghost var st1 := fs.cache.store;
    rc := DropLast(fs, root);
    OthersSameTrans(g, st, st1, fs.cache.store, g.root);
  }

  lemma OthersSameTrans(g: Geo, st: seq<Block>, st1: seq<Block>, st2: seq<Block>, i: nat)
    requires GeoOk(g, st) && GeoOk(g, st1) && GeoOk(g, st2) && OthersSame(g, st, st1, i)
    requires OthersSame(g, st1, st2, i) || st2 == st1
    ensures OthersSame(g, st, st2, i)
  {
    hide InodeAt, Contents;
  }

  // ---- the whole deletion ----

  /** Files live in the data area: bitmap changes do not reach them. */
  lemma BitmapFiles(g: Geo, st: seq<Block>, st': seq<Block>, ino: Inode)
    requires BitmapOnly(g, st, st')
    ensures FileSame(g, st, ino, st', ino)
  {
    forall v: nat, k: nat ensures Word(g, st', v, k) == Word(g, st, v, k) {
    }
    hide LeafPath, Word;
    forall lb: nat ensures Ptr(g, st', ino, LeafPath(lb)) == Ptr(g, st, ino, LeafPath(lb)) {
    }
    hide Ptr;
  }

  lemma FreeStart(g: Geo, st: seq<Block>, owner: map<nat, Node>, t: nat, exact: bool)
    requires FsInv(g, st, owner) && t < g.Inodes() && t != g.root
    ensures FreeState(g, Image(st, Table(g, st)[t := ZERO_INODE], owner), st, owner, {}, t, exact)
    ensures Mine(g, Image(st, Table(g, st)[t := ZERO_INODE], owner), InodeAt(g, st, t), t) && Tidy(InodeAt(g, st, t))
  {
    hide Used, InodeAt, BlockOf;
    var inos := Table(g, st);
    assert InoLeq(ZERO_INODE, inos[t]);
    TreeShrink(g, st, inos, owner, t, ZERO_INODE);
    forall p | Ptr(g, st, inos[t], p).Some? ensures
      var v := Ptr(g, st, inos[t], p).value; v in owner && owner[v] == Node(t, p) && g.FirstData() + v < g.blockCount
    {
      PtrInRange(g, st, inos, owner, t, p);
    }
    assert owner - {} == owner;
  }

  /** With its blocks given back and its inode zeroed, the file is gone and the image is at rest again. */
  lemma FileGone(g: Geo, st: seq<Block>, owner: map<nat, Node>, t: nat, st1: seq<Block>, owner1: map<nat, Node>, freed: set<nat>, exact: bool)
    requires FsInv(g, st, owner) && t < g.Inodes()
    requires FreeState(g, Image(st, Table(g, st)[t := ZERO_INODE], owner), st1, owner1, freed, t, exact)
    ensures FsInv(g, InodeStore(g, st1, t, ZERO_INODE), owner1)
    ensures OthersSame(g, st, InodeStore(g, st1, t, ZERO_INODE), t)
    ensures InodeAt(g, InodeStore(g, st1, t, ZERO_INODE), t) == ZERO_INODE
  {
    hide Used, Owned, OwnerUsed, Ptr, BlockOf, InodeAt, Tidy, Full, HasBlock, InodeStore;
    var inos := Table(g, st)[t := ZERO_INODE];
    assert SameMeta(g, st, st1);
    TableFrame(g, st, st1);
    ZeroFile(g, st1);
    forall j: nat | j < g.Inodes()
      ensures Full(g, st1, inos[j]) && (j != g.root ==> Tidy(inos[j]))
      ensures Contents(g, st1, inos[j]) == Contents(g, st, inos[j])
    {
      BitmapFiles(g, st, st1, inos[j]);
      FileSameContents(g, st, st1, inos[j]);
    }
    InodeWritten(g, st1, inos, owner1, t, ZERO_INODE);
    TableEntries(g, st);
    TableEntries(g, st1);
  }

  lemma TableEntries(g: Geo, st: seq<Block>)
    requires GeoOk(g, st)
    ensures forall j: nat :: j < g.Inodes() ==> Table(g, st)[j] == InodeAt(g, st, j)
  {
  }

  /** File t, named name by entry k, is gone from the image, and every other file is as it was. */
  ghost predicate Deleted(g: Geo, st: seq<Block>, st': seq<Block>, k: nat, name: seq<u8>)
    requires GeoOk(g, st) && GeoOk(g, st')
  {
    var ds := RootDents(g, st);
    && k < |ds| && ds[k].name == name && ds[k].inode < g.Inodes()
    && RootDents(g, st') == SwapRemove(ds, k)
    && InodeAt(g, st', ds[k].inode) == ZERO_INODE
    && st'[0] == st[0]
    && forall j: nat :: j < g.Inodes() && j != g.root && j != ds[k].inode ==>
         InodeAt(g, st', j) == InodeAt(g, st, j) && Contents(g, st', InodeAt(g, st', j)) == Contents(g, st, InodeAt(g, st, j))
  }

  /** Of the blocks the file had, exactly those outside its double-indirect trees are free afterwards. */
  ghost predicate FreedExactly(g: Geo, st: seq<Block>, st': seq<Block>, t: nat)
    requires GeoOk(g, st) && GeoOk(g, st') && t < g.Inodes()
  {
    forall p :: Ptr(g, st, InodeAt(g, st, t), p).Some? ==>
      var v := Ptr(g, st, InodeAt(g, st, t), p).value;
      g.FirstData() + v < g.blockCount && (Used(g, st', g.FirstData() + v) <==> !Simple(p))
  }

  lemma FreedIsExact(g: Geo, st: seq<Block>, owner: map<nat, Node>, t: nat, st1: seq<Block>, owner1: map<nat, Node>, freed: set<nat>, st2: seq<Block>)
    requires FsInv(g, st, owner) && t < g.Inodes()
    requires FreeState(g, Image(st, Table(g, st)[t := ZERO_INODE], owner), st1, owner1, freed, t, true)
    requires forall p :: Simple(p) && Ptr(g, st, InodeAt(g, st, t), p).Some? && Ptr(g, st, InodeAt(g, st, t), p).value != 0 ==>
      Ptr(g, st, InodeAt(g, st, t), p).value in freed
    requires GeoOk(g, st2) && SameBitmap(g, st1, st2)
    ensures FreedExactly(g, st, st2, t)
  {
    hide Used, InodeAt, ClearStore, Ptr, BitmapOnly;
    var ino := InodeAt(g, st, t);
    forall p | Ptr(g, st, ino, p).Some?
      ensures var v := Ptr(g, st, ino, p).value;
        g.FirstData() + v < g.blockCount && (Used(g, st2, g.FirstData() + v) <==> !Simple(p))
    {
      var v := Ptr(g, st, ino, p).value;
      PtrInRange(g, st, Table(g, st), owner, t, p);
      UsedSame(g, st1, st2, g.FirstData() + v);
      assert v in owner && owner[v] == Node(t, p) && Used(g, st, g.FirstData() + v);
    }
  }

  /** ktfs_delete. On success the name is gone, the last entry has taken its place, the inode is zero, and every
      other file is as it was; of the file's blocks exactly those outside its double-indirect trees are free
      again. A device error can leave the deletion half done. */
  method Delete(fs: Ktfs, name: seq<u8>) returns (rc: int)
    requires Mounted(fs) && NoNul(name)
    modifies fs.cache, fs.cache.dev, fs`owner
    ensures fs.Ready() && (rc == 0 || rc == -ENOENT || rc == -EIO)
    ensures rc == 0 ==> Mounted(fs) && exists k :: Deleted(fs.geo, old(fs.cache.store), fs.cache.store, k, name)
    ensures fs.cache.dev.healthy ==> rc != -EIO && Mounted(fs)
    ensures fs.cache.dev.healthy ==> (rc == -ENOENT <==> old(Lookup(RootDents(fs.geo, fs.cache.store), name)).None?)
    ensures fs.cache.dev.healthy && rc == -ENOENT ==> fs.cache.store == old(fs.cache.store)
    ensures fs.cache.dev.healthy && rc == 0 ==> fs.cache.dev.blocks == fs.cache.store
    ensures fs.cache.dev.healthy && rc == 0 ==>
      var t := old(Lookup(RootDents(fs.geo, fs.cache.store), name)).value;
      t < fs.geo.Inodes() && FreedExactly(fs.geo, old(fs.cache.store), fs.cache.store, t)
  {
    hide Inv, FsInv, TreeInv, InodeAt, InodeStore, OthersSame, Lookup, Contents, Dents, FreeState, Mine, Tidy, Ptr, FreedExactly, SameBitmap, EntryFits;
    ghost var g, st, own := fs.geo, fs.cache.store, fs.owner;
    ghost var ds := RootDents(g, st);
    var t;
    rc, t := FindDentry(fs, name);
    if rc != 0 {
      return;
    }
    ghost var k0 := LookupFinds(ds, name);
    EntryInRange(g, st, k0);
    var ok, ino := fs.ReadInode(t);
    if !ok {
      return -EIO;
    }
    ghost var exact := fs.cache.dev.healthy;
    ghost var a := Image(st, Table(g, st)[t := ZERO_INODE], own);
    FreeStart(g, st, own, t, exact);
    ghost var freed := FreeFile(fs, ino, a, t, exact);
    ghost var st1, own1 := fs.cache.store, fs.owner;
    FileGone(g, st, own, t, st1, own1, freed, exact);
    ok := fs.WriteInode(t, ZERO_INODE);
    if !ok {
      return -EIO;
    }
    ghost var st2 := fs.cache.store;
    InodeStoreBitmap(g, st1, t, ZERO_INODE);
    RootUntouched(g, st, st2, t);
    ghost var k;
    rc, k := RemoveDent(fs, t);
    BitmapTrans(g, st1, st2, fs.cache.store);
    if rc == 0 {
      DeletedEntry(g, st, st2, fs.cache.store, t, k, k0, name);
      if exact { FreedIsExact(g, st, own, t, st1, own1, freed, fs.cache.store); }
    }
  }

  lemma EntryInRange(g: Geo, st: seq<Block>, k: nat)
    requires GeoOk(g, st) && DirOk(g, st) && k < |RootDents(g, st)|
    ensures RootDents(g, st)[k].inode < g.Inodes() && RootDents(g, st)[k].inode != g.root
    ensures InodeAt(g, st, g.root).size % DENSZ == 0
  {
    hide InodeAt, Contents, Dents;
    assert EntryFits(g, RootDents(g, st)[k]);
  }

  lemma RootUntouched(g: Geo, st: seq<Block>, st': seq<Block>, t: nat)
    requires GeoOk(g, st) && GeoOk(g, st') && t != g.root && OthersSame(g, st, st', t)
    ensures InodeAt(g, st', g.root) == InodeAt(g, st, g.root) && RootDents(g, st') == RootDents(g, st)
  {
    hide InodeAt, Contents, Dents;
  }

  lemma BitmapTrans(g: Geo, st: seq<Block>, st1: seq<Block>, st2: seq<Block>)
    requires SameBitmap(g, st, st1) && SameBitmap(g, st1, st2)
    ensures SameBitmap(g, st, st2)
  {
  }

  /** The entry that was removed is the one the name led to, and the rest of the directory is well-formed. */
  lemma DeletedEntry(g: Geo, st: seq<Block>, st2: seq<Block>, st3: seq<Block>, t: nat, k: nat, k0: nat, name: seq<u8>)
    requires GeoOk(g, st) && GeoOk(g, st2) && GeoOk(g, st3) && DirOk(g, st)
    requires t < g.Inodes() && t != g.root && OthersSame(g, st, st2, t) && InodeAt(g, st2, t) == ZERO_INODE
    requires OthersSame(g, st2, st3, g.root) && InodeAt(g, st3, g.root).size % DENSZ == 0
    requires k < |RootDents(g, st)| && RootDents(g, st)[k].inode == t && RootDents(g, st3) == SwapRemove(RootDents(g, st), k)
    requires k0 < |RootDents(g, st)| && RootDents(g, st)[k0] == Dent(t, name)
    ensures Deleted(g, st, st3, k, name) && DirOk(g, st3)
  {
    hide InodeAt, Contents, Dents;
    var ds := RootDents(g, st);
    assert k == k0;
    LookupRemove(ds, k, name);
    forall j | 0 <= j < |ds| - 1 ensures EntryFits(g, SwapRemove(ds, k)[j]) {
      assert EntryFits(g, ds[if j == k then |ds| - 1 else j]);
    }
  }
}
