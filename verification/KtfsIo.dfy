/** Reading and writing open files: ktfs_readat and ktfs_writeat of kernel/ktfs.c. */
module KtfsIo {
  import opened Base
  import opened Format
  import opened BlockCache
  import opened KtfsTree
  import opened KtfsSteps
  import opened KtfsKernel
  import opened KtfsFiles

  /** An open file: its inode and the size it was opened with or last extended to. */
  class OpenFile {
    const inode: nat
    var size: nat

    constructor (inode: nat, size: nat)
      ensures this.inode == inode && this.size == size
    {
      this.inode, this.size := inode, size;
    }
  }

  /** Where the 32-bit number of a logical block wraps around. */
  const WRAP_POS: nat := 0x200_0000_0000

  /** The file system between calls: a sound image and no block pinned. */
  ghost predicate AtRest(fs: Ktfs)
    reads fs, fs.cache, fs.cache.dev
  {
    fs.Ready() && fs.cache.held == multiset{} && FsInv(fs.geo, fs.cache.store, fs.owner)
  }

  ghost function FileContents(fs: Ktfs, i: nat): seq<u8>
    requires fs.Ready() && i < fs.geo.Inodes()
    reads fs, fs.cache, fs.cache.dev
  {
    Contents(fs.geo, fs.cache.store, InodeAt(fs.geo, fs.cache.store, i))
  }

  /** memcpy into a buffer. */
  method CopyIn(buf: array<u8>, at: nat, data: seq<u8>)
    requires at + |data| <= buf.Length
    modifies buf
    ensures forall k :: 0 <= k < buf.Length ==> buf[k] == if at <= k < at + |data| then data[k - at] else old(buf[k])
  {
    for k := 0 to |data|
      invariant forall m :: 0 <= m < buf.Length ==> buf[m] == if at <= m < at + k then data[m - at] else old(buf[m])
    {
      buf[at + k] := data[k];
    }
  }

  /** The index blocks of a sound file lie on the disk. */
  lemma FileInRange(g: Geo, st: seq<Block>, inos: seq<Inode>, owner: map<nat, Node>, i: nat, lb: nat)
    requires TreeInv(g, st, inos, owner) && i < |inos| && HasBlock(g, st, inos[i], lb)
    ensures IndexInRange(g, st, inos[i], lb) && lb < MAXBLOCKS
    ensures g.FirstData() + Resolve(g, st, inos[i], lb) < |st|
    ensures BlockOf(g, st, inos[i], lb) == st[g.FirstData() + Resolve(g, st, inos[i], lb)]
  {
    hide Used;
    ResolveIsPtr(g, st, inos[i], lb);
    PtrInRange(g, st, inos, owner, i, LeafPath(lb));
    if NDIRECT <= lb < NDIRECT + PTRS {
      assert Ptr(g, st, inos[i], Ind).Some?;
      PtrInRange(g, st, inos, owner, i, Ind);
    } else if NDIRECT + PTRS <= lb {
      var m := lb - NDIRECT - PTRS;
      var j, k := m / (PTRS * PTRS), m % (PTRS * PTRS) / PTRS;
      assert Ptr(g, st, inos[i], Dind(j)).Some? && Ptr(g, st, inos[i], DindMid(j, k)).Some?;
      PtrInRange(g, st, inos, owner, i, Dind(j));
      PtrInRange(g, st, inos, owner, i, DindMid(j, k));
    }
  }

  /** The bytes a reader of this inode finds from offset o on, whatever the image holds there. */
  ghost function Found(g: Geo, st: seq<Block>, ino: Inode, o: nat, n: nat): (c: seq<u8>)
    ensures |c| == n
  {
    seq(n, k requires 0 <= k < n => FoundByte(g, st, ino, o + k))
  }

  ghost function FoundByte(g: Geo, st: seq<Block>, ino: Inode, o: nat): u8 {
    var b := g.FirstData() + Resolve(g, st, ino, o / BLKSZ);
    if b < |st| then st[b][o % BLKSZ] else 0
  }

  /** The block a reader of offset o goes to, and those on the way, lie on the disk. */
  ghost predicate Reachable(g: Geo, st: seq<Block>, ino: Inode, lb: nat) {
    lb < MAXBLOCKS && IndexInRange(g, st, ino, lb) && g.FirstData() + Resolve(g, st, ino, lb) < |st|
  }

  /** The part of logical block o / 512 that a read of at most max bytes from offset o takes. */
  method ReadChunk(fs: Ktfs, ino: Inode, o: nat, max: nat) returns (rc: int, data: seq<u8>)
    requires fs.Ready() && fs.cache.held == multiset{} && max > 0
    modifies fs.cache, fs.cache.dev
    ensures fs.Ready() && fs.cache.held == multiset{} && fs.cache.store == old(fs.cache.store)
    ensures rc == 0 || rc == -EIO || rc == -EINVAL
    ensures rc == -EINVAL <==> o / BLKSZ >= MAXBLOCKS
    ensures fs.cache.dev.healthy && Reachable(fs.geo, fs.cache.store, ino, o / BLKSZ) ==> rc == 0
    ensures rc == 0 ==> |data| == Min(max, BLKSZ - o % BLKSZ) && data == Found(fs.geo, fs.cache.store, ino, o, |data|)
  {
    hide Inv, Resolve, IndexInRange;
    var lb, off := o / BLKSZ, o % BLKSZ;
    var blk;
    rc, blk := fs.ResolveBlock(ino, lb);
    if rc != 0 {
      return rc, [];
    }
    var n := if BLKSZ - off < max then BLKSZ - off else max;
    var ok, bytes := fs.Fetch(fs.geo.FirstData() + blk);
    if !ok {
      return -EIO, [];
    }
    data := bytes[off..off + n];
    FoundInBlock(fs.geo, fs.cache.store, ino, o, n);
  }

  lemma FoundInBlock(g: Geo, st: seq<Block>, ino: Inode, o: nat, n: nat)
    requires o % BLKSZ + n <= BLKSZ && g.FirstData() + Resolve(g, st, ino, o / BLKSZ) < |st|
    ensures Found(g, st, ino, o, n) == st[g.FirstData() + Resolve(g, st, ino, o / BLKSZ)][o % BLKSZ..o % BLKSZ + n]
  {
    hide Resolve;
    var lhs, rhs := Found(g, st, ino, o, n), st[g.FirstData() + Resolve(g, st, ino, o / BLKSZ)][o % BLKSZ..o % BLKSZ + n];
    forall k | 0 <= k < n ensures lhs[k] == rhs[k] {
      SameBlock(o, k);
    }
  }

  lemma SameBlock(o: nat, k: nat)
    requires o % BLKSZ + k < BLKSZ
    ensures (o + k) / BLKSZ == o / BLKSZ && (o + k) % BLKSZ == o % BLKSZ + k
  {
  }

  /** In a sound image a reader finds the bytes of the file. */
  lemma FoundIsContents(g: Geo, st: seq<Block>, owner: map<nat, Node>, i: nat, o: nat, n: nat)
    requires FsInv(g, st, owner) && i < g.Inodes() && o + n <= InodeAt(g, st, i).size
    ensures Found(g, st, InodeAt(g, st, i), o, n) == Contents(g, st, InodeAt(g, st, i))[o..o + n]
  {
    hide TreeInv, Resolve, BlockOf, Tidy, InodeAt, HasBlock, IndexInRange, Contents;
    var ino := InodeAt(g, st, i);
    var lhs, rhs := Found(g, st, ino, o, n), Contents(g, st, ino)[o..o + n];
    assert Table(g, st)[i] == ino;
    forall k | 0 <= k < n ensures lhs[k] == rhs[k] {
      assert HasBlock(g, st, ino, (o + k) / BLKSZ);
      FileInRange(g, st, Table(g, st), owner, i, (o + k) / BLKSZ);
      ContentsAt(g, st, ino, o + k);
      assert lhs[k] == FoundByte(g, st, ino, o + k) && rhs[k] == Contents(g, st, ino)[o + k];
    }
  }

  lemma FileReachable(g: Geo, st: seq<Block>, owner: map<nat, Node>, i: nat, lb: nat)
    requires FsInv(g, st, owner) && i < g.Inodes() && lb * BLKSZ < InodeAt(g, st, i).size
    ensures Reachable(g, st, InodeAt(g, st, i), lb)
  {
    hide TreeInv, Resolve, BlockOf, Tidy, InodeAt, HasBlock, IndexInRange;
    assert Table(g, st)[i] == InodeAt(g, st, i);
    assert lb < NBlocks(InodeAt(g, st, i).size);
    assert HasBlock(g, st, InodeAt(g, st, i), lb);
    FileInRange(g, st, Table(g, st), owner, i, lb);
  }

  /** ktfs_readat, up to the size the handle knows: the bytes of the blocks the inode leads to. In a sound image, with
      a handle that does not know more than the inode, these are the bytes of the file. */
  method ReadAt(fs: Ktfs, f: OpenFile, pos: nat, buf: array<u8>, len: int) returns (n: int)
    requires fs.Ready() && fs.cache.held == multiset{} && f.inode < fs.geo.Inodes() && len <= buf.Length
    modifies fs.cache, fs.cache.dev, buf
    ensures fs.Ready() && fs.cache.held == multiset{} && fs.cache.store == old(fs.cache.store)
    ensures n >= 0 || n == -EIO || n == -EINVAL
    ensures n >= 0 ==> n == Max(0, Min(len, f.size - pos)) <= buf.Length
    ensures n >= 0 ==> buf[..n] == Found(fs.geo, fs.cache.store, InodeAt(fs.geo, fs.cache.store, f.inode), pos, n)
    ensures n == -EINVAL ==> f.size > MAXBLOCKS * BLKSZ
    ensures old(Current(fs, f)) ==> n != -EINVAL && (fs.cache.dev.healthy ==> n >= 0)
    ensures old(Current(fs, f)) && n > 0 ==> pos + n <= f.size && buf[..n] == FileContents(fs, f.inode)[pos..pos + n]
    ensures forall k :: 0 <= k < buf.Length && k >= Max(0, len) ==> buf[k] == old(buf[k])
  {
    hide Inv, FsInv, InodeAt, FoundByte, Found, Reachable;
    FoundNone(fs.geo, fs.cache.store, InodeAt(fs.geo, fs.cache.store, f.inode), pos);
    if len <= 0 || pos >= f.size {
      return 0;
    }
    var want := if len > f.size - pos then f.size - pos else len;
    var ok, ino := fs.ReadInode(f.inode);
    if !ok {
      return -EIO;
    }
    if Current(fs, f) {
      FoundIsContents(fs.geo, fs.cache.store, fs.owner, f.inode, pos, want);
      AllReachable(fs.geo, fs.cache.store, fs.owner, f.inode, pos + want);
    }
    n := ReadLoop(fs, ino, pos, buf, want);
  }

  /** Every block below this offset can be reached. */
  ghost predicate ReachableTo(g: Geo, st: seq<Block>, ino: Inode, end: nat) {
    forall lb: nat :: lb * BLKSZ < end ==> Reachable(g, st, ino, lb)
  }

  lemma AllReachable(g: Geo, st: seq<Block>, owner: map<nat, Node>, i: nat, end: nat)
    requires FsInv(g, st, owner) && i < g.Inodes() && end <= InodeAt(g, st, i).size
    ensures ReachableTo(g, st, InodeAt(g, st, i), end)
  {
    assert GeoOk(g, st);
    hide FsInv, InodeAt, Reachable;
    var ino := InodeAt(g, st, i);
    forall lb: nat | lb * BLKSZ < end ensures Reachable(g, st, ino, lb) {
      FileReachable(g, st, owner, i, lb);
    }
  }

  lemma ReachAt(g: Geo, st: seq<Block>, ino: Inode, end: nat, o: nat)
    requires o < end
    ensures ReachableTo(g, st, ino, end) ==> Reachable(g, st, ino, o / BLKSZ)
  {
    hide Reachable;
    assert o / BLKSZ * BLKSZ <= o;
  }

  /** The loop of ktfs_readat. */
  method ReadLoop(fs: Ktfs, ino: Inode, pos: nat, buf: array<u8>, want: nat) returns (n: int)
    requires fs.Ready() && fs.cache.held == multiset{} && want <= buf.Length
    modifies fs.cache, fs.cache.dev, buf
    ensures fs.Ready() && fs.cache.held == multiset{} && fs.cache.store == old(fs.cache.store)
    ensures n == want || n == -EIO || n == -EINVAL
    ensures n >= 0 ==> buf[..n] == Found(fs.geo, fs.cache.store, ino, pos, n)
    ensures n == -EINVAL ==> pos + want > MAXBLOCKS * BLKSZ
    ensures ReachableTo(fs.geo, fs.cache.store, ino, pos + want) ==> n != -EINVAL && (fs.cache.dev.healthy ==> n >= 0)
    ensures forall k :: 0 <= k < buf.Length && k >= want ==> buf[k] == old(buf[k])
  {
    hide Inv, FoundByte, Found, IndexInRange, Resolve;
    FoundNone(fs.geo, fs.cache.store, ino, pos);
    var copied := 0;
    while copied < want
      invariant 0 <= copied <= want
      invariant fs.Ready() && fs.cache.held == multiset{} && fs.cache.store == old(fs.cache.store)
      invariant buf[..copied] == Found(fs.geo, fs.cache.store, ino, pos, copied)
      invariant forall k :: 0 <= k < buf.Length && k >= want ==> buf[k] == old(buf[k])
    {
      ReachAt(fs.geo, fs.cache.store, ino, pos + want, pos + copied);
      var rc, data := ReadChunk(fs, ino, pos + copied, want - copied);
      if rc != 0 {
        return rc;
      }
      ghost var before := buf[..copied];
      CopyIn(buf, copied, data);
      assert buf[..copied + |data|] == before + data;
      FoundJoin(fs.geo, fs.cache.store, ino, pos, copied, |data|);
      copied := copied + |data|;
    }
    return copied;
  }

  /** The image is sound and the handle does not know more than the inode. */
  ghost predicate Current(fs: Ktfs, f: OpenFile)
    requires fs.Ready() && f.inode < fs.geo.Inodes()
    reads fs, fs.cache, fs.cache.dev, f
  {
    FsInv(fs.geo, fs.cache.store, fs.owner) && f.size <= InodeAt(fs.geo, fs.cache.store, f.inode).size
  }

  lemma FoundNone(g: Geo, st: seq<Block>, ino: Inode, o: nat)
    ensures Found(g, st, ino, o, 0) == []
  {
  }

  lemma FoundJoin(g: Geo, st: seq<Block>, ino: Inode, o: nat, a: nat, b: nat)
    ensures Found(g, st, ino, o, a) + Found(g, st, ino, o + a, b) == Found(g, st, ino, o, a + b)
  {
    hide FoundByte;
  }

  /** The image as the writer of inode i sees it, with its copy of the inode. */
  ghost function View(fs: Ktfs, inos: seq<Inode>): Image
    reads fs, fs.cache
  {
    Image(fs.cache.store, inos, fs.owner)
  }

  /** A write that skips no direct block never meets one it would have to skip. */
  lemma SteadyChunk(was: Inode, ino: Inode, pos: nat, copied: nat)
    requires !Skips(was.size, pos) && ino.size == LoopSize(was.size, pos, copied) && (copied > 0 ==> (pos + copied) % BLKSZ == 0)
    ensures Steady(ino, ino, (pos + copied) / BLKSZ, true)
  {
  }

  /** After a skip every direct block of the write is new to the writer's inode, and none is known to the tree. */
  lemma AsideChunk(was: Inode, ino: Inode, pos: nat, copied: nat)
    requires Skips(was.size, pos) && ino.size == LoopSize(was.size, pos, copied) && (copied > 0 ==> (pos + copied) % BLKSZ == 0)
    requires (pos + copied) / BLKSZ < NDIRECT
    ensures !Steady(Over(was, ino), ino, (pos + copied) / BLKSZ, true) && (pos + copied) / BLKSZ >= NBlocks(ino.size)
    ensures (pos + copied) / BLKSZ >= NBlocks(was.size)
  {
    if copied > 0 {
      assert NBlocks(ino.size) != NBlocks(was.size);
    }
  }

  /** How the size grows when the next n bytes, up to the end of a block, are written. */
  lemma LoopSizeStep(size: nat, pos: nat, copied: nat, n: nat)
    requires (copied > 0 ==> (pos + copied) % BLKSZ == 0) && 0 < n <= BLKSZ - (pos + copied) % BLKSZ
    ensures var lb := (pos + copied) / BLKSZ;
      LoopSize(size, pos, copied + n) ==
        if lb < NDIRECT && lb >= NBlocks(LoopSize(size, pos, copied)) then (lb + 1) * BLKSZ else LoopSize(size, pos, copied)
  {
    var lb := (pos + copied) / BLKSZ;
    assert NBlocks(pos + copied + n) == lb + 1;
    assert copied > 0 ==> NBlocks(pos + copied) == lb;
  }

  lemma ZeroBlockOf(g: Geo, st: seq<Block>, ino: Inode, lb: nat, v: nat)
    requires Ptr(g, st, ino, LeafPath(lb)) == Some(v) && IsZero(g, st, v)
    ensures BlockOf(g, st, ino, lb) == ZERO_BLOCK
  {
  }

  /** Copies bytes into data block blk at off, through the cache. */
  method CopyToBlock(fs: Ktfs, blk: nat, off: nat, bytes: seq<u8>) returns (ok: bool)
    requires fs.Ready() && fs.geo.FirstData() + blk < |fs.cache.store| && off + |bytes| <= BLKSZ
    modifies fs.cache, fs.cache.dev
    ensures fs.Ready() && fs.cache.held == old(fs.cache.held)
    ensures ok ==> fs.cache.store == old(fs.cache.store)[fs.geo.FirstData() + blk := Patch(old(fs.cache.store)[fs.geo.FirstData() + blk], off, bytes)]
    ensures !ok ==> fs.cache.store == old(fs.cache.store)
    ensures old(fs.cache.Quiet(1)) ==> ok
  {
    hide Inv, Patch;
    var b := fs.geo.FirstData() + blk;
    ok := fs.cache.Pin(b);
    if ok {
      fs.Replace(b, Patch(fs.cache.Peek(b), off, bytes));
    }
  }

  /** What the core of a write says about its parts. */
  lemma CoreParts(g: Geo, a: Image, b: Image, i: nat, pos: nat, data: seq<u8>)
    requires Core(g, a, b, i, pos, data)
    ensures i < |a.inos| == |b.inos| && TreeInv(g, b.st, b.inos, b.owner)
    ensures forall lb: nat :: HasBlock(g, a.st, a.inos[i], lb) ==> HasBlock(g, b.st, b.inos[i], lb)
  {
    hide TreeInv, BlockOf, Ptr, InoLeq, Tidy, NewBlocks, Confined, Reached;
    forall lb: nat | HasBlock(g, a.st, a.inos[i], lb) ensures HasBlock(g, b.st, b.inos[i], lb) {
      assert KeptBlock(g, a, b, i, lb, pos, data);
    }
  }

  /** An allocation that the tree took part in, and a chunk laid at its place, take the core n bytes further. */
  lemma CoreChunk(g: Geo, a: Image, b: Image, c: Image, d: Image, i: nat, pos: nat, data: seq<u8>, chunk: seq<u8>, lb: nat)
    requires Core(g, a, b, i, pos, data) && Advanced(g, b, c, i, lb) && lb == (pos + |data|) / BLKSZ
    requires 0 < |chunk| <= BLKSZ - (pos + |data|) % BLKSZ && Pasted(g, c, d, i, lb, (pos + |data|) % BLKSZ, chunk)
    requires if HasBlock(g, c.st, c.inos[i], lb) then lb >= FirstIn(a.inos[i].size, pos) else lb < FirstIn(a.inos[i].size, pos)
    requires HasBlock(g, c.st, c.inos[i], lb) && !HasBlock(g, b.st, b.inos[i], lb) ==> BlockOf(g, c.st, c.inos[i], lb) == ZERO_BLOCK
    ensures Core(g, a, d, i, pos, data + chunk)
  {
    hide TreeInv, Extends, BlockOf, Ptr, InoLeq, Tidy, WriteSafe, NewBlocks, Confined, Reached, HasBlock, Pasted, Core;
    CoreParts(g, a, b, i, pos, data);
    CoreSafe(g, a, b, i, pos, data);
    AllocKeepsSafe(g, a, b, c, i, pos, data, lb);
    AllocKeepsNew(g, a, b, c, i, pos, data, lb);
    SafeKeeps(g, a, c, i, pos, data);
    PokeKeepsSafe(g, a, c, d, i, pos, data, lb, chunk);
    PokeKeepsNew(g, a, c, d, i, pos, data, lb, chunk);
    PokeKeepsPlaces(g, a, c, d, i, FirstIn(a.inos[i].size, pos), pos, data, lb, chunk);
    CoreOf(g, a, d, i, pos, data + chunk);
  }

  lemma CoreSafe(g: Geo, a: Image, b: Image, i: nat, pos: nat, data: seq<u8>)
    requires Core(g, a, b, i, pos, data)
    ensures WriteSafe(g, a, b, i, pos, data)
  {
  }

  lemma CoreOf(g: Geo, a: Image, b: Image, i: nat, pos: nat, data: seq<u8>)
    requires WriteSafe(g, a, b, i, pos, data) && i < |a.inos| == |b.inos| && NewBlocks(g, a, b, i, pos, data)
    requires Confined(g, a, b, i, pos, |data|) && Reached(g, b, i, FirstIn(a.inos[i].size, pos), pos, |data|)
    ensures Core(g, a, b, i, pos, data)
  {
  }

  lemma SafeKeeps(g: Geo, a: Image, b: Image, i: nat, pos: nat, data: seq<u8>)
    requires WriteSafe(g, a, b, i, pos, data)
    ensures i < |a.inos| == |b.inos| && forall lb: nat :: HasBlock(g, a.st, a.inos[i], lb) ==> HasBlock(g, b.st, b.inos[i], lb)
  {
    hide TreeInv, BlockOf, Ptr, InoLeq, Tidy;
    forall lb: nat | HasBlock(g, a.st, a.inos[i], lb) ensures HasBlock(g, b.st, b.inos[i], lb) {
      assert KeptBlock(g, a, b, i, lb, pos, data);
    }
  }

  lemma HasBlockPtr(g: Geo, st: seq<Block>, ino: Inode, lb: nat)
    ensures HasBlock(g, st, ino, lb) == Ptr(g, st, ino, LeafPath(lb)).Some?
  {
  }

  /** Allocating the block behind lb and copying the next bytes into it takes the write that far. */
  lemma ChunkSteady(g: Geo, a: Image, b: Image, c: Image, ino: Inode, ino': Inode, i: nat, pos: nat, data: seq<u8>, chunk: seq<u8>, lb: nat, v: nat)
    requires Wrote(g, a, b, ino, i, pos, data) && Advanced(g, b, c, i, lb) && lb == (pos + |data|) / BLKSZ
    requires 0 < |chunk| <= BLKSZ - (pos + |data|) % BLKSZ && (data != [] ==> (pos + |data|) % BLKSZ == 0)
    requires c.inos[i] == Shadow(a.inos[i], ino', pos) && (Skips(a.inos[i].size, pos) ==> lb >= NDIRECT && ino'.block == ino.block)
    requires Ptr(g, c.st, c.inos[i], LeafPath(lb)) == Some(v)
    requires Ptr(g, b.st, b.inos[i], LeafPath(lb)).None? ==> IsZero(g, c.st, v)
    requires ino'.size == if lb < NDIRECT && lb >= NBlocks(ino.size) then (lb + 1) * BLKSZ else ino.size
    ensures g.FirstData() + v < |c.st|
    ensures Wrote(g, a, Poked(g, c, v, (pos + |data|) % BLKSZ, chunk), ino', i, pos, data + chunk)
  {
    hide Used, TreeInv, Extends, Ptr, LeafPath, InoLeq, Tidy, BlockOf, Core, LoopSize, HasBlock, Overlay, IsZero, Pasted, GapBlock;
    CoreParts(g, a, b, i, pos, data);
    HasBlockPtr(g, b.st, b.inos[i], lb);
    HasBlockPtr(g, c.st, c.inos[i], lb);
    if Ptr(g, b.st, b.inos[i], LeafPath(lb)).None? { ZeroBlockOf(g, c.st, c.inos[i], lb, v); }
    PokeLays(g, c, i, lb, v, (pos + |data|) % BLKSZ, chunk);
    var d := Poked(g, c, v, (pos + |data|) % BLKSZ, chunk);
    CoreChunk(g, a, b, c, d, i, pos, data, chunk, lb);
    LoopSizeStep(a.inos[i].size, pos, |data|, |chunk|);
    if Skips(a.inos[i].size, pos) {
      SteadyGap(g, b, c, ino, ino', i, pos, data, chunk, lb, v);
    }
  }

  /** A chunk in the indirect area keeps the direct blocks that are set aside. */
  lemma SteadyGap(g: Geo, b: Image, c: Image, ino: Inode, ino': Inode, i: nat, pos: nat, data: seq<u8>, chunk: seq<u8>, lb: nat, v: nat)
    requires GapBlocks(g, b, ino, i, pos, data) && pos / BLKSZ < NDIRECT <= lb == (pos + |data|) / BLKSZ && ino'.block == ino.block
    requires (pos + |data|) % BLKSZ + |chunk| <= BLKSZ && Advanced(g, b, c, i, lb) && g.FirstData() + v < |c.st|
    requires Ptr(g, c.st, c.inos[i], LeafPath(lb)) == Some(v)
    ensures GapBlocks(g, Poked(g, c, v, (pos + |data|) % BLKSZ, chunk), ino', i, pos, data + chunk)
  {
    hide TreeInv, Extends, Ptr, InoLeq, Tidy, GapBlock;
    PtrInRange(g, c.st, c.inos, c.owner, i, LeafPath(lb));
    assert data != [] && NBlocks(pos + |data|) >= NDIRECT;
    var d, more := Poked(g, c, v, (pos + |data|) % BLKSZ, chunk), data + chunk;
    forall k: nat | pos / BLKSZ <= k < NDIRECT ensures GapBlock(g, d, ino', i, pos, more, k) {
      assert GapBlock(g, b, ino, i, pos, data, k);
      GapKept(g, b, c, ino, ino', i, pos, data, k, Node(i, LeafPath(lb)));
      GapPoked(g, c, ino', i, pos, data, k, lb, v, chunk);
    }
  }

  /** The same for a direct block behind a skipped one. */
  lemma ChunkAside(g: Geo, a: Image, b: Image, c: Image, ino: Inode, i: nat, pos: nat, data: seq<u8>, chunk: seq<u8>, lb: nat, v: nat)
    requires Wrote(g, a, b, ino, i, pos, data) && Advanced(g, b, c, i, lb) && lb == (pos + |data|) / BLKSZ < NDIRECT
    requires 0 < |chunk| <= BLKSZ - (pos + |data|) % BLKSZ && (data != [] ==> (pos + |data|) % BLKSZ == 0)
    requires Skips(a.inos[i].size, pos) && c.inos == b.inos && NBlocks(ino.size) <= lb && NBlocks(a.inos[i].size) <= lb && 0 < v < TWO32
    requires SetAside(c.owner, v, Node(i, Direct(lb))) && IsZero(g, c.st, v)
    ensures g.FirstData() + v < |c.st|
    ensures Wrote(g, a, Poked(g, c, v, (pos + |data|) % BLKSZ, chunk), SetInodePtr(ino, Direct(lb), v), i, pos, data + chunk)
  {
    hide Used, TreeInv, Extends, Ptr, InoLeq, Tidy, BlockOf, Core, LoopSize, HasBlock, Overlay, Pasted, GapBlock, IsZero;
    CoreParts(g, a, b, i, pos, data);
    DirectBeyond(g, b.st, b.inos[i], lb);
    DirectBeyond(g, c.st, c.inos[i], lb);
    AsideLays(g, c, i, lb, v, (pos + |data|) % BLKSZ, chunk);
    var d, ino' := Poked(g, c, v, (pos + |data|) % BLKSZ, chunk), SetInodePtr(ino, Direct(lb), v);
    CoreChunk(g, a, b, c, d, i, pos, data, chunk, lb);
    LoopSizeStep(a.inos[i].size, pos, |data|, |chunk|);
    AsideGap(g, b, c, ino, i, pos, data, chunk, lb, v);
    assert b.inos[i] == Over(a.inos[i], ino);
    assert ino'.size == (lb + 1) * BLKSZ;
  }

  lemma AsideGap(g: Geo, b: Image, c: Image, ino: Inode, i: nat, pos: nat, data: seq<u8>, chunk: seq<u8>, lb: nat, v: nat)
    requires GapBlocks(g, b, ino, i, pos, data) && pos / BLKSZ <= lb == (pos + |data|) / BLKSZ < NDIRECT
    requires 0 < |chunk| <= BLKSZ - (pos + |data|) % BLKSZ && (data != [] ==> (pos + |data|) % BLKSZ == 0)
    requires Advanced(g, b, c, i, lb) && SetAside(c.owner, v, Node(i, Direct(lb))) && IsZero(g, c.st, v) && 0 < v < TWO32
    ensures g.FirstData() + v < |c.st|
    ensures GapBlocks(g, Poked(g, c, v, (pos + |data|) % BLKSZ, chunk), SetInodePtr(ino, Direct(lb), v), i, pos, data + chunk)
  {
    hide TreeInv, Extends, Ptr, InoLeq, Tidy, GapBlock;
    var ino' := SetInodePtr(ino, Direct(lb), v);
    GapFilled(g, c, ino', i, pos, data, lb, chunk);
    var d, more := Poked(g, c, v, (pos + |data|) % BLKSZ, chunk), data + chunk;
    forall k: nat | pos / BLKSZ <= k < lb ensures GapBlock(g, d, ino', i, pos, more, k) {
      assert GapBlock(g, b, ino, i, pos, data, k);
      GapKept(g, b, c, ino, ino', i, pos, data, k, Node(i, LeafPath(lb)));
      GapPoked(g, c, ino', i, pos, data, k, lb, v, chunk);
    }
    assert NBlocks(pos + |data + chunk|) == lb + 1;
  }

  /** One turn of the loop of ktfs_writeat. */
  method WriteChunk(fs: Ktfs, ino: Inode, i: nat, pos: nat, data: seq<u8>, copied: nat, ghost a: Image)
    returns (rc: int, ino': Inode, n: nat)
    requires fs.Ready() && fs.cache.held == multiset{}
    requires i < |a.inos| && copied < |data| && (copied > 0 ==> (pos + copied) % BLKSZ == 0)
    requires Wrote(fs.geo, a, View(fs, a.inos[i := Shadow(a.inos[i], ino, pos)]), ino, i, pos, data[..copied])
    modifies fs.cache, fs.cache.dev, fs`owner
    ensures fs.Ready() && fs.cache.held == multiset{}
    ensures rc == 0 || rc == -ENOMEM || rc == -EIO || rc == -EINVAL
    ensures rc != 0 ==> WriteSafe(fs.geo, a, View(fs, a.inos[i := Shadow(a.inos[i], ino', pos)]), i, pos, data[..copied])
    ensures rc == 0 ==> 0 < n && copied + n <= |data|
    ensures rc == 0 ==> Wrote(fs.geo, a, View(fs, a.inos[i := Shadow(a.inos[i], ino', pos)]), ino', i, pos, data[..copied + n])
    ensures rc == 0 ==> copied + n == |data| || (pos + copied + n) % BLKSZ == 0
    ensures rc == 0 ==> (pos + copied + n - 1) / BLKSZ == (pos + copied) / BLKSZ < MAXBLOCKS
    ensures rc == 0 ==> n == Min(BLKSZ - (pos + copied) % BLKSZ, |data| - copied)
    ensures rc == -EINVAL ==> (pos + copied) / BLKSZ >= MAXBLOCKS
    ensures rc == -ENOMEM ==> UsedBelow(fs.geo, fs.cache.store, fs.geo.blockCount)
    ensures fs.cache.dev.healthy ==> rc != -EIO
  {
    hide Inv, Used, UsedBelow, TreeInv, Extends, Ptr, LeafPath, InoLeq, Tidy, BlockOf, Core, LoopSize, GapBlocks, WriteSafe, SetInodePtr, IsZero, Steady;
    var lb, off := (pos + copied) / BLKSZ, (pos + copied) % BLKSZ;
    ghost var g, b := fs.geo, View(fs, a.inos[i := Shadow(a.inos[i], ino, pos)]);
    BeforeChunk(g, a, b, ino, i, pos, data, copied);
    hide Wrote, Skips;
    var blk;
    ghost var sh;
    rc, blk, ino', sh := fs.ResolveOrAlloc(ino, i, lb, true, b.inos);
    ghost var c := View(fs, a.inos[i := Shadow(a.inos[i], ino', pos)]);
    assert b.inos[i := sh] == c.inos;
    assert Advanced(g, b, c, i, lb);
    AllocKeepsSafe(g, a, b, c, i, pos, data[..copied], lb);
    n := 0;
    if rc == 0 {
      n := if BLKSZ - off < |data| - copied then BLKSZ - off else |data| - copied;
      assert data[..copied] + data[copied..copied + n] == data[..copied + n];
      if Skips(a.inos[i].size, pos) && lb < NDIRECT {
        ChunkAside(g, a, b, c, ino, i, pos, data[..copied], data[copied..copied + n], lb, blk);
      } else {
        ChunkSteady(g, a, b, c, ino, ino', i, pos, data[..copied], data[copied..copied + n], lb, blk);
      }
      var ok := CopyToBlock(fs, blk, off, data[copied..copied + n]);
      rc := if ok then 0 else -EIO;
    }
  }

  /** What the allocation for the next chunk needs, and whether the tree takes part in it. */
  lemma BeforeChunk(g: Geo, a: Image, b: Image, ino: Inode, i: nat, pos: nat, data: seq<u8>, copied: nat)
    requires i < |a.inos| && copied < |data| && (copied > 0 ==> (pos + copied) % BLKSZ == 0) && b.inos == a.inos[i := Shadow(a.inos[i], ino, pos)]
    requires Wrote(g, a, b, ino, i, pos, data[..copied])
    ensures WriteSafe(g, a, b, i, pos, data[..copied]) && TreeInv(g, b.st, b.inos, b.owner)
    ensures b.inos[i] == Over(b.inos[i], ino) && (!Skips(a.inos[i].size, pos) ==> b.inos[i] == ino)
    ensures var lb := (pos + copied) / BLKSZ;
      if Skips(a.inos[i].size, pos) && lb < NDIRECT
      then !Steady(b.inos[i], ino, lb, true) && lb >= NBlocks(ino.size) && lb >= NBlocks(a.inos[i].size)
      else Steady(b.inos[i], ino, lb, true)
  {
    hide Used, UsedBelow, TreeInv, Ptr, Tidy, BlockOf, Core, GapBlocks, WriteSafe, Steady, LoopSize;
    CoreSafe(g, a, b, i, pos, data[..copied]);
    CoreParts(g, a, b, i, pos, data[..copied]);
    var lb := (pos + copied) / BLKSZ;
    if !Skips(a.inos[i].size, pos) {
      SteadyChunk(a.inos[i], ino, pos, copied);
    } else if lb < NDIRECT {
      AsideChunk(a.inos[i], ino, pos, copied);
    } else {
      SteadyIndirect(b.inos[i], ino, lb);
    }
  }

  lemma SteadyIndirect(sh: Inode, ino: Inode, lb: nat)
    requires lb >= NDIRECT
    ensures Steady(sh, ino, lb, true)
  {
  }

  /** Every inode but i, and every file but i, is what it was; so is the superblock. */
  ghost predicate OthersSame(g: Geo, st: seq<Block>, st': seq<Block>, i: nat)
    requires GeoOk(g, st) && GeoOk(g, st')
  {
    && st'[0] == st[0]
    && forall j: nat :: j < g.Inodes() && j != i ==>
         InodeAt(g, st', j) == InodeAt(g, st, j) && Contents(g, st', InodeAt(g, st', j)) == Contents(g, st, InodeAt(g, st, j))
  }

  /** The bytes of file i outside [pos, pos + len) are what they were, and so is its inode. */
  ghost predicate OutsideSame(g: Geo, st: seq<Block>, st': seq<Block>, i: nat, pos: nat, len: nat)
    requires GeoOk(g, st) && GeoOk(g, st') && i < g.Inodes()
  {
    && InodeAt(g, st', i) == InodeAt(g, st, i)
    && forall o :: 0 <= o < InodeAt(g, st, i).size && !(pos <= o < pos + len) ==>
         Contents(g, st', InodeAt(g, st', i))[o] == Contents(g, st, InodeAt(g, st, i))[o]
  }

  lemma AbortedWrite(g: Geo, a: Image, b: Image, i: nat, pos: nat, data: seq<u8>, len: nat)
    requires FsInv(g, a.st, a.owner) && a.inos == Table(g, a.st) && WriteSafe(g, a, b, i, pos, data) && |data| <= len
    ensures FsInv(g, b.st, b.owner) && OthersSame(g, a.st, b.st, i) && OutsideSame(g, a.st, b.st, i, pos, len)
  {
    hide TreeInv, BlockOf, Ptr, InodeAt, KeptBlock, InoLeq, Tidy, Full;
    WriteAborted(g, a, b, i, pos, data);
    assert forall j: nat :: j < |a.inos| ==> a.inos[j] == InodeAt(g, a.st, j) && Table(g, b.st)[j] == InodeAt(g, b.st, j);
  }

  lemma FinishedWrite(g: Geo, a: Image, b: Image, ino: Inode, st': seq<Block>, i: nat, pos: nat, data: seq<u8>)
    requires FsInv(g, a.st, a.owner) && a.inos == Table(g, a.st) && Wrote(g, a, b, ino, i, pos, data)
    requires |data| > 0 && NoGap(g, a.st, a.inos[i], pos) && NewSize(a.inos[i].size, pos, |data|) < TWO32
    requires st' == InodeStore(g, b.st, i, WithSize(ino, NewSize(a.inos[i].size, pos, |data|)))
    ensures FsInv(g, st', b.owner) && OthersSame(g, a.st, st', i)
    ensures InodeAt(g, st', i).size == NewSize(a.inos[i].size, pos, |data|)
    ensures Contents(g, st', InodeAt(g, st', i)) == NewContents(Raw(g, a.st, a.inos[i], NewSize(a.inos[i].size, pos, |data|)), pos, data)
  {
    hide TreeInv, BlockOf, Ptr, InodeAt, KeptBlock, InoLeq, Tidy, Full, NewContents, NewSize, LoopSize, NoGap, Raw;
    NoGapDirect(g, a.st, a.inos[i], pos);
    WriteFinished(g, a, b, st', i, pos, data);
    assert forall j: nat :: j < |a.inos| ==> a.inos[j] == InodeAt(g, a.st, j) && Table(g, st')[j] == InodeAt(g, st', j);
  }

  /** Whatever inode is written back after a write, other files are what they were. */
  lemma OthersOfWrite(g: Geo, a: Image, b: Image, st': seq<Block>, i: nat, pos: nat, data: seq<u8>, ino': Inode)
    requires FsInv(g, a.st, a.owner) && a.inos == Table(g, a.st) && WriteSafe(g, a, b, i, pos, data)
    requires st' == InodeStore(g, b.st, i, ino')
    ensures OthersSame(g, a.st, st', i) && InodeAt(g, st', i) == ino' && FileSame(g, b.st, b.inos[i], st', b.inos[i])
  {
    hide TreeInv, BlockOf, Ptr, InodeAt, KeptBlock, InoLeq, Tidy, Full, HasBlock, Contents;
    TableFrame(g, a.st, b.st);
    TableOfWrite(g, b.st, i, ino');
    InodeBlocksFrame(g, b.st, st', b.inos, b.owner);
    assert forall j: nat :: j < |a.inos| ==> a.inos[j] == InodeAt(g, a.st, j) && Table(g, st')[j] == InodeAt(g, st', j);
    forall j: nat | j < |a.inos| && j != i ensures Contents(g, st', a.inos[j]) == Contents(g, a.st, a.inos[j]) {
      FileSameContents(g, a.st, b.st, a.inos[j]);
      FileSameContents(g, b.st, st', b.inos[j]);
    }
  }

  /** A completed write that left a gap: other files are what they were and the written bytes can be read, but the
      image is not sound any more. */
  lemma BrokenWrite(g: Geo, a: Image, b: Image, ino: Inode, st': seq<Block>, i: nat, pos: nat, data: seq<u8>)
    requires FsInv(g, a.st, a.owner) && a.inos == Table(g, a.st) && Wrote(g, a, b, ino, i, pos, data)
    requires |data| > 0 && !NoGap(g, a.st, a.inos[i], pos) && NewSize(a.inos[i].size, pos, |data|) < TWO32
    requires st' == InodeStore(g, b.st, i, WithSize(ino, NewSize(a.inos[i].size, pos, |data|)))
    ensures OthersSame(g, a.st, st', i) && InodeAt(g, st', i) == WithSize(ino, NewSize(a.inos[i].size, pos, |data|))
    ensures DataAt(Contents(g, st', InodeAt(g, st', i)), pos, data)
    ensures i != g.root ==> forall owner :: !FsInv(g, st', owner)
  {
    hide TreeInv, BlockOf, Ptr, InodeAt, KeptBlock, InoLeq, Tidy, Full, NewSize, LoopSize, NoGap, HasBlock, GapBlocks, NewBlocks, Confined, Reached, Contents;
    var ino' := WithSize(ino, NewSize(a.inos[i].size, pos, |data|));
    OthersOfWrite(g, a, b, st', i, pos, data, ino');
    NewSizeReaches(a.inos[i].size, pos, |data|);
    var c := Contents(g, st', ino');
    forall k | 0 <= k < |data| ensures c[pos..pos + |data|][k] == data[k] {
      GapReads(g, a, b, ino, st', i, pos, data, pos + k);
    }
    assert InodeAt(g, st', i) == ino';
    if i != g.root {
      forall owner ensures !FsInv(g, st', owner) {
        WriteBroken(g, a, b, ino, st', i, pos, data, owner);
      }
    }
  }

  /** A file that fits the block tree has a size that fits 32 bits. */
  lemma SizeFits(size: u32, pos: nat, len: nat)
    requires len > 0 && (pos + len - 1) / BLKSZ < MAXBLOCKS
    ensures NewSize(size, pos, len) < TWO32
  {
  }

  lemma NothingWritten(g: Geo, st: seq<Block>, i: nat, pos: nat, len: nat)
    requires GeoOk(g, st) && i < g.Inodes()
    ensures OthersSame(g, st, st, i) && OutsideSame(g, st, st, i, pos, len)
  {
  }

  lemma StartWrite(g: Geo, a: Image, i: nat, pos: nat)
    requires FsInv(g, a.st, a.owner) && a.inos == Table(g, a.st) && i < |a.inos|
    ensures Wrote(g, a, a, a.inos[i], i, pos, [])
  {
    hide TreeInv, BlockOf, Ptr, InodeAt;
    forall lb: nat | HasBlock(g, a.st, a.inos[i], lb) ensures KeptBlock(g, a, a, i, lb, pos, []) {
      assert Overlay(BlockOf(g, a.st, a.inos[i], lb), lb, pos, []) == BlockOf(g, a.st, a.inos[i], lb);
    }
  }

  /** The bytes from pos on are data. */
  predicate DataAt(c: seq<u8>, pos: nat, data: seq<u8>) {
    pos + |data| <= |c| && c[pos..pos + |data|] == data
  }

  /** What a completed write has done: without a gap the image is sound and the file holds the data over what its
      blocks held; with a gap the data is there but the image is not sound any more. */
  ghost predicate Completed(g: Geo, st: seq<Block>, st': seq<Block>, owner': map<nat, Node>, i: nat, pos: nat, data: seq<u8>)
    requires GeoOk(g, st) && GeoOk(g, st') && i < g.Inodes()
  {
    var ino, ino' := InodeAt(g, st, i), InodeAt(g, st', i);
    && ino'.size == NewSize(ino.size, pos, |data|)
    && DataAt(Contents(g, st', ino'), pos, data)
    && (NoGap(g, st, ino, pos) ==> FsInv(g, st', owner') && Contents(g, st', ino') == NewContents(Raw(g, st, ino, ino'.size), pos, data))
    && (!NoGap(g, st, ino, pos) && i != g.root ==> forall owner :: !FsInv(g, st', owner))
  }

  lemma WriteCompleted(g: Geo, a: Image, b: Image, ino: Inode, st': seq<Block>, i: nat, pos: nat, data: seq<u8>)
    requires FsInv(g, a.st, a.owner) && a.inos == Table(g, a.st) && Wrote(g, a, b, ino, i, pos, data)
    requires |data| > 0 && NewSize(a.inos[i].size, pos, |data|) < TWO32 && i < g.Inodes()
    requires st' == InodeStore(g, b.st, i, WithSize(ino, NewSize(a.inos[i].size, pos, |data|)))
    ensures GeoOk(g, st') && OthersSame(g, a.st, st', i) && Completed(g, a.st, st', b.owner, i, pos, data)
  {
    assert GeoOk(g, b.st);
    assert i < |a.inos| && a.inos[i] == InodeAt(g, a.st, i);
    hide FsInv, TreeInv, BlockOf, InodeAt, Wrote, NewSize, OthersSame, NoGap, Raw, Contents, NewContents, Table, InodeStore, Completed;
    if NoGap(g, a.st, a.inos[i], pos) {
      FinishedWrite(g, a, b, ino, st', i, pos, data);
      CompletedClean(g, a.st, st', b.owner, i, pos, data);
    } else {
      BrokenWrite(g, a, b, ino, st', i, pos, data);
      CompletedGap(g, a.st, st', b.owner, i, pos, data);
    }
  }

  lemma CompletedClean(g: Geo, st: seq<Block>, st': seq<Block>, owner': map<nat, Node>, i: nat, pos: nat, data: seq<u8>)
    requires GeoOk(g, st) && GeoOk(g, st') && i < g.Inodes() && NoGap(g, st, InodeAt(g, st, i), pos) && FsInv(g, st', owner')
    requires InodeAt(g, st', i).size == NewSize(InodeAt(g, st, i).size, pos, |data|)
    requires Contents(g, st', InodeAt(g, st', i)) == NewContents(Raw(g, st, InodeAt(g, st, i), InodeAt(g, st', i).size), pos, data)
    ensures Completed(g, st, st', owner', i, pos, data)
  {
    hide FsInv, InodeAt, NewSize, NoGap, Raw, Contents, NewContents;
    NewSizeReaches(InodeAt(g, st, i).size, pos, |data|);
    DataShows(Raw(g, st, InodeAt(g, st, i), InodeAt(g, st', i).size), pos, data);
  }

  lemma CompletedGap(g: Geo, st: seq<Block>, st': seq<Block>, owner': map<nat, Node>, i: nat, pos: nat, data: seq<u8>)
    requires GeoOk(g, st) && GeoOk(g, st') && i < g.Inodes() && !NoGap(g, st, InodeAt(g, st, i), pos)
    requires i != g.root ==> forall owner :: !FsInv(g, st', owner)
    requires InodeAt(g, st', i).size == NewSize(InodeAt(g, st, i).size, pos, |data|)
    requires DataAt(Contents(g, st', InodeAt(g, st', i)), pos, data)
    ensures Completed(g, st, st', owner', i, pos, data)
  {
    hide FsInv, InodeAt, NewSize, NoGap, Contents;
  }

  lemma DataShows(was: seq<u8>, pos: nat, data: seq<u8>)
    requires pos + |data| <= |was|
    ensures DataAt(NewContents(was, pos, data), pos, data)
  {
  }

  lemma NewSizeReaches(size: nat, pos: nat, len: nat)
    ensures NewSize(size, pos, len) >= pos + len
  {
  }

  /** The end of ktfs_writeat: extend the size if the data went past it, write the inode back, flush. */
  method FinishWrite(fs: Ktfs, f: OpenFile, ino: Inode, pos: nat, data: seq<u8>, ghost a: Image) returns (n: int)
    requires fs.Ready() && fs.cache.held == multiset{} && f.inode < fs.geo.Inodes() && |data| > 0
    requires FsInv(fs.geo, a.st, a.owner) && a.inos == Table(fs.geo, a.st)
    requires NewSize(a.inos[f.inode].size, pos, |data|) < TWO32
    requires Wrote(fs.geo, a, View(fs, a.inos[f.inode := Shadow(a.inos[f.inode], ino, pos)]), ino, f.inode, pos, data)
    modifies fs.cache, fs.cache.dev, f
    ensures fs.Ready() && fs.cache.held == multiset{} && OthersSame(fs.geo, a.st, fs.cache.store, f.inode)
    ensures n == |data| || n == -EIO
    ensures n == |data| ==> Completed(fs.geo, a.st, fs.cache.store, fs.owner, f.inode, pos, data)
    ensures f.size == if pos + |data| > ino.size then pos + |data| else old(f.size)
    ensures n == |data| && fs.cache.dev.healthy ==> fs.cache.dev.blocks == fs.cache.store
    ensures n < 0 ==> AtRest(fs) && OutsideSame(fs.geo, a.st, fs.cache.store, f.inode, pos, |data|)
    ensures fs.cache.dev.healthy ==> n != -EIO
  {
    hide Inv, FsInv, TreeInv, BlockOf, InodeAt, Used, Core, NewSize, LoopSize, OthersSame, OutsideSame, Completed, GapBlocks;
    ghost var b := View(fs, a.inos[f.inode := Shadow(a.inos[f.inode], ino, pos)]);
    CoreSafe(fs.geo, a, b, f.inode, pos, data);
    NewSizeIsFinal(a.inos[f.inode].size, pos, |data|);
    var ino' := ino;
    if pos + |data| > ino.size {
      ino' := WithSize(ino, pos + |data|);
      f.size := pos + |data|;
    }
    assert ino' == WithSize(ino, NewSize(a.inos[f.inode].size, pos, |data|));
    var ok := fs.WriteInode(f.inode, ino');
    if !ok {
      AbortedWrite(fs.geo, a, b, f.inode, pos, data, |data|);
      return -EIO;
    }
    WriteCompleted(fs.geo, a, b, ino, fs.cache.store, f.inode, pos, data);
    var rc := fs.cache.Flush();
    return |data|;
  }

  /** ktfs_writeat. A completed write can be read back, survives on a healthy device and touches no other file; it
      keeps the image sound exactly when every block between the end of the file and the place of the write is
      there. A write that fails, at whatever point, leaves a sound image and touches no byte outside the request.
      It fails only for want of a free block, past the largest file, or on a device error. */
  method WriteAt(fs: Ktfs, f: OpenFile, pos: nat, data: seq<u8>) returns (n: int)
    requires AtRest(fs) && f.inode < fs.geo.Inodes() && pos + |data| <= WRAP_POS
    modifies fs.cache, fs.cache.dev, fs`owner, f
    ensures fs.Ready() && fs.cache.held == multiset{}
    ensures n == |data| || n == -ENOMEM || n == -EIO || n == -EINVAL
    ensures OthersSame(fs.geo, old(fs.cache.store), fs.cache.store, f.inode)
    ensures n == |data| > 0 ==> Completed(fs.geo, old(fs.cache.store), fs.cache.store, fs.owner, f.inode, pos, data)
    ensures n == |data| > 0 ==>
      f.size == if pos + |data| > LoopSize(InodeAt(fs.geo, old(fs.cache.store), f.inode).size, pos, |data|) then pos + |data| else old(f.size)
    ensures n == |data| && fs.cache.dev.healthy && |data| > 0 ==> fs.cache.dev.blocks == fs.cache.store
    ensures data == [] ==> n == 0 && fs.cache.store == old(fs.cache.store) && AtRest(fs)
    ensures n < 0 ==> AtRest(fs) && OutsideSame(fs.geo, old(fs.cache.store), fs.cache.store, f.inode, pos, |data|)
    ensures n < 0 && n != -EIO ==> f.size == old(f.size)
    ensures n == -ENOMEM ==> UsedBelow(fs.geo, fs.cache.store, fs.geo.blockCount)
    ensures n == -EINVAL ==> (pos + |data| - 1) / BLKSZ >= MAXBLOCKS
    ensures fs.cache.dev.healthy ==> n != -EIO
  {
    hide Inv, FsInv, TreeInv, BlockOf, InodeAt, Used, UsedBelow, Wrote, WriteSafe, NewSize, LoopSize, OthersSame, OutsideSame, InodeStore, Completed;
    n := 0;
    if data == [] {
      NothingWritten(fs.geo, fs.cache.store, f.inode, pos, |data|);
      return;
    }
    var ok, ino := fs.ReadInode(f.inode);
    if !ok {
      NothingWritten(fs.geo, fs.cache.store, f.inode, pos, |data|);
      return -EIO;
    }
    ghost var g, a := fs.geo, Image(fs.cache.store, Table(fs.geo, fs.cache.store), fs.owner);
    StartWrite(g, a, f.inode, pos);
    assert Shadow(ino, ino, pos) == ino;
    assert a.inos[f.inode := ino] == a.inos && data[..0] == [];
    var copied := 0;
    while copied < |data|
      invariant copied <= |data| && fs.Ready() && fs.cache.held == multiset{} && f.size == old(f.size)
      invariant copied > 0 ==> copied == |data| || (pos + copied) % BLKSZ == 0
      invariant copied > 0 ==> (pos + copied - 1) / BLKSZ < MAXBLOCKS
      invariant Wrote(g, a, View(fs, a.inos[f.inode := Shadow(a.inos[f.inode], ino, pos)]), ino, f.inode, pos, data[..copied])
    {
      var rc, ino', k := WriteChunk(fs, ino, f.inode, pos, data, copied, a);
      ino := ino';
      if rc != 0 {
        AbortedWrite(g, a, View(fs, a.inos[f.inode := Shadow(a.inos[f.inode], ino, pos)]), f.inode, pos, data[..copied], |data|);
        return rc;
      }
      copied := copied + k;
    }
    assert data[..copied] == data;
    SizeFits(a.inos[f.inode].size, pos, |data|);
    WroteSize(g, a, View(fs, a.inos[f.inode := Shadow(a.inos[f.inode], ino, pos)]), ino, f.inode, pos, data);
    n := FinishWrite(fs, f, ino, pos, data, a);
  }

  lemma WroteSize(g: Geo, a: Image, b: Image, ino: Inode, i: nat, pos: nat, data: seq<u8>)
    requires Wrote(g, a, b, ino, i, pos, data)
    ensures i < |a.inos| == |b.inos| && ino.size == LoopSize(a.inos[i].size, pos, |data|)
  {
  }
}
