/** Where kernel/ktfs.c does not keep its own rules, and exactly when it does. */
module KtfsLimits {
  import opened Base
  import opened Format
  import opened BlockCache
  import opened KtfsTree
  import opened KtfsKernel
  import opened KtfsFiles
  import opened KtfsIo
  import opened KtfsDir
  import opened KtfsDirOps

  // ---- writes past the end ----

  /** A write at the start of the second block, or behind the direct blocks, of an empty file leaves a gap. */
  lemma EmptyGap(g: Geo, st: seq<Block>, pos: nat)
    requires pos == BLKSZ || pos == NDIRECT * BLKSZ
    ensures !NoGap(g, st, ZERO_INODE, pos)
  {
    assert NBlocks(0) == 0;
    DirectBeyond(g, st, ZERO_INODE, 0);
  }

  /** One byte written there: the write succeeds, the byte can be read, and no owner map makes the image sound. */
  method GapWrite(fs: Ktfs, f: OpenFile, pos: nat, x: u8) returns (n: int)
    requires AtRest(fs) && f.inode < fs.geo.Inodes() && f.inode != fs.geo.root
    requires InodeAt(fs.geo, fs.cache.store, f.inode) == ZERO_INODE && (pos == BLKSZ || pos == NDIRECT * BLKSZ)
    modifies fs.cache, fs.cache.dev, fs`owner, f
    ensures fs.Ready() && (fs.cache.dev.healthy ==> n == 1 || n == -ENOMEM)
    ensures n == 1 ==> DataAt(FileContents(fs, f.inode), pos, [x]) && forall owner :: !FsInv(fs.geo, fs.cache.store, owner)
  {
    hide Inv, FsInv, InodeAt, NoGap, Contents, OthersSame, OutsideSame, UsedBelow, NewSize, LoopSize, Raw, NewContents;
    EmptyGap(fs.geo, fs.cache.store, pos);
    n := WriteAt(fs, f, pos, [x]);
  }

  // ---- raising the size ----

  /** Raising the size alone keeps the image sound exactly when every block the file then has is there. */
  lemma SetEndGrow(g: Geo, st: seq<Block>, owner: map<nat, Node>, i: nat, size: u32, st': seq<Block>)
    requires FsInv(g, st, owner) && i < g.Inodes() && i != g.root && InodeAt(g, st, i).size <= size
    requires st' == InodeStore(g, st, i, WithSize(InodeAt(g, st, i), size))
    ensures GeoOk(g, st') && OthersSame(g, st, st', i) && InodeAt(g, st', i) == WithSize(InodeAt(g, st, i), size)
    ensures NoGap(g, st, InodeAt(g, st, i), NBlocks(size) * BLKSZ) ==> FsInv(g, st', owner)
    ensures !NoGap(g, st, InodeAt(g, st, i), NBlocks(size) * BLKSZ) ==> forall o :: !FsInv(g, st', o)
  {
    var ino, t := InodeAt(g, st, i), Table(g, st);
    var ino' := WithSize(ino, size);
    assert t[i] == ino && Tidy(ino) && Full(g, st, ino);
    hide TreeInv, BlockOf, Ptr, InodeAt, InoLeq, Tidy, HasBlock, Contents, InodeStore;
    assert GeoOk(g, st);
    var a := Image(st, t, owner);
    StartWrite(g, a, i, 0);
    WroteSafe(g, a, a, ino, i, 0, []);
    OthersOfWrite(g, a, a, st', i, 0, [], ino');
    if NoGap(g, st, ino, NBlocks(size) * BLKSZ) {
      GrownTree(g, a, i, size);
      InodeWritten(g, st, t[i := ino'], owner, i, ino');
    } else {
      forall o ensures !FsInv(g, st', o) {
        GrownHole(g, st, ino, st', i, size, o);
      }
    }
  }

  lemma GrownTree(g: Geo, a: Image, i: nat, size: u32)
    requires TreeInv(g, a.st, a.inos, a.owner) && i < |a.inos| && a.inos[i].size <= size && Full(g, a.st, a.inos[i])
    requires NoGap(g, a.st, a.inos[i], NBlocks(size) * BLKSZ)
    ensures TreeInv(g, a.st, a.inos[i := WithSize(a.inos[i], size)], a.owner)
    ensures Full(g, a.st, WithSize(a.inos[i], size)) && (Tidy(a.inos[i]) ==> Tidy(WithSize(a.inos[i], size)))
  {
    NoGapDirect(g, a.st, a.inos[i], NBlocks(size) * BLKSZ);
    assert NBlocks(size) * BLKSZ / BLKSZ == NBlocks(size) >= NBlocks(a.inos[i].size);
    hide TreeInv, Ptr, BlockOf, Tidy, HasBlock;
    FinalTree(g, a, i, size);
    forall lb: nat | lb < NBlocks(size) ensures HasBlock(g, a.st, WithSize(a.inos[i], size), lb) {
      SameWithSize(g, a.st, a.inos[i], size, lb);
    }
  }

  lemma GrownHole(g: Geo, st: seq<Block>, ino: Inode, st': seq<Block>, i: nat, size: u32, owner: map<nat, Node>)
    requires GeoOk(g, st') && i < g.Inodes() && i != g.root && Tidy(ino) && InodeAt(g, st', i) == WithSize(ino, size)
    requires FileSame(g, st, ino, st', ino) && !NoGap(g, st, ino, NBlocks(size) * BLKSZ)
    ensures !FsInv(g, st', owner)
  {
    var n := NBlocks(ino.size);
    assert NBlocks(size) * BLKSZ / BLKSZ == NBlocks(size);
    var lb: nat :| n <= lb < NBlocks(size) && !HasBlock(g, st, ino, lb);
    hide TreeInv, Ptr, BlockOf, HasBlock, InodeAt;
    if n < NDIRECT {
      ZeroDirect(g, st', owner, i, n);
    } else {
      assert !HasBlock(g, st', ino, lb);
      IndexOnly(g, st', WithSize(ino, size), ino, lb);
      HoleNotFull(g, st', owner, i, lb);
    }
  }

  /** IOCTL_SETEND with a size that is not below the file's: the inode gets the size, and nothing is allocated. */
  method SetEndUp(fs: Ktfs, f: OpenFile, size: nat) returns (rc: int)
    requires AtRest(fs) && f.inode < fs.geo.Inodes() && f.inode != fs.geo.root && InodeAt(fs.geo, fs.cache.store, f.inode).size <= size
    modifies fs.cache, fs.cache.dev, f
    ensures fs.Ready() && fs.cache.held == multiset{} && (rc == 0 || rc == -EIO || rc == -EINVAL)
    ensures rc == -EINVAL <==> size >= TWO32
    ensures rc != 0 ==> fs.cache.store == old(fs.cache.store) && f.size == old(f.size)
    ensures rc == 0 ==> f.size == size && OthersSame(fs.geo, old(fs.cache.store), fs.cache.store, f.inode)
    ensures rc == 0 ==> InodeAt(fs.geo, fs.cache.store, f.inode) == WithSize(InodeAt(fs.geo, old(fs.cache.store), f.inode), size)
    ensures rc == 0 && NoGap(fs.geo, old(fs.cache.store), InodeAt(fs.geo, old(fs.cache.store), f.inode), NBlocks(size) * BLKSZ) ==> AtRest(fs)
    ensures rc == 0 && !NoGap(fs.geo, old(fs.cache.store), InodeAt(fs.geo, old(fs.cache.store), f.inode), NBlocks(size) * BLKSZ) ==>
      forall owner :: !FsInv(fs.geo, fs.cache.store, owner)
    ensures fs.cache.dev.healthy ==> rc != -EIO
  {
    hide Inv, FsInv, InodeAt, NoGap, OthersSame, InodeStore;
    if size >= TWO32 {
      return -EINVAL;
    }
    var ok, ino := fs.ReadInode(f.inode);
    if !ok {
      return -EIO;
    }
    SetEndGrow(fs.geo, fs.cache.store, fs.owner, f.inode, size, InodeStore(fs.geo, fs.cache.store, f.inode, WithSize(ino, size)));
    ok := fs.WriteInode(f.inode, WithSize(ino, size));
    if !ok {
      return -EIO;
    }
    f.size := size;
    var flushed := fs.cache.Flush();
    return 0;
  }
}
