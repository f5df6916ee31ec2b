/** The directory operations of kernel/ktfs.c: lookup, open, create and delete. */
module KtfsDirOps {
  import opened Base
  import opened Format
  import opened BlockCache
  import opened KtfsTree
  import opened KtfsSteps
  import opened KtfsKernel
  import opened KtfsFiles
  import opened KtfsIo
  import opened KtfsDir

  /** The entries of the root directory. */
  ghost function RootDents(g: Geo, st: seq<Block>): seq<Dent>
    requires GeoOk(g, st)
  {
    Dents(Contents(g, st, InodeAt(g, st, g.root)))
  }

  /** A well-formed root directory: whole entries, terminated names, no name and no inode twice, and inode
      numbers that fit the 16-bit field of an entry. */
  ghost predicate DirOk(g: Geo, st: seq<Block>)
    requires GeoOk(g, st)
  {
    && g.Inodes() <= 0x1_0000
    && InodeAt(g, st, g.root).size % DENSZ == 0
    && Distinct(RootDents(g, st))
    && forall j :: 0 <= j < |RootDents(g, st)| ==> EntryFits(g, RootDents(g, st)[j])
  }

  ghost predicate EntryFits(g: Geo, d: Dent) {
    |d.name| <= NAMELEN && d.inode < g.Inodes() && d.inode != g.root
  }

  ghost predicate Mounted(fs: Ktfs)
    reads fs, fs.cache, fs.cache.dev
  {
    AtRest(fs) && DirOk(fs.geo, fs.cache.store)
  }

  /** The byte-by-byte comparison of find_dentry: fourteen bytes at most, so an entry that fills its field without a
      terminator also matches longer names. */
  method NameMatches(raw: seq<u8>, name: seq<u8>) returns (m: bool)
    requires |raw| == NAMELEN + 1 && NoNul(name)
    ensures m <==> CStr(raw) == name[..Min(NAMELEN + 1, |name|)]
    ensures |CStr(raw)| <= NAMELEN ==> (m <==> CStr(raw) == name)
  {
    hide CStr, NoNul;
    var i := 0;
    while i < NAMELEN + 1
      invariant 0 <= i <= NAMELEN + 1 && i <= |name| && i <= |CStr(raw)|
      invariant raw[..i] == name[..i]
    {
      var a := raw[i];
      var b := if i < |name| then name[i] else 0;
      if a != b {
        Differ(raw, name, i);
        return false;
      }
      if a == 0 {
        Ended(raw, name, i);
        return true;
      }
      NotEnded(raw, name, i);
      i := i + 1;
    }
    return true;
  }

  lemma Differ(raw: seq<u8>, name: seq<u8>, i: nat)
    requires i < |raw| == NAMELEN + 1 && NoNul(name) && i <= |name| && i <= |CStr(raw)| && raw[..i] == name[..i]
    requires raw[i] != if i < |name| then name[i] else 0
    ensures CStr(raw) != name[..Min(NAMELEN + 1, |name|)] && CStr(raw) != name
  {
    hide CStr, NoNul;
    if i < |name| && i < |CStr(raw)| {
      assert CStr(raw)[i] == raw[i] && name[..Min(NAMELEN + 1, |name|)][i] == name[i];
    }
  }

  lemma Ended(raw: seq<u8>, name: seq<u8>, i: nat)
    requires i < |raw| == NAMELEN + 1 && NoNul(name) && i <= |name| && raw[..i] == name[..i]
    requires raw[i] == 0 && (i < |name| ==> name[i] == 0)
    ensures CStr(raw) == name == name[..Min(NAMELEN + 1, |name|)]
  {
    assert name[..i] == name;
    CStrUnique(raw, name);
  }

  lemma NotEnded(raw: seq<u8>, name: seq<u8>, i: nat)
    requires i < |raw| && i < |name| && i <= |CStr(raw)| && raw[..i] == name[..i] && name[i] == raw[i] != 0
    ensures i + 1 <= |CStr(raw)| && raw[..i + 1] == name[..i + 1]
  {
    hide CStr;
    OneFurther(raw, name, i);
  }

  lemma OneFurther(a: seq<u8>, b: seq<u8>, i: nat)
    requires i < |a| && i < |b| && a[..i] == b[..i] && a[i] == b[i]
    ensures a[..i + 1] == b[..i + 1]
  {
    assert a[..i + 1] == a[..i] + [a[i]];
    assert b[..i + 1] == b[..i] + [b[i]];
  }

  lemma DentInBlock(j: nat)
    ensures j * DENSZ % BLKSZ <= BLKSZ - DENSZ
  {
  }

  /** Entry j of the root directory, read through the cache. */
  method ReadDent(fs: Ktfs, root: Inode, j: nat) returns (rc: int, raw: seq<u8>)
    requires AtRest(fs) && root == InodeAt(fs.geo, fs.cache.store, fs.geo.root) && (j + 1) * DENSZ <= root.size
    modifies fs.cache, fs.cache.dev
    ensures AtRest(fs) && fs.cache.store == old(fs.cache.store)
    ensures rc == 0 || rc == -EIO
    ensures fs.cache.dev.healthy ==> rc == 0
    ensures rc == 0 ==> |raw| == DENSZ && raw == FileContents(fs, fs.geo.root)[j * DENSZ..j * DENSZ + DENSZ]
    ensures rc == 0 ==> j < |RootDents(fs.geo, fs.cache.store)| && ParseDent(raw) == RootDents(fs.geo, fs.cache.store)[j]
  {
    hide Inv, FsInv, InodeAt, ParseDent, Found, Resolve, IndexInRange;
    DentInBlock(j);
    FileReachable(fs.geo, fs.cache.store, fs.owner, fs.geo.root, j * DENSZ / BLKSZ);
    FoundIsContents(fs.geo, fs.cache.store, fs.owner, fs.geo.root, j * DENSZ, DENSZ);
    rc, raw := ReadChunk(fs, root, j * DENSZ, DENSZ);
  }

  /** One turn of the loop of find_dentry. */
  method EntryMatches(fs: Ktfs, root: Inode, d: nat, name: seq<u8>) returns (rc: int, m: bool, inode: nat)
    requires Mounted(fs) && NoNul(name) && root == InodeAt(fs.geo, fs.cache.store, fs.geo.root) && (d + 1) * DENSZ <= root.size
    modifies fs.cache, fs.cache.dev
    ensures Mounted(fs) && fs.cache.store == old(fs.cache.store)
    ensures rc == 0 || rc == -EIO
    ensures fs.cache.dev.healthy ==> rc == 0
    ensures rc == 0 ==> d < |RootDents(fs.geo, fs.cache.store)|
    ensures rc == 0 ==> var e := RootDents(fs.geo, fs.cache.store)[d]; (m <==> e.name == name) && inode == e.inode
  {
    hide Inv, FsInv, InodeAt, Distinct, CStr, Contents;
    var raw;
    rc, raw := ReadDent(fs, root, d);
    m, inode := false, 0;
    if rc == 0 {
      EntryTerminated(fs.geo, fs.cache.store, d);
      m := NameMatches(raw[2..], name);
      inode := raw[0] as nat + 0x100 * raw[1] as nat;
    }
  }

  /** find_dentry: the inode of the first entry with this name. */
  method FindDentry(fs: Ktfs, name: seq<u8>) returns (rc: int, inode: nat)
    requires Mounted(fs) && NoNul(name)
    modifies fs.cache, fs.cache.dev
    ensures Mounted(fs) && fs.cache.store == old(fs.cache.store)
    ensures rc == 0 || rc == -ENOENT || rc == -EIO
    ensures rc == 0 ==> Lookup(RootDents(fs.geo, fs.cache.store), name) == Some(inode)
    ensures rc == -ENOENT ==> Lookup(RootDents(fs.geo, fs.cache.store), name).None?
    ensures fs.cache.dev.healthy ==> rc != -EIO
  {
    hide Inv, FsInv, InodeAt, EntryFits, Lookup, Distinct, Contents, ParseDent;
    var ok, root := fs.ReadInode(fs.geo.root);
    if !ok {
      return -EIO, 0;
    }
    ghost var ds := RootDents(fs.geo, fs.cache.store);
    var total := root.size / DENSZ;
    var d := 0;
    while d < total
      invariant 0 <= d <= total && Mounted(fs) && fs.cache.store == old(fs.cache.store)
      invariant forall j :: 0 <= j < d ==> ds[j].name != name
    {
      var m;
      rc, m, inode := EntryMatches(fs, root, d, name);
      if rc != 0 {
        return -EIO, 0;
      }
      if m {
        LookupAt(ds, d);
        return;
      }
      d := d + 1;
    }
    ghost var k := LookupFinds(ds, name);
    return -ENOENT, 0;
  }

  lemma EntryTerminated(g: Geo, st: seq<Block>, j: nat)
    requires GeoOk(g, st) && DirOk(g, st) && j < |RootDents(g, st)|
    ensures |RootDents(g, st)[j].name| <= NAMELEN
  {
  }

  // ---- inodes ----

  /** The byte test of find_free_inode on slot s of an inode block. */
  method SlotIsZero(blk: Block, s: nat) returns (z: bool)
    requires s < INODES_PER_BLOCK
    ensures z <==> InodeIn(blk, s) == ZERO_INODE
  {
    hide InodeIn;
    var k := 0;
    while k < INOSZ
      invariant 0 <= k <= INOSZ
      invariant forall m :: s * INOSZ <= m < s * INOSZ + k ==> blk[m] == 0
    {
      if blk[s * INOSZ + k] != 0 {
        NonZeroByte(blk, s, k);
        return false;
      }
      k := k + 1;
    }
    ZeroBytes(blk, s);
    return true;
  }

  lemma NonZeroByte(blk: Block, s: nat, k: nat)
    requires s < INODES_PER_BLOCK && k < INOSZ && blk[s * INOSZ + k] != 0
    ensures InodeIn(blk, s) != ZERO_INODE
  {
    var w := 8 * s + k / 4;
    assert 4 * w <= s * INOSZ + k < 4 * w + 4;
    assert blk[4 * w..4 * w + 4][k % 4] == blk[s * INOSZ + k];
    assert WordAt(blk, w) != 0;
    var ino := InodeIn(blk, s);
    assert [ino.size, ino.flags, ino.block[0], ino.block[1], ino.block[2], ino.indirect, ino.dindirect[0], ino.dindirect[1]][k / 4] == WordAt(blk, w);
  }

  lemma ZeroBytes(blk: Block, s: nat)
    requires s < INODES_PER_BLOCK && forall m :: s * INOSZ <= m < s * INOSZ + INOSZ ==> blk[m] == 0
    ensures InodeIn(blk, s) == ZERO_INODE
  {
    forall w | 8 * s <= w < 8 * s + 8 ensures WordAt(blk, w) == 0 {
      var bytes := blk[4 * w..4 * w + 4];
      assert forall b :: 0 <= b < 4 ==> bytes[b] == 0;
    }
  }

  /** The scan of one inode block: the first zero slot that is not the root's. */
  method FindZeroSlot(b: Block, base: nat, root: nat) returns (s: nat)
    ensures s <= INODES_PER_BLOCK
    ensures s < INODES_PER_BLOCK ==> base + s != root && InodeIn(b, s) == ZERO_INODE
    ensures forall t :: 0 <= t < s ==> base + t == root || InodeIn(b, t) != ZERO_INODE
  {
    hide InodeIn;
    s := 0;
    while s < INODES_PER_BLOCK
      invariant s <= INODES_PER_BLOCK
      invariant forall t :: 0 <= t < s ==> base + t == root || InodeIn(b, t) != ZERO_INODE
    {
      if base + s != root {
        var z := SlotIsZero(b, s);
        if z {
          return;
        }
      }
      s := s + 1;
    }
  }

  lemma ScannedInodes(g: Geo, st: seq<Block>, q: nat, blk: Block, s: nat)
    requires GeoOk(g, st) && q < g.inodeBlocks && s <= INODES_PER_BLOCK && NoFreeBelow(g, st, q * INODES_PER_BLOCK)
    requires st[g.FirstInode() + q] == blk
    requires forall t :: 0 <= t < s ==> q * INODES_PER_BLOCK + t == g.root || InodeIn(blk, t) != ZERO_INODE
    ensures NoFreeBelow(g, st, q * INODES_PER_BLOCK + s)
    ensures s < INODES_PER_BLOCK ==> q * INODES_PER_BLOCK + s < g.Inodes()
    ensures s < INODES_PER_BLOCK ==> InodeAt(g, st, q * INODES_PER_BLOCK + s) == InodeIn(blk, s)
  {
    hide InodeIn, InodeAt;
    if s < INODES_PER_BLOCK {
      InodeSlot(g, st, q, s);
    }
    forall j: nat | j < q * INODES_PER_BLOCK + s && j < g.Inodes() && j != g.root ensures InodeAt(g, st, j) != ZERO_INODE {
      if j >= q * INODES_PER_BLOCK {
        InodeSlot(g, st, q, j - q * INODES_PER_BLOCK);
      }
    }
  }

  /** find_free_inode: the first inode other than the root whose 32 bytes are zero. */
  method FindFreeInode(fs: Ktfs) returns (rc: int, i: nat)
    requires AtRest(fs)
    modifies fs.cache, fs.cache.dev
    ensures AtRest(fs) && fs.cache.store == old(fs.cache.store)
    ensures rc == 0 || rc == -ENOMEM || rc == -EIO
    ensures rc == 0 ==> i < fs.geo.Inodes() && i != fs.geo.root && InodeAt(fs.geo, fs.cache.store, i) == ZERO_INODE
    ensures rc == 0 ==> NoFreeBelow(fs.geo, fs.cache.store, i)
    ensures rc == -ENOMEM ==> NoFreeBelow(fs.geo, fs.cache.store, fs.geo.Inodes())
    ensures fs.cache.dev.healthy ==> rc != -EIO
  {
    hide Inv, FsInv, InodeIn, InodeAt, NoFreeBelow;
    assert NoFreeBelow(fs.geo, fs.cache.store, 0) by { NoneBelowZero(fs.geo, fs.cache.store); }
    var blk := 0;
    while blk < fs.geo.inodeBlocks
      invariant 0 <= blk <= fs.geo.inodeBlocks && AtRest(fs) && fs.cache.store == old(fs.cache.store)
      invariant NoFreeBelow(fs.geo, fs.cache.store, blk * INODES_PER_BLOCK)
    {
      var ok, b := fs.Fetch(fs.geo.FirstInode() + blk);
      if !ok {
        return -EIO, 0;
      }
      var s := FindZeroSlot(b, blk * INODES_PER_BLOCK, fs.geo.root);
      ScannedInodes(fs.geo, fs.cache.store, blk, b, s);
      if s < INODES_PER_BLOCK {
        return 0, blk * INODES_PER_BLOCK + s;
      }
      blk := blk + 1;
    }
    return -ENOMEM, 0;
  }

  lemma NoneBelowZero(g: Geo, st: seq<Block>)
    requires GeoOk(g, st)
    ensures NoFreeBelow(g, st, 0)
  {
  }

  ghost predicate NoFreeBelow(g: Geo, st: seq<Block>, n: nat)
    requires GeoOk(g, st)
  {
    forall j: nat :: j < n && j < g.Inodes() && j != g.root ==> InodeAt(g, st, j) != ZERO_INODE
  }

  lemma InodeSlot(g: Geo, st: seq<Block>, q: nat, s: nat)
    requires GeoOk(g, st) && q < g.inodeBlocks && s < INODES_PER_BLOCK
    ensures q * INODES_PER_BLOCK + s < g.Inodes()
    ensures InodeAt(g, st, q * INODES_PER_BLOCK + s) == InodeIn(st[g.FirstInode() + q], s)
  {
    hide InodeIn;
    assert (q * INODES_PER_BLOCK + s) / INODES_PER_BLOCK == q;
  }

  /** The superblock, every inode and every file are what they were. */
  ghost predicate AllSame(g: Geo, st: seq<Block>, st': seq<Block>)
    requires GeoOk(g, st) && GeoOk(g, st')
  {
    && st'[0] == st[0]
    && forall j: nat :: j < g.Inodes() ==>
         InodeAt(g, st', j) == InodeAt(g, st, j) && Contents(g, st', InodeAt(g, st', j)) == Contents(g, st, InodeAt(g, st, j))
  }

  /** Writing an inode whose tree is already accounted for brings the image back to rest. */
  lemma InodeWritten(g: Geo, st: seq<Block>, inos: seq<Inode>, owner: map<nat, Node>, i: nat, ino: Inode)
    requires GeoOk(g, st) && i < g.Inodes() && inos == Table(g, st)[i := ino] && TreeInv(g, st, inos, owner)
    requires forall j: nat :: j < g.Inodes() ==> Full(g, st, inos[j]) && (j != g.root ==> Tidy(inos[j]))
    ensures FsInv(g, InodeStore(g, st, i, ino), owner) && Table(g, InodeStore(g, st, i, ino)) == inos
    ensures OthersSame(g, st, InodeStore(g, st, i, ino), i)
    ensures InodeAt(g, InodeStore(g, st, i, ino), i) == ino && Contents(g, InodeStore(g, st, i, ino), ino) == Contents(g, st, ino)
  {
    hide Used, Ptr, BlockOf, Owned, OwnerUsed, Tidy, InodeAt, HasBlock, PutInode;
    var st' := InodeStore(g, st, i, ino);
    TableOfWrite(g, st, i, ino);
    InodeBlocksFrame(g, st, st', inos, owner);
    forall j: nat | j < g.Inodes() ensures Contents(g, st', inos[j]) == Contents(g, st, inos[j]) && Full(g, st', inos[j]) {
      FileSameContents(g, st, st', inos[j]);
    }
    assert forall j: nat :: j < g.Inodes() ==> InodeAt(g, st', j) == inos[j];
    assert forall j: nat :: j < g.Inodes() ==> InodeAt(g, st, j) == Table(g, st)[j];
  }

  // ---- create ----

  /** The size of the root inode after create has put an entry behind a directory of this size: the entry's block
      may be new, which rounds the size up, and the entry's own size is added to that. */
  function DirSizeAfter(size: nat): nat {
    LoopSize(size, size, DENSZ) + DENSZ
  }

  /** The directory does not end on a block boundary inside the direct area. */
  predicate Grows(size: nat) {
    size % BLKSZ != 0 || size >= NDIRECT * BLKSZ
  }

  /** The directory grows by one entry exactly then; otherwise it grows by a block and an entry. */
  lemma DirGrowth(size: nat)
    requires size % DENSZ == 0
    ensures DirSizeAfter(size) == size + (if Grows(size) then 0 else BLKSZ) + DENSZ
    ensures NewSize(size, size, DENSZ) == if Grows(size) then size + DENSZ else size + BLKSZ
    ensures size % BLKSZ + DENSZ <= BLKSZ && !Skips(size, size)
  {
    var q, r := size / BLKSZ, size % BLKSZ;
    assert size == q * BLKSZ + r;
    if r == 0 {
      assert NBlocks(size) == q && NBlocks(size + DENSZ) == q + 1;
    } else {
      assert r + DENSZ <= BLKSZ;
      assert NBlocks(size) == q + 1 && NBlocks(size + DENSZ) == q + 1;
    }
  }

  /** The entry has been put behind the directory and the inode written back with the size that goes with it. */
  lemma DentAppended(g: Geo, a: Image, b: Image, root': Inode, raw: seq<u8>, st': seq<Block>)
    requires FsInv(g, a.st, a.owner) && a.inos == Table(g, a.st) && |raw| == DENSZ && g.root < |a.inos|
    requires a.inos[g.root].size % DENSZ == 0 && Grows(a.inos[g.root].size) && a.inos[g.root].size + DENSZ < TWO32
    requires Wrote(g, a, b, root', g.root, a.inos[g.root].size, raw) && root'.size + DENSZ < TWO32
    requires st' == InodeStore(g, b.st, g.root, WithSize(root', root'.size + DENSZ))
    ensures FsInv(g, st', b.owner) && OthersSame(g, a.st, st', g.root)
    ensures InodeAt(g, st', g.root).size == a.inos[g.root].size + DENSZ
    ensures Contents(g, st', InodeAt(g, st', g.root)) == Contents(g, a.st, a.inos[g.root]) + raw
  {
    hide FsInv, InodeAt, Wrote, NoGap, NewSize, LoopSize, NewContents, Raw, Contents, OthersSame, Table, InodeStore, Grows, Skips;
    var r := a.inos[g.root];
    DirGrowth(r.size);
    WroteSize(g, a, b, root', g.root, r.size, raw);
    AtEnd(g, a.st, r);
    assert root'.size + DENSZ == r.size + DENSZ == NewSize(r.size, r.size, |raw|);
    FinishedWrite(g, a, b, root', st', g.root, r.size, raw);
    RawAppend(g, a.st, r, raw);
  }

  lemma AtEnd(g: Geo, st: seq<Block>, ino: Inode)
    ensures NoGap(g, st, ino, ino.size)
  {
  }

  lemma RawAppend(g: Geo, st: seq<Block>, ino: Inode, raw: seq<u8>)
    ensures NewContents(Raw(g, st, ino, ino.size + |raw|), ino.size, raw) == Contents(g, st, ino) + raw
  {
    hide BlockOf;
  }

  /** On a block boundary of the direct area the rest of the new block counts as entries, all alike. */
  lemma BoundaryBroken(g: Geo, a: Image, b: Image, root': Inode, raw: seq<u8>, st': seq<Block>)
    requires FsInv(g, a.st, a.owner) && a.inos == Table(g, a.st) && |raw| == DENSZ && g.root < |a.inos|
    requires a.inos[g.root].size % DENSZ == 0 && !Grows(a.inos[g.root].size)
    requires Wrote(g, a, b, root', g.root, a.inos[g.root].size, raw) && root'.size + DENSZ < TWO32
    requires GeoOk(g, st') && st' == InodeStore(g, b.st, g.root, WithSize(root', root'.size + DENSZ))
    requires InodeAt(g, st', g.root) == WithSize(root', root'.size + DENSZ)
    ensures !DirOk(g, st')
  {
    hide FsInv, Wrote, LoopSize, NewSize, InodeAt, Overlay, Contents, Table, Dents, EntryFits, Grows, DirOk, Zeros, ParseDent;
    var size, k := a.inos[g.root].size, a.inos[g.root].size / BLKSZ;
    AfterBoundary(size);
    WroteSize(g, a, b, root', g.root, size, raw);
    BoundaryBlock(g, a, b, root', raw);
    var ino' := InodeAt(g, st', g.root);
    DataBlockKept(g, b.st, g.root, ino', root'.block[k]);
    hide InodeStore;
    ZeroDent(g, st', ino', b.st, root', k, raw, 1);
    ZeroDent(g, st', ino', b.st, root', k, raw, 2);
    TwoAlike(g, st', 32 * k + 1, 32 * k + 2);
  }

  lemma AfterBoundary(size: nat)
    requires size % DENSZ == 0 && !Grows(size)
    ensures size == size / BLKSZ * BLKSZ && LoopSize(size, size, DENSZ) == (size / BLKSZ + 1) * BLKSZ
  {
    DirGrowth(size);
  }

  lemma DataBlockKept(g: Geo, st: seq<Block>, i: nat, ino: Inode, v: nat)
    requires GeoOk(g, st) && i < g.Inodes() && g.FirstData() + v < |st|
    ensures |InodeStore(g, st, i, ino)| == |st| && InodeStore(g, st, i, ino)[g.FirstData() + v] == st[g.FirstData() + v]
  {
    hide PutInode;
  }

  lemma TwoAlike(g: Geo, st: seq<Block>, i: nat, j: nat)
    requires GeoOk(g, st) && i < j < |RootDents(g, st)| && RootDents(g, st)[i] == RootDents(g, st)[j]
    ensures !DirOk(g, st)
  {
    hide Dents, Contents, InodeAt;
  }

  lemma BoundaryBlock(g: Geo, a: Image, b: Image, root': Inode, raw: seq<u8>)
    requires |raw| == DENSZ && g.root < |a.inos| && a.inos[g.root].size % DENSZ == 0 && !Grows(a.inos[g.root].size)
    requires Wrote(g, a, b, root', g.root, a.inos[g.root].size, raw)
    ensures var k := a.inos[g.root].size / BLKSZ;
      && k < NDIRECT && g.FirstData() + root'.block[k] < |b.st|
      && b.st[g.FirstData() + root'.block[k]] == Overlay(ZERO_BLOCK, k, a.inos[g.root].size, raw)
  {
    var size, k := a.inos[g.root].size, a.inos[g.root].size / BLKSZ;
    DirGrowth(size);
    assert NBlocks(size) == k && NBlocks(size + DENSZ) == k + 1;
    DirectBeyond(g, a.st, a.inos[g.root], k);
    assert b.inos[g.root] == root';
    CoreParts(g, a, b, g.root, size, raw);
    hide TreeInv, Overlay, WriteSafe, Used;
    assert HasBlock(g, b.st, b.inos[g.root], k);
    PtrInRange(g, b.st, b.inos, b.owner, g.root, LeafPath(k));
    assert BlockOf(g, b.st, b.inos[g.root], k) == Overlay(ZERO_BLOCK, k, size, raw);
  }

  /** Entry j of the new block is sixteen zero bytes. */
  lemma ZeroDent(g: Geo, st': seq<Block>, ino': Inode, st: seq<Block>, root': Inode, k: nat, raw: seq<u8>, j: nat)
    requires k < NDIRECT && g.FirstData() + root'.block[k] < |st| == |st'| && ino'.block == root'.block
    requires st'[g.FirstData() + root'.block[k]] == st[g.FirstData() + root'.block[k]] == Overlay(ZERO_BLOCK, k, k * BLKSZ, raw)
    requires |raw| == DENSZ && 1 <= j < DENTS_PER_BLOCK && ino'.size == (k + 1) * BLKSZ + DENSZ
    ensures 32 * k + j < |Dents(Contents(g, st', ino'))|
    ensures Dents(Contents(g, st', ino'))[32 * k + j] == ParseDent(Zeros(DENSZ))
  {
    NewBlockOf(g, st', ino', root', k, raw);
    hide Contents, Overlay, BlockOf, ParseDent;
    var c, lo := Contents(g, st', ino'), (32 * k + j) * DENSZ;
    var raw' := c[lo..lo + DENSZ];
    forall o | 0 <= o < DENSZ ensures raw'[o] == 0 {
      InNewBlock(k, j, o);
      ContentsAt(g, st', ino', lo + o);
      OverlayAt(ZERO_BLOCK, k, k * BLKSZ, raw, lo + o);
    }
    assert raw' == Zeros(DENSZ);
  }

  lemma InNewBlock(k: nat, j: nat, o: nat)
    requires 1 <= j < DENTS_PER_BLOCK && o < DENSZ
    ensures ((32 * k + j) * DENSZ + o) / BLKSZ == k && (32 * k + j) * DENSZ + o >= k * BLKSZ + DENSZ
    ensures (32 * k + j) * DENSZ + DENSZ <= (k + 1) * BLKSZ
  {
  }

  lemma NewBlockOf(g: Geo, st: seq<Block>, ino: Inode, root': Inode, k: nat, raw: seq<u8>)
    requires k < NDIRECT && g.FirstData() + root'.block[k] < |st| && ino.block == root'.block && ino.size == (k + 1) * BLKSZ + DENSZ
    requires st[g.FirstData() + root'.block[k]] == Overlay(ZERO_BLOCK, k, k * BLKSZ, raw)
    ensures BlockOf(g, st, ino, k) == Overlay(ZERO_BLOCK, k, k * BLKSZ, raw)
  {
    hide Overlay;
    assert NBlocks(ino.size) == k + 2;
  }

  /** A change past the end of a file changes no file. */
  lemma AllSameFrom(g: Geo, st: seq<Block>, st': seq<Block>, i: nat, pos: nat)
    requires GeoOk(g, st) && GeoOk(g, st') && i < g.Inodes() && OthersSame(g, st, st', i)
    requires pos == InodeAt(g, st, i).size && OutsideSame(g, st, st', i, pos, DENSZ)
    ensures AllSame(g, st, st')
  {
    hide InodeAt, BlockOf;
    assert Contents(g, st', InodeAt(g, st', i)) == Contents(g, st, InodeAt(g, st, i));
  }

  /** A create that stops before the root inode is written has changed no file. */
  lemma AppendAborted(g: Geo, a: Image, b: Image, data: seq<u8>)
    requires FsInv(g, a.st, a.owner) && a.inos == Table(g, a.st) && g.root < |a.inos| && |data| <= DENSZ
    requires WriteSafe(g, a, b, g.root, a.inos[g.root].size, data)
    ensures FsInv(g, b.st, b.owner) && AllSame(g, a.st, b.st)
  {
    hide InodeAt, WriteSafe, OthersSame, OutsideSame, AllSame;
    AbortedWrite(g, a, b, g.root, a.inos[g.root].size, data, DENSZ);
    assert a.inos[g.root] == InodeAt(g, a.st, g.root);
    AllSameFrom(g, a.st, b.st, g.root, a.inos[g.root].size);
  }

  /** The second half of ktfs_create: put the entry behind the last one and write the root inode back. The directory
      is one entry longer exactly when it did not end on a block boundary of the direct area; otherwise it is not
      well-formed any more. */
  method AppendDent(fs: Ktfs, inode: nat, name: seq<u8>) returns (rc: int)
    requires AtRest(fs) && inode < fs.geo.Inodes() <= 0x1_0000 && |name| <= NAMELEN
    requires InodeAt(fs.geo, fs.cache.store, fs.geo.root).size % DENSZ == 0
    modifies fs.cache, fs.cache.dev, fs`owner
    ensures fs.Ready() && fs.cache.held == multiset{}
    ensures rc == 0 || rc == -EIO || rc == -ENOMEM || rc == -EINVAL
    ensures rc != 0 ==> AtRest(fs) && AllSame(fs.geo, old(fs.cache.store), fs.cache.store)
    ensures rc == 0 ==> Appended(fs.geo, old(fs.cache.store), fs.cache.store, fs.owner, DentBytes(inode, name))
    ensures rc == -ENOMEM ==> UsedBelow(fs.geo, fs.cache.store, fs.geo.blockCount)
    ensures rc == -EINVAL ==> InodeAt(fs.geo, old(fs.cache.store), fs.geo.root).size / BLKSZ >= MAXBLOCKS
    ensures fs.cache.dev.healthy ==> rc != -EIO && (rc == 0 ==> fs.cache.dev.blocks == fs.cache.store)
  {
    hide Inv, FsInv, TreeInv, InodeAt, Used, UsedBelow, BlockOf, InodeStore, DentBytes, AllSame, WriteSafe, Wrote, Appended, DirSizeAfter;
    ghost var g, st := fs.geo, fs.cache.store;
    AllSameRefl(g, st);
    var ok, root := fs.ReadInode(fs.geo.root);
    if !ok {
      return -EIO;
    }
    ghost var a := Image(st, Table(g, st), fs.owner);
    var raw := DentBytes(inode, name);
    StartWrite(g, a, g.root, root.size);
    assert Shadow(root, root, root.size) == root && a.inos[g.root := root] == a.inos && raw[..0] == [] && raw[..DENSZ] == raw;
    DirGrowth(root.size);
    var root', n;
    rc, root', n := WriteChunk(fs, root, fs.geo.root, root.size, raw, 0, a);
    if rc != 0 {
      AppendAborted(g, a, View(fs, a.inos[g.root := Shadow(root, root', root.size)]), []);
      return;
    }
    SizeFits(root.size, root.size, DENSZ);
    rc := FinishAppend(fs, root, root', raw, a);
  }

  /** The root inode gets its new size, and everything goes to the device. */
  method FinishAppend(fs: Ktfs, ghost root: Inode, root': Inode, ghost raw: seq<u8>, ghost a: Image) returns (rc: int)
    requires fs.Ready() && fs.cache.held == multiset{} && FsInv(fs.geo, a.st, a.owner) && a.inos == Table(fs.geo, a.st)
    requires fs.geo.root < |a.inos| && a.inos[fs.geo.root] == root && root.size % DENSZ == 0 && |raw| == DENSZ
    requires NewSize(root.size, root.size, DENSZ) < TWO32
    requires Wrote(fs.geo, a, View(fs, a.inos[fs.geo.root := Shadow(root, root', root.size)]), root', fs.geo.root, root.size, raw)
    modifies fs.cache, fs.cache.dev
    ensures fs.Ready() && fs.cache.held == multiset{} && (rc == 0 || rc == -EIO)
    ensures rc != 0 ==> AtRest(fs) && AllSame(fs.geo, a.st, fs.cache.store)
    ensures rc == 0 ==> Appended(fs.geo, a.st, fs.cache.store, fs.owner, raw)
    ensures fs.cache.dev.healthy ==> rc != -EIO && (rc == 0 ==> fs.cache.dev.blocks == fs.cache.store)
  {
    hide Inv, FsInv, TreeInv, InodeAt, Used, BlockOf, InodeStore, AllSame, WriteSafe, Wrote, Appended, DirSizeAfter;
    ghost var g, b := fs.geo, View(fs, a.inos[fs.geo.root := Shadow(root, root', root.size)]);
    WroteSafe(g, a, b, root', g.root, root.size, raw);
    AppendAborted(g, a, b, raw);
    AppendFits(root.size, root'.size);
    var ok := fs.WriteInode(fs.geo.root, WithSize(root', root'.size + DENSZ));
    if !ok {
      return -EIO;
    }
    AppendDone(g, a, b, root', raw, fs.cache.store);
    var flushed := fs.cache.Flush();
    return 0;
  }

  lemma WroteSafe(g: Geo, a: Image, b: Image, ino: Inode, i: nat, pos: nat, data: seq<u8>)
    requires Wrote(g, a, b, ino, i, pos, data)
    ensures WriteSafe(g, a, b, i, pos, data) && ino.size == LoopSize(a.inos[i].size, pos, |data|)
  {
  }

  lemma AppendFits(size: nat, size': nat)
    requires size % DENSZ == 0 && size' == LoopSize(size, size, DENSZ) && NewSize(size, size, DENSZ) < TWO32
    ensures size' + DENSZ < TWO32 && size' + DENSZ == DirSizeAfter(size) && (Grows(size) ==> size + DENSZ < TWO32)
  {
    DirGrowth(size);
  }

  /** What appending an entry has done. */
  ghost predicate Appended(g: Geo, st: seq<Block>, st': seq<Block>, owner': map<nat, Node>, raw: seq<u8>)
    requires GeoOk(g, st) && GeoOk(g, st')
  {
    var r, r' := InodeAt(g, st, g.root), InodeAt(g, st', g.root);
    && OthersSame(g, st, st', g.root) && r'.size == DirSizeAfter(r.size)
    && if Grows(r.size) then FsInv(g, st', owner') && Contents(g, st', r') == Contents(g, st, r) + raw else !DirOk(g, st')
  }

  lemma AppendDone(g: Geo, a: Image, b: Image, root': Inode, raw: seq<u8>, st': seq<Block>)
    requires FsInv(g, a.st, a.owner) && a.inos == Table(g, a.st) && |raw| == DENSZ && g.root < |a.inos|
    requires a.inos[g.root].size % DENSZ == 0 && root'.size + DENSZ < TWO32 && root'.size + DENSZ == DirSizeAfter(a.inos[g.root].size)
    requires Grows(a.inos[g.root].size) ==> a.inos[g.root].size + DENSZ < TWO32
    requires Wrote(g, a, b, root', g.root, a.inos[g.root].size, raw)
    requires GeoOk(g, st') && st' == InodeStore(g, b.st, g.root, WithSize(root', root'.size + DENSZ))
    ensures Appended(g, a.st, st', b.owner, raw)
  {
    WroteSafe(g, a, b, root', g.root, a.inos[g.root].size, raw);
    OthersOfWrite(g, a, b, st', g.root, a.inos[g.root].size, raw, WithSize(root', root'.size + DENSZ));
    assert a.inos[g.root] == InodeAt(g, a.st, g.root);
    hide FsInv, InodeAt, Wrote, WriteSafe, LoopSize, Contents, OthersSame, InodeStore, DirOk;
    if Grows(a.inos[g.root].size) {
      DentAppended(g, a, b, root', raw, st');
    } else {
      BoundaryBroken(g, a, b, root', raw, st');
    }
  }

  lemma AllSameRefl(g: Geo, st: seq<Block>)
    requires GeoOk(g, st)
    ensures AllSame(g, st, st)
  {
  }

  lemma TableTree(g: Geo, st: seq<Block>, owner: map<nat, Node>)
    requires FsInv(g, st, owner)
    ensures TreeInv(g, st, Table(g, st), owner)
  {
  }

  /** No listed file looks like a free inode. */
  ghost predicate FilesInUse(g: Geo, st: seq<Block>)
    requires GeoOk(g, st)
  {
    forall j :: 0 <= j < |RootDents(g, st)| && RootDents(g, st)[j].inode < g.Inodes() ==>
      InodeAt(g, st, RootDents(g, st)[j].inode) != ZERO_INODE
  }

  lemma AllSameDents(g: Geo, st: seq<Block>, st': seq<Block>)
    requires GeoOk(g, st) && GeoOk(g, st') && AllSame(g, st, st')
    ensures RootDents(g, st') == RootDents(g, st) && DirOk(g, st') == DirOk(g, st)
  {
    hide InodeAt, Contents, Dents, Distinct, EntryFits;
  }

  /** Rewriting an inode with the value it has. */
  lemma RewriteSame(g: Geo, st: seq<Block>, owner: map<nat, Node>, i: nat)
    requires FsInv(g, st, owner) && i < g.Inodes()
    ensures FsInv(g, InodeStore(g, st, i, InodeAt(g, st, i)), owner) && AllSame(g, st, InodeStore(g, st, i, InodeAt(g, st, i)))
  {
    hide Used, TreeInv, Ptr, BlockOf, InodeAt, Full, Tidy, InodeStore;
    assert Table(g, st)[i := InodeAt(g, st, i)] == Table(g, st);
    InodeWritten(g, st, Table(g, st), owner, i, InodeAt(g, st, i));
  }

  lemma AllSameTrans(g: Geo, st: seq<Block>, st1: seq<Block>, st2: seq<Block>, i: nat)
    requires GeoOk(g, st) && GeoOk(g, st1) && GeoOk(g, st2) && AllSame(g, st, st1)
    ensures AllSame(g, st1, st2) ==> AllSame(g, st, st2)
    ensures OthersSame(g, st1, st2, i) ==> OthersSame(g, st, st2, i)
  {
    hide InodeAt, Contents;
  }

  /** No entry names this inode. */
  ghost predicate Unlisted(ds: seq<Dent>, inode: nat) {
    forall j :: 0 <= j < |ds| ==> ds[j].inode != inode
  }

  /** The directory with one more entry is well-formed exactly when its inode is in no other entry, given that its
      name is new. */
  lemma AppendKeepsDir(g: Geo, st: seq<Block>, st': seq<Block>, inode: nat, name: seq<u8>)
    requires GeoOk(g, st) && GeoOk(g, st') && DirOk(g, st)
    requires |name| <= NAMELEN && NoNul(name) && inode < g.Inodes() && inode != g.root && InodeAt(g, st, inode) == ZERO_INODE
    requires InodeAt(g, st', g.root).size == InodeAt(g, st, g.root).size + DENSZ
    requires Contents(g, st', InodeAt(g, st', g.root)) == Contents(g, st, InodeAt(g, st, g.root)) + DentBytes(inode, name)
    ensures RootDents(g, st') == RootDents(g, st) + [Dent(inode, name)]
    ensures Lookup(RootDents(g, st), name).None? ==> (DirOk(g, st') <==> Unlisted(RootDents(g, st), inode))
  {
    hide InodeAt, Contents, Dents, Lookup, ParseDent, DentBytes;
    var ds := RootDents(g, st);
    ParseOfBytes(inode, name);
    DentsAppend(Contents(g, st, InodeAt(g, st, g.root)), DentBytes(inode, name));
    var k := LookupFinds(ds, name);
    var ds' := ds + [Dent(inode, name)];
    assert ds'[|ds|] == Dent(inode, name);
    assert forall j :: 0 <= j < |ds| ==> ds'[j] == ds[j];
  }

  /** When no listed file is empty, a free inode is in no entry. */
  lemma InUseUnlisted(g: Geo, st: seq<Block>, inode: nat)
    requires GeoOk(g, st) && FilesInUse(g, st) && inode < g.Inodes() && InodeAt(g, st, inode) == ZERO_INODE
    ensures Unlisted(RootDents(g, st), inode)
  {
    hide InodeAt, Contents, Dents;
  }

  /** ktfs_create: the new entry names the first inode that looks free, and nothing else changes. The directory stays
      well-formed exactly when it did not end on a block boundary of the direct area and no entry names that inode
      already, as when no listed file is empty. Without device errors no second entry for a name can appear. */
  method Create(fs: Ktfs, name: seq<u8>) returns (rc: int)
    requires Mounted(fs) && NoNul(name)
    modifies fs.cache, fs.cache.dev, fs`owner
    ensures fs.Ready() && fs.cache.held == multiset{}
    ensures rc == 0 || rc == -EINVAL || rc == -ENOMEM || rc == -EIO
    ensures rc != 0 ==> AllSame(fs.geo, old(fs.cache.store), fs.cache.store) && Mounted(fs)
    ensures rc == 0 ==> 0 < |name| <= NAMELEN && OthersSame(fs.geo, old(fs.cache.store), fs.cache.store, fs.geo.root)
    ensures rc == 0 && old(RootGrows(fs.geo, fs.cache.store)) ==> AtRest(fs) && exists i :: Created(fs.geo, old(fs.cache.store), fs.cache.store, i, name)
    ensures rc == 0 && !old(RootGrows(fs.geo, fs.cache.store)) ==> !DirOk(fs.geo, fs.cache.store)
    ensures rc == 0 && old(RootGrows(fs.geo, fs.cache.store) && FilesInUse(fs.geo, fs.cache.store)) ==>
      old(Lookup(RootDents(fs.geo, fs.cache.store), name)).None? ==> Mounted(fs)
    ensures fs.cache.dev.healthy ==> (rc == -EINVAL <==>
      |name| == 0 || |name| > NAMELEN || old(Lookup(RootDents(fs.geo, fs.cache.store), name)).Some?)
    ensures fs.cache.dev.healthy ==> rc != -EIO && (rc == 0 ==> fs.cache.dev.blocks == fs.cache.store)
    ensures rc == -ENOMEM ==> NoFreeBelow(fs.geo, fs.cache.store, fs.geo.Inodes()) || UsedBelow(fs.geo, fs.cache.store, fs.geo.blockCount)
  {
    hide Inv, FsInv, InodeAt, InodeStore, AllSame, OthersSame, Lookup, FilesInUse, NoFreeBelow, UsedBelow, DirOk, Contents, Appended, Grows;
    ghost var g, st, own := fs.geo, fs.cache.store, fs.owner;
    AllSameRefl(g, st);
    var nlen := |name|;
    if nlen == 0 || nlen > NAMELEN {
      return -EINVAL;
    }
    var dup;
    rc, dup := FindDentry(fs, name);
    if rc == 0 {
      return -EINVAL;
    }
    var i;
    rc, i := FindFreeInode(fs);
    if rc != 0 {
      return;
    }
    RewriteSame(g, st, own, i);
    var ok := fs.WriteInode(i, ZERO_INODE);
    if !ok {
      return -EIO;
    }
    ghost var st1 := fs.cache.store;
    AllSameDents(g, st, st1);
    RootSame(g, st, st1);
    DirWhole(g, st);
    DirFits(g, st);
    rc := AppendDent(fs, i, name);
    AllSameTrans(g, st, st1, fs.cache.store, g.root);
    if rc != 0 {
      AllSameDents(g, st, fs.cache.store);
      return;
    }
    EntryCreated(g, st, st1, fs.cache.store, fs.owner, i, name);
  }

  predicate RootGrows(g: Geo, st: seq<Block>)
    requires GeoOk(g, st)
  {
    Grows(InodeAt(g, st, g.root).size)
  }

  /** The entry has been appended for inode i. */
  lemma EntryCreated(g: Geo, st: seq<Block>, st1: seq<Block>, st': seq<Block>, owner': map<nat, Node>, i: nat, name: seq<u8>)
    requires GeoOk(g, st) && GeoOk(g, st1) && GeoOk(g, st') && DirOk(g, st) && AllSame(g, st, st1)
    requires |name| <= NAMELEN && NoNul(name) && i < g.Inodes() && i != g.root && InodeAt(g, st, i) == ZERO_INODE && NoFreeBelow(g, st, i)
    requires Appended(g, st1, st', owner', DentBytes(i, name))
    ensures OthersSame(g, st, st', g.root)
    ensures RootGrows(g, st) ==> FsInv(g, st', owner') && Created(g, st, st', i, name)
    ensures !RootGrows(g, st) ==> !DirOk(g, st')
    ensures RootGrows(g, st) && FilesInUse(g, st) && Lookup(RootDents(g, st), name).None? ==> DirOk(g, st')
  {
    hide FsInv, InodeAt, AllSame, OthersSame, Lookup, FilesInUse, NoFreeBelow, DirOk, Contents, DentBytes, Grows;
    RootSame(g, st, st1);
    AllSameTrans(g, st, st1, st', g.root);
    DirWhole(g, st);
    DirGrowth(InodeAt(g, st, g.root).size);
    if RootGrows(g, st) {
      AppendKeepsDir(g, st, st', i, name);
      if FilesInUse(g, st) {
        InUseUnlisted(g, st, i);
      }
    }
  }

  /** A well-formed directory has at most as many entries as there are inodes, so it is far from the largest file. */
  lemma DirFits(g: Geo, st: seq<Block>)
    requires GeoOk(g, st) && DirOk(g, st)
    ensures InodeAt(g, st, g.root).size / BLKSZ < MAXBLOCKS
  {
    hide InodeAt, ParseDent;
    var ds := RootDents(g, st);
    forall j | 0 <= j < |ds| ensures ds[j].inode < 0x1_0000 {
      assert EntryFits(g, ds[j]);
    }
    FewDents(ds, 0x1_0000);
  }

  ghost predicate Created(g: Geo, st: seq<Block>, st': seq<Block>, i: nat, name: seq<u8>)
    requires GeoOk(g, st) && GeoOk(g, st')
  {
    && RootDents(g, st') == RootDents(g, st) + [Dent(i, name)]
    && i < g.Inodes() && i != g.root && InodeAt(g, st, i) == ZERO_INODE && NoFreeBelow(g, st, i)
    && (DirOk(g, st) && Lookup(RootDents(g, st), name).None? ==> (DirOk(g, st') <==> Unlisted(RootDents(g, st), i)))
  }

  /** A file that is still empty looks free: the next create gives its inode away again. */
  lemma EmptyFileReused(g: Geo, st: seq<Block>, st1: seq<Block>, st2: seq<Block>, i: nat, name: seq<u8>, i': nat, name': seq<u8>)
    requires GeoOk(g, st) && GeoOk(g, st1) && GeoOk(g, st2) && DirOk(g, st1)
    requires Created(g, st, st1, i, name) && OthersSame(g, st, st1, g.root)
    requires Created(g, st1, st2, i', name') && Lookup(RootDents(g, st1), name').None?
    ensures i' == i && !DirOk(g, st2)
  {
    hide InodeAt, Contents, Dents, Lookup, DirOk;
    assert InodeAt(g, st1, i) == ZERO_INODE;
    assert InodeAt(g, st, i') == ZERO_INODE;
    var ds := RootDents(g, st1);
    assert ds[|ds| - 1].inode == i;
  }

  lemma DirWhole(g: Geo, st: seq<Block>)
    requires GeoOk(g, st) && DirOk(g, st)
    ensures InodeAt(g, st, g.root).size % DENSZ == 0 && g.Inodes() <= 0x1_0000
  {
  }

  lemma RootSame(g: Geo, st: seq<Block>, st': seq<Block>)
    requires GeoOk(g, st) && GeoOk(g, st') && AllSame(g, st, st')
    ensures InodeAt(g, st', g.root) == InodeAt(g, st, g.root)
    ensures Contents(g, st', InodeAt(g, st', g.root)) == Contents(g, st, InodeAt(g, st, g.root))
  {
    hide InodeAt, Contents;
  }
}
