/** Whole runs of a client over a mounted file system. */
module KtfsRun {
  import opened Base
  import opened Format
  import opened BlockCache
  import opened KtfsTree
  import opened KtfsKernel
  import opened KtfsFiles
  import opened KtfsIo
  import opened KtfsDir
  import opened KtfsDirOps
  import opened KtfsDelete

  const MAX_OPEN: nat := 16

  /** The open-file slots. */
  class OpenSlots {
    var inUse: seq<bool>

    constructor ()
      ensures Valid() && forall i :: 0 <= i < MAX_OPEN ==> !inUse[i]
    {
      inUse := seq(MAX_OPEN, i => false);
    }

    predicate Valid()
      reads this
    {
      |inUse| == MAX_OPEN
    }

    /** The first slot that is not in use; MAX_OPEN when all are. */
    method FindFree() returns (slot: nat)
      requires Valid()
      ensures slot <= MAX_OPEN && (forall i :: 0 <= i < slot ==> inUse[i]) && (slot < MAX_OPEN ==> !inUse[slot])
    {
      slot := 0;
      while slot < MAX_OPEN
        invariant slot <= MAX_OPEN && forall i :: 0 <= i < slot ==> inUse[i]
      {
        if !inUse[slot] {
          return;
        }
        slot := slot + 1;
      }
    }

    /** ktfs_close */
    method Close(slot: nat)
      requires Valid() && slot < MAX_OPEN
      modifies this
      ensures Valid() && inUse == old(inUse)[slot := false]
    {
      inUse := inUse[slot := false];
    }
  }

  /** ktfs_open: the name leads to an inode, and the handle in the first free slot remembers its size. */
  method Open(fs: Ktfs, slots: OpenSlots, name: seq<u8>) returns (rc: int, f: OpenFile?, slot: nat)
    requires Mounted(fs) && NoNul(name) && slots.Valid()
    modifies fs.cache, fs.cache.dev, slots
    ensures Mounted(fs) && fs.cache.store == old(fs.cache.store) && slots.Valid()
    ensures (rc == 0 <==> f != null) && (rc == 0 || rc == -ENOENT || rc == -ENOMEM || rc == -EIO)
    ensures f != null ==> fresh(f) && Lookup(RootDents(fs.geo, fs.cache.store), name) == Some(f.inode)
    ensures f != null ==> f.inode < fs.geo.Inodes() && f.inode != fs.geo.root
    ensures f != null ==> f.size == InodeAt(fs.geo, fs.cache.store, f.inode).size
    ensures f != null ==> slot < MAX_OPEN && !old(slots.inUse)[slot] && slots.inUse == old(slots.inUse)[slot := true]
    ensures f != null ==> forall i :: 0 <= i < slot ==> old(slots.inUse)[i]
    ensures f == null ==> slots.inUse == old(slots.inUse)
    ensures rc == -ENOENT ==> Lookup(RootDents(fs.geo, fs.cache.store), name).None?
    ensures rc == -ENOMEM ==> Lookup(RootDents(fs.geo, fs.cache.store), name).Some? && forall i :: 0 <= i < MAX_OPEN ==> slots.inUse[i]
    ensures fs.cache.dev.healthy ==> rc != -EIO
  {
    hide Inv, FsInv, InodeAt, EntryFits, Lookup, Contents, Dents;
    var i;
    slot := 0;
    rc, i := FindDentry(fs, name);
    if rc != 0 {
      return rc, null, slot;
    }
    ghost var k := LookupFinds(RootDents(fs.geo, fs.cache.store), name);
    EntryInRange(fs.geo, fs.cache.store, k);
    slot := slots.FindFree();
    if slot == MAX_OPEN {
      return -ENOMEM, null, slot;
    }
    var ok, ino := fs.ReadInode(i);
    if !ok {
      return -EIO, null, slot;
    }
    slots.inUse := slots.inUse[slot := true];
    f := new OpenFile(i, ino.size);
    return 0, f, slot;
  }

  /** What a client may ask for. */
  datatype Op =
    | OpCreate(name: seq<u8>)
    | OpRead(name: seq<u8>, pos: nat, len: nat)
    | OpWrite(name: seq<u8>, pos: nat, data: seq<u8>)
    | OpDelete(name: seq<u8>)

  /** What came back: the result, and for a read the bytes. */
  datatype Outcome = Outcome(rc: int, bytes: seq<u8>)

  // ---- the file system as a map from names to bytes ----

  type FileMap = map<seq<u8>, seq<u8>>

  ghost function FileOf(g: Geo, st: seq<Block>, i: nat): seq<u8>
    requires GeoOk(g, st)
  {
    if i < g.Inodes() then Contents(g, st, InodeAt(g, st, i)) else []
  }

  /** What the image holds, for somebody who only sees names and bytes. */
  ghost function Files(g: Geo, st: seq<Block>): FileMap
    requires GeoOk(g, st)
  {
    var d := DirMap(RootDents(g, st));
    map n | n in d :: FileOf(g, st, d[n])
  }

  /** The file after a write that went through: the data, the old bytes around it, and zeros where the size was
      rounded up. Between the old end and a place further on in the same block anything may appear. */
  ghost predicate WroteTo(c: seq<u8>, pos: nat, data: seq<u8>, c': seq<u8>) {
    if data == [] then c' == c
    else
      && |c'| == NewSize(|c|, pos, |data|) && DataAt(c', pos, data)
      && forall o :: 0 <= o < |c'| && !(pos <= o < pos + |data|) ==>
           (o < |c| ==> c'[o] == c[o]) && (o >= |c| && o >= pos + |data| ==> c'[o] == 0)
  }

  function Slice(c: seq<u8>, pos: nat, len: nat): seq<u8> {
    if pos < |c| then c[pos..Min(pos + len, |c|)] else []
  }

  ghost predicate SameOutside(c: seq<u8>, c': seq<u8>, pos: nat, len: nat) {
    |c'| == |c| && forall o :: 0 <= o < |c| && !(pos <= o < pos + len) ==> c'[o] == c[o]
  }

  /** The directory ends on a block boundary of the direct area, or a file is still empty: a client that keeps the directory sound
      does not create now. */
  ghost predicate NoRoom(m: FileMap) {
    (|m| % DENTS_PER_BLOCK == 0 && |m| < NDIRECT * DENTS_PER_BLOCK) || exists n :: n in m && m[n] == []
  }

  /** One request on the map. A write that fails may have changed the bytes it was to write, and no others. */
  ghost predicate Follows(m: FileMap, op: Op, out: Outcome, m': FileMap) {
    match op
    case OpCreate(n) =>
      if out.rc == 0 then 0 < |n| <= NAMELEN && n !in m && m' == m[n := []]
      else m' == m && (out.rc == -ENOMEM || (out.rc == -EINVAL && (!(0 < |n| <= NAMELEN) || n in m || NoRoom(m))))
    case OpRead(n, pos, len) =>
      m' == m && if n in m then out == Outcome(|Slice(m[n], pos, len)|, Slice(m[n], pos, len)) else out.rc == -ENOENT
    case OpDelete(n) => out.rc == (if n in m then 0 else -ENOENT) && m' == m - {n}
    case OpWrite(n, pos, data) =>
      if out.rc >= 0 then
        && n in m && pos / BLKSZ <= NBlocks(|m[n]|) && out.rc == |data|
        && exists c :: WroteTo(m[n], pos, data, c) && m' == m[n := c]
      else if n in m then
        && (exists c :: SameOutside(m[n], c, pos, |data|) && m' == m[n := c])
        && (out.rc == -ENOMEM || (out.rc == -EINVAL && (pos / BLKSZ > NBlocks(|m[n]|) || pos + |data| > MAXBLOCKS * BLKSZ)))
      else out.rc == -ENOENT && m' == m
  }

  /** A whole run on the map. */
  ghost predicate Trace(ms: seq<FileMap>, ops: seq<Op>, outs: seq<Outcome>) {
    |ms| == |ops| + 1 && |outs| == |ops| && forall k :: 0 <= k < |ops| ==> Follows(ms[k], ops[k], outs[k], ms[k + 1])
  }

  lemma FilesAt(g: Geo, st: seq<Block>, n: seq<u8>)
    requires GeoOk(g, st)
    ensures n in Files(g, st) <==> Lookup(RootDents(g, st), n).Some?
    ensures n in Files(g, st) ==> Files(g, st)[n] == FileOf(g, st, Lookup(RootDents(g, st), n).value)
  {
    hide RootDents, FileOf, Lookup;
  }

  /** Two names never lead to the same inode, and none to the root. */
  lemma ListedApart(g: Geo, st: seq<Block>, n: seq<u8>, n': seq<u8>)
    requires GeoOk(g, st) && DirOk(g, st)
    requires Lookup(RootDents(g, st), n).Some? && Lookup(RootDents(g, st), n').Some?
    ensures Lookup(RootDents(g, st), n).value != g.root
    ensures n != n' ==> Lookup(RootDents(g, st), n).value != Lookup(RootDents(g, st), n').value
  {
    hide RootDents, Lookup, InodeAt;
    var k := LookupFinds(RootDents(g, st), n);
    var k' := LookupFinds(RootDents(g, st), n');
  }

  /** A write to file i shows in the map under its name only. */
  lemma WriteShows(g: Geo, st: seq<Block>, st': seq<Block>, name: seq<u8>, i: nat)
    requires GeoOk(g, st) && GeoOk(g, st') && DirOk(g, st) && OthersSame(g, st, st', i)
    requires Lookup(RootDents(g, st), name) == Some(i) && i < g.Inodes()
    ensures RootDents(g, st') == RootDents(g, st) && name in Files(g, st) && st'[0] == st[0]
    ensures Files(g, st') == Files(g, st)[name := Contents(g, st', InodeAt(g, st', i))]
  {
    hide DirOk, Contents, InodeAt, Dents, Files, Lookup;
    ListedApart(g, st, name, name);
    assert RootDents(g, st') == RootDents(g, st);
    FilesAt(g, st, name);
    FilesAt(g, st', name);
    forall n ensures n in Files(g, st) <==> n in Files(g, st') {
      FilesAt(g, st, n);
      FilesAt(g, st', n);
    }
    forall n | n in Files(g, st) && n != name ensures Files(g, st')[n] == Files(g, st)[n] {
      FilesAt(g, st, n);
      FilesAt(g, st', n);
      ListedApart(g, st, n, name);
    }
    assert Files(g, st').Keys == Files(g, st).Keys;
  }

  /** A created file shows as an empty one. */
  lemma CreateShows(g: Geo, st: seq<Block>, st': seq<Block>, name: seq<u8>, i: nat)
    requires GeoOk(g, st) && GeoOk(g, st') && DirOk(g, st) && OthersSame(g, st, st', g.root)
    requires Created(g, st, st', i, name) && Lookup(RootDents(g, st), name).None?
    ensures name !in Files(g, st) && Files(g, st') == Files(g, st)[name := []] && st'[0] == st[0]
  {
    hide DirOk, Contents, InodeAt, RootDents, Files, Lookup, NoFreeBelow, Unlisted;
    var ds := RootDents(g, st);
    FilesAt(g, st, name);
    forall n ensures n in Files(g, st') <==> n in Files(g, st) || n == name {
      LookupAppend(ds, Dent(i, name), n);
      FilesAt(g, st, n);
      FilesAt(g, st', n);
    }
    forall n | n in Files(g, st') ensures Files(g, st')[n] == if n == name then [] else Files(g, st)[n] {
      LookupAppend(ds, Dent(i, name), n);
      FilesAt(g, st, n);
      FilesAt(g, st', n);
      if n == name {
        assert Contents(g, st', ZERO_INODE) == [];
      } else {
        ListedApart(g, st, n, n);
      }
    }
    assert Files(g, st').Keys == Files(g, st)[name := []].Keys;
  }

  /** A deleted file is gone from the map. */
  lemma DeleteShows(g: Geo, st: seq<Block>, st': seq<Block>, name: seq<u8>, k: nat)
    requires GeoOk(g, st) && GeoOk(g, st') && DirOk(g, st) && Deleted(g, st, st', k, name)
    ensures name in Files(g, st) && Files(g, st') == Files(g, st) - {name} && st'[0] == st[0]
  {
    hide Contents, InodeAt, RootDents, Files, Lookup, SwapRemove;
    var ds := RootDents(g, st);
    LookupAt(ds, k);
    FilesAt(g, st, name);
    forall n ensures n in Files(g, st') <==> n in Files(g, st) && n != name {
      LookupRemove(ds, k, n);
      FilesAt(g, st, n);
      FilesAt(g, st', n);
    }
    forall n | n in Files(g, st') ensures Files(g, st')[n] == Files(g, st)[n] {
      LookupRemove(ds, k, n);
      FilesAt(g, st, n);
      FilesAt(g, st', n);
      ListedApart(g, st, n, name);
    }
    assert Files(g, st').Keys == (Files(g, st) - {name}).Keys;
  }

  lemma {:induction false} DirMapSize(ds: seq<Dent>)
    requires Distinct(ds)
    ensures |DirMap(ds)| == |ds|
  {
    hide Lookup;
    if ds != [] {
      DirMapSize(ds[1..]);
      var k := LookupFinds(ds[1..], ds[0].name);
    }
  }

  /** The guard of the client in terms of the map. */
  lemma NoRoomShows(g: Geo, st: seq<Block>)
    requires GeoOk(g, st) && DirOk(g, st)
    requires !RootGrows(g, st) || !FilesInUse(g, st)
    ensures NoRoom(Files(g, st))
  {
    hide InodeAt, Lookup, ParseDent;
    var ds := RootDents(g, st);
    if FilesInUse(g, st) {
      DirMapSize(ds);
      assert Files(g, st).Keys == DirMap(ds).Keys;
      BoundaryCount(InodeAt(g, st, g.root).size);
    } else {
      var j :| 0 <= j < |ds| && ds[j].inode < g.Inodes() && InodeAt(g, st, ds[j].inode) == ZERO_INODE;
      LookupAt(ds, j);
      FilesAt(g, st, ds[j].name);
      assert Contents(g, st, ZERO_INODE) == [];
      assert Files(g, st)[ds[j].name] == [];
    }
  }

  lemma BoundaryCount(size: nat)
    requires !Grows(size)
    ensures size / DENSZ % DENTS_PER_BLOCK == 0 && size / DENSZ < NDIRECT * DENTS_PER_BLOCK
  {
  }

  /** A call that leaves every file as it was leaves the map as it was. */
  lemma NothingShows(g: Geo, st: seq<Block>, st': seq<Block>)
    requires GeoOk(g, st) && GeoOk(g, st') && AllSame(g, st, st')
    ensures Files(g, st') == Files(g, st) && st'[0] == st[0]
  {
    hide Contents, InodeAt, Dents, Files, Lookup, DirOk;
    AllSameDents(g, st, st');
    forall n ensures (n in Files(g, st) <==> n in Files(g, st')) && (n in Files(g, st) ==> Files(g, st')[n] == Files(g, st)[n]) {
      FilesAt(g, st, n);
      FilesAt(g, st', n);
    }
    assert Files(g, st').Keys == Files(g, st).Keys;
  }

  /** The image is free of aliases, everything reachable is marked used, and block 0 is the root's. */
  ghost predicate Clean(g: Geo, st: seq<Block>)
    requires GeoOk(g, st)
  {
    NoAlias(g, st, Table(g, st)) && ReachableUsed(g, st, Table(g, st))
  }

  lemma MountedIsClean(g: Geo, st: seq<Block>, owner: map<nat, Node>)
    requires FsInv(g, st, owner)
    ensures Clean(g, st)
  {
    hide Used, Ptr, Full, Tidy, InodeAt;
    TreeInvMeaning(g, st, Table(g, st), owner);
  }

  /** Whether the directory does not end on a block boundary of the direct area and every listed file has content. */
  method MayCreate(fs: Ktfs) returns (may: bool)
    requires Mounted(fs)
    modifies fs.cache, fs.cache.dev
    ensures Mounted(fs) && fs.cache.store == old(fs.cache.store)
    ensures may ==> RootGrows(fs.geo, fs.cache.store) && FilesInUse(fs.geo, fs.cache.store)
    ensures fs.cache.dev.healthy && !may ==> !RootGrows(fs.geo, fs.cache.store) || !FilesInUse(fs.geo, fs.cache.store)
  {
    hide Inv, FsInv, InodeAt, EntryFits, Contents;
    var ok, root := fs.ReadInode(fs.geo.root);
    if !ok || (root.size % BLKSZ == 0 && root.size < NDIRECT * BLKSZ) {
      return false;
    }
    ghost var ds := RootDents(fs.geo, fs.cache.store);
    var j := 0;
    while j < root.size / DENSZ
      invariant 0 <= j <= |ds| && Mounted(fs) && fs.cache.store == old(fs.cache.store)
      invariant forall k :: 0 <= k < j && ds[k].inode < fs.geo.Inodes() ==> InodeAt(fs.geo, fs.cache.store, ds[k].inode) != ZERO_INODE
    {
      var used := EntryInUse(fs, root, j);
      if !used {
        return false;
      }
      j := j + 1;
    }
    return true;
  }

  method EntryInUse(fs: Ktfs, root: Inode, j: nat) returns (used: bool)
    requires Mounted(fs) && root == InodeAt(fs.geo, fs.cache.store, fs.geo.root) && (j + 1) * DENSZ <= root.size
    modifies fs.cache, fs.cache.dev
    ensures Mounted(fs) && fs.cache.store == old(fs.cache.store) && j < |RootDents(fs.geo, fs.cache.store)|
    ensures RootDents(fs.geo, fs.cache.store)[j].inode < fs.geo.Inodes()
    ensures used ==> InodeAt(fs.geo, fs.cache.store, RootDents(fs.geo, fs.cache.store)[j].inode) != ZERO_INODE
    ensures fs.cache.dev.healthy && !used ==> InodeAt(fs.geo, fs.cache.store, RootDents(fs.geo, fs.cache.store)[j].inode) == ZERO_INODE
  {
    hide Inv, FsInv, InodeAt, CStr, Contents;
    var rc, raw := ReadDent(fs, root, j);
    EntryInRange(fs.geo, fs.cache.store, j);
    if rc != 0 {
      return false;
    }
    var i := raw[0] as nat + 0x100 * raw[1] as nat;
    var ok, ino := fs.ReadInode(i);
    used := ok && ino != ZERO_INODE;
  }

  /** There is no inode, or no block, left. */
  ghost predicate Exhausted(g: Geo, st: seq<Block>, op: Op)
    requires GeoOk(g, st)
  {
    match op
    case OpCreate(_) => NoFreeBelow(g, st, g.Inodes()) || UsedBelow(g, st, g.blockCount)
    case OpWrite(_, _, _) => UsedBelow(g, st, g.blockCount)
    case _ => false
  }

  ghost function FilesNow(fs: Ktfs): FileMap
    requires fs.Ready()
    reads fs, fs.cache, fs.cache.dev
  {
    Files(fs.geo, fs.cache.store)
  }

  /** Create, unless the directory ends on a block boundary of the direct area or lists an empty file. */
  method CreateStep(fs: Ktfs, name: seq<u8>) returns (out: Outcome)
    requires Mounted(fs) && fs.cache.dev.healthy && NoNul(name)
    modifies fs.cache, fs.cache.dev, fs`owner
    ensures Mounted(fs) && Follows(old(FilesNow(fs)), OpCreate(name), out, FilesNow(fs))
    ensures fs.cache.store[0] == old(fs.cache.store)[0]
    ensures out.rc == -ENOMEM ==> Exhausted(fs.geo, fs.cache.store, OpCreate(name))
  {
    hide Inv, FsInv, InodeAt, DirOk, FilesInUse, Contents, AllSame, OthersSame, NoFreeBelow, Files, Lookup, Created, RootDents, RootGrows, UsedBelow;
    var may := MayCreate(fs);
    if !may {
      NoRoomShows(fs.geo, fs.cache.store);
      return Outcome(-EINVAL, []);
    }
    ghost var st := fs.cache.store;
    FilesAt(fs.geo, st, name);
    var rc := Create(fs, name);
    if rc == 0 {
      ghost var i :| Created(fs.geo, st, fs.cache.store, i, name);
      CreateShows(fs.geo, st, fs.cache.store, name, i);
    } else {
      NothingShows(fs.geo, st, fs.cache.store);
    }
    return Outcome(rc, []);
  }

  method DeleteStep(fs: Ktfs, name: seq<u8>) returns (out: Outcome)
    requires Mounted(fs) && fs.cache.dev.healthy && NoNul(name)
    modifies fs.cache, fs.cache.dev, fs`owner
    ensures Mounted(fs) && Follows(old(FilesNow(fs)), OpDelete(name), out, FilesNow(fs))
    ensures fs.cache.store[0] == old(fs.cache.store)[0]
    ensures out.rc == -ENOMEM ==> Exhausted(fs.geo, fs.cache.store, OpDelete(name))
  {
    hide Inv, FsInv, InodeAt, DirOk, Files, Lookup, Deleted, RootDents, FreedExactly;
    ghost var st := fs.cache.store;
    FilesAt(fs.geo, st, name);
    var rc := Delete(fs, name);
    if rc == 0 {
      ghost var k :| Deleted(fs.geo, st, fs.cache.store, k, name);
      DeleteShows(fs.geo, st, fs.cache.store, name, k);
    }
    return Outcome(rc, []);
  }

  method WriteStep(fs: Ktfs, name: seq<u8>, pos: nat, data: seq<u8>) returns (out: Outcome)
    requires Mounted(fs) && fs.cache.dev.healthy && NoNul(name)
    modifies fs.cache, fs.cache.dev, fs`owner
    ensures Mounted(fs) && Follows(old(FilesNow(fs)), OpWrite(name, pos, data), out, FilesNow(fs))
    ensures fs.cache.store[0] == old(fs.cache.store)[0]
    ensures out.rc == -ENOMEM ==> Exhausted(fs.geo, fs.cache.store, OpWrite(name, pos, data))
  {
    hide Inv, FsInv, InodeAt, DirOk, Contents, OthersSame, OutsideSame, Files, Lookup, RootDents, NewContents, NewSize, LoopSize, Completed, WroteTo, NoGap;
    ghost var st := fs.cache.store;
    FilesAt(fs.geo, st, name);
    var slots := new OpenSlots();
    assert !slots.inUse[0];
    var rc, f, slot := Open(fs, slots, name);
    if f == null {
      return Outcome(rc, []);
    }
    ghost var c := FileOf(fs.geo, st, f.inode);
    if pos / BLKSZ > NBlocks(f.size) || |data| > MAXBLOCKS * BLKSZ {
      assert Files(fs.geo, st) == Files(fs.geo, st)[name := c] && SameOutside(c, c, pos, |data|);
      return Outcome(-EINVAL, []);
    }
    assert pos + |data| <= WRAP_POS;
    rc := WriteAt(fs, f, pos, data);
    slots.Close(slot);
    NoBlockSkipped(fs.geo, st, f.inode, pos);
    WroteShows(fs.geo, st, fs.cache.store, fs.owner, f.inode, pos, data, rc);
    OthersKeepDir(fs.geo, st, fs.cache.store, f.inode);
    WriteShows(fs.geo, st, fs.cache.store, name, f.inode);
    ghost var c' := FileContents(fs, f.inode);
    if rc < 0 {
      OutsideBytes(fs.geo, st, fs.cache.store, f.inode, pos, |data|);
      assert SameOutside(c, c', pos, |data|);
    } else {
      WroteNothing(c, pos);
      assert WroteTo(c, pos, data, c');
    }
    return Outcome(rc, []);
  }

  lemma WroteNothing(c: seq<u8>, pos: nat)
    ensures WroteTo(c, pos, [], c)
  {
  }

  lemma NoBlockSkipped(g: Geo, st: seq<Block>, i: nat, pos: nat)
    requires GeoOk(g, st) && i < g.Inodes() && pos / BLKSZ <= NBlocks(InodeAt(g, st, i).size)
    ensures NoGap(g, st, InodeAt(g, st, i), pos)
  {
    hide InodeAt, HasBlock;
  }

  /** What a completed write without a gap shows. */
  lemma WroteShows(g: Geo, st: seq<Block>, st': seq<Block>, owner': map<nat, Node>, i: nat, pos: nat, data: seq<u8>, n: int)
    requires GeoOk(g, st) && GeoOk(g, st') && i < g.Inodes() && NoGap(g, st, InodeAt(g, st, i), pos)
    requires n == |data| > 0 ==> Completed(g, st, st', owner', i, pos, data)
    ensures n == |data| > 0 ==> FsInv(g, st', owner') && WroteTo(Contents(g, st, InodeAt(g, st, i)), pos, data, Contents(g, st', InodeAt(g, st', i)))
  {
    hide FsInv, InodeAt, NoGap, BlockOf;
    if n == |data| > 0 {
      var ino, size' := InodeAt(g, st, i), NewSize(InodeAt(g, st, i).size, pos, |data|);
      forall o: nat | o >= ino.size && pos + |data| <= o < size' ensures Raw(g, st, ino, size')[o] == 0 {
        RoundedZero(g, st, ino, pos, |data|, o);
        RawAt(g, st, ino, size', o);
      }
    }
  }

  /** Where a size was rounded up there was no block. */
  lemma RoundedZero(g: Geo, st: seq<Block>, ino: Inode, pos: nat, len: nat, o: nat)
    requires len > 0 && ino.size <= o && pos + len <= o < NewSize(ino.size, pos, len)
    ensures BlockOf(g, st, ino, o / BLKSZ)[o % BLKSZ] == 0
  {
    assert NBlocks(ino.size) <= o / BLKSZ < NDIRECT;
    DirectBeyond(g, st, ino, o / BLKSZ);
  }

  lemma OutsideBytes(g: Geo, st: seq<Block>, st': seq<Block>, i: nat, pos: nat, len: nat)
    requires GeoOk(g, st) && GeoOk(g, st') && i < g.Inodes() && OutsideSame(g, st, st', i, pos, len)
    ensures SameOutside(Contents(g, st, InodeAt(g, st, i)), Contents(g, st', InodeAt(g, st', i)), pos, len)
  {
    hide InodeAt;
  }

  method ReadStep(fs: Ktfs, name: seq<u8>, pos: nat, len: nat) returns (out: Outcome)
    requires Mounted(fs) && fs.cache.dev.healthy && NoNul(name)
    modifies fs.cache, fs.cache.dev, fs`owner
    ensures Mounted(fs) && Follows(old(FilesNow(fs)), OpRead(name, pos, len), out, FilesNow(fs))
    ensures fs.cache.store[0] == old(fs.cache.store)[0]
    ensures out.rc == -ENOMEM ==> Exhausted(fs.geo, fs.cache.store, OpRead(name, pos, len))
  {
    hide Inv, FsInv, InodeAt, DirOk, Contents, Files, Lookup, RootDents;
    FilesAt(fs.geo, fs.cache.store, name);
    var slots := new OpenSlots();
    assert !slots.inUse[0];
    var rc, f, slot := Open(fs, slots, name);
    if f == null {
      return Outcome(rc, []);
    }
    ghost var c := FileOf(fs.geo, fs.cache.store, f.inode);
    var buf := new u8[len](i => 0);
    var n := ReadAt(fs, f, pos, buf, len);
    slots.Close(slot);
    assert buf[..n] == Slice(c, pos, len);
    return Outcome(n, buf[..n]);
  }

  /** One request. Requests outside the limits of the write path are refused. */
  method Step(fs: Ktfs, op: Op) returns (out: Outcome)
    requires Mounted(fs) && fs.cache.dev.healthy && NoNul(op.name)
    modifies fs.cache, fs.cache.dev, fs`owner
    ensures Mounted(fs) && Follows(old(FilesNow(fs)), op, out, FilesNow(fs))
    ensures fs.cache.store[0] == old(fs.cache.store)[0]
    ensures out.rc == -ENOMEM ==> Exhausted(fs.geo, fs.cache.store, op)
  {
    hide Inv, FsInv, DirOk, Files, Follows;
    match op {
      case OpCreate(name) => out := CreateStep(fs, name);
      case OpRead(name, pos, len) => out := ReadStep(fs, name, pos, len);
      case OpWrite(name, pos, data) => out := WriteStep(fs, name, pos, data);
      case OpDelete(name) => out := DeleteStep(fs, name);
    }
  }

  /** The root directory survives a write to another file. */
  lemma OthersKeepDir(g: Geo, st: seq<Block>, st': seq<Block>, i: nat)
    requires GeoOk(g, st) && GeoOk(g, st') && i != g.root && DirOk(g, st) && OthersSame(g, st, st', i)
    ensures DirOk(g, st')
  {
    hide InodeAt, Contents, Dents, Distinct, EntryFits;
  }

  /** Request k left the image sts[k + 1], which shows the map ms[k + 1] and had no space left if the request failed for
      want of it. */
  ghost predicate Explained(g: Geo, ms: seq<FileMap>, sts: seq<seq<Block>>, ops: seq<Op>, outs: seq<Outcome>, k: nat)
    requires k < |ops| && |ops| < |ms| && |ops| < |sts| && |ops| <= |outs|
  {
    && GeoOk(g, sts[k + 1]) && ms[k + 1] == Files(g, sts[k + 1])
    && (outs[k].rc == -ENOMEM ==> Exhausted(g, sts[k + 1], ops[k]))
  }

  /** Every run: whatever the requests and however they end, allocation failures included, no block is ever
      reachable through two pointers, every reachable block is marked used, and block 0 stays the root's; and
      the requests had on names and bytes the effect they have on a map, failing for want of space only when the image
      had none left. */
  method Run(fs: Ktfs, ops: seq<Op>) returns (outs: seq<Outcome>, ghost ms: seq<FileMap>, ghost sts: seq<seq<Block>>)
    requires Mounted(fs) && fs.cache.dev.healthy && forall k :: 0 <= k < |ops| ==> NoNul(ops[k].name)
    modifies fs.cache, fs.cache.dev, fs`owner
    ensures Mounted(fs) && Clean(fs.geo, fs.cache.store) && fs.cache.store[0] == old(fs.cache.store)[0]
    ensures Trace(ms, ops, outs) && ms[0] == old(FilesNow(fs)) && ms[|ops|] == FilesNow(fs)
    ensures |sts| == |ops| + 1 && forall k: nat :: k < |ops| ==> Explained(fs.geo, ms, sts, ops, outs, k)
  {
    hide Inv, FsInv, DirOk, Clean, Files, Follows, Exhausted;
    outs, ms, sts := [], [FilesNow(fs)], [fs.cache.store];
    for k := 0 to |ops|
      invariant Mounted(fs) && fs.cache.store[0] == old(fs.cache.store)[0]
      invariant |outs| == k && |ms| == k + 1
      invariant ms[0] == old(FilesNow(fs)) && ms[k] == FilesNow(fs)
      invariant forall j :: 0 <= j < k ==> Follows(ms[j], ops[j], outs[j], ms[j + 1])
      invariant |sts| == k + 1 && forall j: nat :: j < k ==> Explained(fs.geo, ms, sts, ops[..k], outs, j)
    {
      ghost var outs0, ms0, sts0, done := outs, ms, sts, ops[..k + 1];
      var out := Step(fs, ops[k]);
      outs := outs + [out];
      ms := ms + [FilesNow(fs)];
      sts := sts + [fs.cache.store];
      forall j: nat | j < k + 1 ensures Explained(fs.geo, ms, sts, done, outs, j) {
        if j < k {
          assert Explained(fs.geo, ms0, sts0, ops[..k], outs0, j);
        }
      }
    }
    assert ops[..|ops|] == ops;
    MountedIsClean(fs.geo, fs.cache.store, fs.owner);
  }

  /** Requests that leave the file alone. */
  predicate LeavesAlone(op: Op, n: seq<u8>) {
    op.name != n || op.OpRead?
  }

  lemma {:induction false} StaysPut(ms: seq<FileMap>, ops: seq<Op>, outs: seq<Outcome>, i: nat, j: nat, n: seq<u8>)
    requires Trace(ms, ops, outs) && i <= j <= |ops| && n in ms[i]
    requires forall k :: i <= k < j ==> LeavesAlone(ops[k], n)
    ensures n in ms[j] && ms[j][n] == ms[i][n]
    decreases j - i
  {
    if i < j {
      assert Follows(ms[i], ops[i], outs[i], ms[i + 1]) && LeavesAlone(ops[i], n);
      StaysPut(ms, ops, outs, i + 1, j, n);
    }
  }

  /** What was written is what is read, whatever happens to other files in between. */
  lemma ReadBack(ms: seq<FileMap>, ops: seq<Op>, outs: seq<Outcome>, i: nat, j: nat)
    requires Trace(ms, ops, outs) && i < j < |ops| && ops[i].OpWrite? && outs[i].rc >= 0
    requires ops[j] == OpRead(ops[i].name, ops[i].pos, |ops[i].data|)
    requires forall k :: i < k < j ==> LeavesAlone(ops[k], ops[i].name)
    ensures outs[j].bytes == ops[i].data
  {
    hide NewSize;
    var n, pos, data := ops[i].name, ops[i].pos, ops[i].data;
    assert Follows(ms[i], ops[i], outs[i], ms[i + 1]) && Follows(ms[j], ops[j], outs[j], ms[j + 1]);
    StaysPut(ms, ops, outs, i + 1, j, n);
    var c := ms[j][n];
    assert data != [] ==> DataAt(c, pos, data);
  }
}
