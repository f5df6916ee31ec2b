/** The directory, inode table and superblock that finalize of tools/mkfs_ktfs.py writes last. */
module MkfsRoot {
  import opened Base
  import opened Format
  import opened KtfsTree
  import opened KtfsKernel
  import opened KtfsFiles
  import opened KtfsDir
  import opened MkfsTree

  predicate IsAscii(s: string) {
    forall k :: 0 <= k < |s| ==> s[k] as int < 128
  }

  /** str.encode("ascii") */
  function Encode(s: string): (b: seq<u8>)
    requires IsAscii(s)
    ensures |b| == |s|
  {
    seq(|s|, k requires 0 <= k < |s| => (s[k] as int) as u8)
  }

  /** bytes.decode("ascii", "replace") */
  function Decode(b: seq<u8>): (s: string)
    ensures |s| == |b|
  {
    seq(|b|, k requires 0 <= k < |b| => if b[k] < 128 then (b[k] as int) as char else '\U{FFFD}')
  }

  lemma DecodeEncode(s: string)
    requires IsAscii(s)
    ensures Decode(Encode(s)) == s
  {
  }

  /** An entry the directory can hold. */
  predicate Packable(d: (nat, string)) {
    d.0 < 0x1_0000 && |d.1| <= NAMELEN && IsAscii(d.1)
  }

  predicate AllPackable(ds: seq<(nat, string)>) {
    forall i :: 0 <= i < |ds| ==> Packable(ds[i])
  }

  /** A directory as bytes. */
  function DirBytes(ds: seq<(nat, string)>): (b: seq<u8>)
    requires AllPackable(ds)
    ensures |b| == |ds| * DENSZ
  {
    if ds == [] then []
    else DirBytes(ds[..|ds| - 1]) + DentBytes(ds[|ds| - 1].0, Encode(ds[|ds| - 1].1))
  }

  function AsDent(d: (nat, string)): Dent
    requires Packable(d)
  {
    Dent(d.0, Encode(d.1))
  }

  /** The directory reads back as the entries that were packed. */
  lemma {:induction false} DentsOfBytes(ds: seq<(nat, string)>)
    requires AllPackable(ds) && forall i :: 0 <= i < |ds| ==> NoNul(Encode(ds[i].1))
    ensures Dents(DirBytes(ds)) == seq(|ds|, i requires 0 <= i < |ds| => AsDent(ds[i]))
  {
    if ds != [] {
      var front, last := ds[..|ds| - 1], ds[|ds| - 1];
      assert Packable(last);
      DentsOfBytes(front);
      ParseOfBytes(last.0, Encode(last.1));
      DentsAppend(DirBytes(front), DentBytes(last.0, Encode(last.1)));
    }
  }

  /** Replacing bytes in place. */
  function Splice(s: seq<u8>, off: nat, d: seq<u8>): (r: seq<u8>)
    requires off + |d| <= |s|
    ensures |r| == |s|
  {
    s[..off] + d + s[off + |d|..]
  }

  lemma SpliceDent(a: seq<u8>, m: nat, inode: nat, name: seq<u8>)
    requires inode < 0x1_0000 && |name| <= NAMELEN && m >= DENSZ
    ensures Splice(Splice(a + Zeros(m), |a|, [(inode % 0x100) as u8, (inode / 0x100) as u8]), |a| + 2, name + [0]) ==
      a + DentBytes(inode, name) + Zeros(m - DENSZ)
  {
    var s := Splice(a + Zeros(m), |a|, [(inode % 0x100) as u8, (inode / 0x100) as u8]);
    assert s == a + [(inode % 0x100) as u8, (inode / 0x100) as u8] + Zeros(m - 2);
    assert Splice(s, |a| + 2, name + [0]) == a + [(inode % 0x100) as u8, (inode / 0x100) as u8] + name + [0] + Zeros(m - 3 - |name|);
    assert [0] + Zeros(m - 3 - |name|) == Zeros(NAMELEN + 1 - |name|) + Zeros(m - DENSZ);
  }

  /** The loop of finalize over the entries: it fails on a name that is not ASCII or an inode over 16 bits. */
  method PackDents(ds: seq<(nat, string)>, len: nat) returns (ok: bool, buf: seq<u8>)
    requires |ds| * DENSZ <= len && forall i :: 0 <= i < |ds| ==> |ds[i].1| <= NAMELEN
    ensures ok <==> AllPackable(ds)
    ensures ok ==> buf == DirBytes(ds) + Zeros(len - |ds| * DENSZ)
  {
    hide IsAscii, DentBytes, Splice, Encode;
    buf := Zeros(len);
    var i := 0;
    assert buf == DirBytes([]) + Zeros(len);
    while i < |ds|
      invariant 0 <= i <= |ds| && AllPackable(ds[..i])
      invariant buf == DirBytes(ds[..i]) + Zeros(len - i * DENSZ)
    {
      var (inode, name) := ds[i];
      if !IsAscii(name) || inode >= 0x1_0000 {
        assert !Packable(ds[i]);
        return false, buf;
      }
      SpliceDent(DirBytes(ds[..i]), len - i * DENSZ, inode, Encode(name));
      assert ds[..i + 1][..i] == ds[..i];
      buf := Splice(buf, i * DENSZ, [(inode % 0x100) as u8, (inode / 0x100) as u8]);
      buf := Splice(buf, i * DENSZ + 2, Encode(name) + [0]);
      i := i + 1;
    }
    assert ds[..|ds|] == ds;
    ok := true;
  }

  /** Block k of the padded directory. */
  lemma PaddedChunk(dir: seq<u8>, r: nat, k: nat)
    requires |dir| <= r * BLKSZ && k < r
    ensures (k + 1) * BLKSZ <= r * BLKSZ
    ensures (dir + Zeros(r * BLKSZ - |dir|))[k * BLKSZ..(k + 1) * BLKSZ] == Chunk(dir, k)
  {
  }

  /** The root inode of a directory of nd entries in blocks 0, 1 and 2. */
  function RootInode(nd: nat): Inode
    requires nd <= NDIRECT * DENTS_PER_BLOCK
  {
    var n := NBlocks(nd * DENSZ);
    Inode(nd * DENSZ, 0, [0, if n > 1 then 1 else 0, if n > 2 then 2 else 0], 0, [0, 0])
  }

  /** The root directory's own pointers. */
  lemma RootPtr(g: Geo, st: seq<Block>, nd: nat, p: Path)
    requires nd <= NDIRECT * DENTS_PER_BLOCK
    ensures Ptr(g, st, RootInode(nd), p) ==
      if p.Direct? && p.k < NBlocks(nd * DENSZ) then Some(p.k) else None
  {
  }

  /** The root directory in blocks 0, 1 and 2 reads as its bytes. */
  lemma RootContents(g: Geo, st: seq<Block>, nd: nat, dir: seq<u8>)
    requires nd <= NDIRECT * DENTS_PER_BLOCK && |dir| == nd * DENSZ && g.FirstData() + NBlocks(|dir|) <= |st|
    requires forall k: nat :: k < NBlocks(|dir|) ==> st[g.FirstData() + k] == Chunk(dir, k)
    ensures Full(g, st, RootInode(nd)) && Contents(g, st, RootInode(nd)) == dir
  {
    var ino := RootInode(nd);
    forall lb: nat | lb < NBlocks(|dir|)
      ensures HasBlock(g, st, ino, lb) && BlockOf(g, st, ino, lb) == Chunk(dir, lb)
    {
      RootPtr(g, st, nd, LeafPath(lb));
    }
    hide BlockOf, HasBlock, Chunk;
    forall o: nat | o < |dir| ensures Contents(g, st, ino)[o] == dir[o] {
      ContentsAt(g, st, ino, o);
      assert BlockOf(g, st, ino, o / BLKSZ) == Chunk(dir, o / BLKSZ);
      ChunkAt(dir, o);
    }
  }

  lemma ChunkAt(data: seq<u8>, o: nat)
    requires o < |data|
    ensures Chunk(data, o / BLKSZ)[o % BLKSZ] == data[o]
  {
    assert o / BLKSZ * BLKSZ + o % BLKSZ == o;
  }
}
