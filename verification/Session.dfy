/** From the build tool through the kernel to the extraction tool. */
module Session {
  import opened Base
  import opened Format
  import opened BlockCache
  import opened KtfsTree
  import opened KtfsKernel
  import opened KtfsFiles
  import opened KtfsIo
  import opened KtfsDir
  import opened KtfsDirOps
  import opened KtfsRun
  import opened MkfsRoot
  import opened MkfsBuild
  import opened Unmkfs

  /** The kernel's client sees these files. */
  ghost predicate Shows(m: FileMap, files: seq<File>) {
    && AllAscii(files)
    && (forall i :: 0 <= i < |files| ==> HasFile(m, files[i]))
    && forall n :: n in m ==> exists i :: 0 <= i < |files| && Encode(files[i].name) == n
  }

  ghost predicate HasFile(m: FileMap, f: File)
    requires IsAscii(f.name)
  {
    Encode(f.name) in m && m[Encode(f.name)] == f.data
  }

  /** These files, under these names, are all there is; a name that is not ASCII is printed with replacements. */
  ghost predicate Lists(m: FileMap, names: seq<seq<u8>>, files: seq<File>) {
    && |names| == |files|
    && (forall i, j :: 0 <= i < j < |names| ==> names[i] != names[j])
    && (forall n :: n in m <==> n in names)
    && forall i :: 0 <= i < |files| ==> names[i] in m && files[i] == File(Decode(names[i]), m[names[i]])
  }

  /** What the kernel shows of a built image is what it was built from. */
  lemma BuiltShows(g: Geo, im: seq<Block>, files: seq<File>)
    requires Holds(g, im, files) && Nameable(files) && DistinctNames(files) && g.Inodes() <= 0x1_0000
    ensures Shows(Files(g, im), files)
  {
    hide FsInv, InodeAt, Contents, Dents, Lookup, DirBytes, Encode, IsAscii, Files, DirOk;
    BuiltDir(g, im, files);
    BuiltDents(g, im, files);
    forall i | 0 <= i < |files| ensures HasFile(Files(g, im), files[i]) {
      FilesAt(g, im, Encode(files[i].name));
    }
    forall n | n in Files(g, im) ensures exists i :: 0 <= i < |files| && Encode(files[i].name) == n {
      FilesAt(g, im, n);
      var k := LookupFinds(RootDents(g, im), n);
      assert RootDents(g, im)[k] == AsDent(Entries(files)[k]);
      assert Encode(files[k].name) == n;
    }
  }

  ghost function DentNames(g: Geo, st: seq<Block>): (names: seq<seq<u8>>)
    requires GeoOk(g, st)
    ensures |names| == |RootDents(g, st)|
  {
    seq(|RootDents(g, st)|, j requires 0 <= j < |RootDents(g, st)| => RootDents(g, st)[j].name)
  }

  /** What the extraction tool finds in a sound image is what the kernel shows. */
  lemma ExtractShows(g: Geo, st: seq<Block>, owner: map<nat, Node>)
    requires FsInv(g, st, owner) && DirOk(g, st)
    ensures SoundImage(g, st) && Lists(Files(g, st), DentNames(g, st), Extracted(g, st))
  {
    hide FsInv, InodeAt, Contents, RootDents, Lookup, Files, Whole, Decode;
    InRange(g, st, owner);
    var ds, names, m := RootDents(g, st), DentNames(g, st), Files(g, st);
    forall j | 0 <= j < |ds| ensures names[j] in m && Extracted(g, st)[j] == File(Decode(names[j]), m[names[j]]) {
      LookupAt(ds, j);
      FilesAt(g, st, names[j]);
      assert Listing(g, st)[j] == (ds[j].inode, Decode(ds[j].name));
    }
    forall n | n in m ensures n in names {
      FilesAt(g, st, n);
      var k := LookupFinds(ds, n);
      assert names[k] == n;
    }
  }

  lemma InRange(g: Geo, st: seq<Block>, owner: map<nat, Node>)
    requires FsInv(g, st, owner) && DirOk(g, st)
    ensures SoundImage(g, st)
  {
    hide InodeAt, Contents, RootDents, Whole, Decode, TreeInv, Full, Tidy;
    forall i: nat | i < g.Inodes() ensures Whole(g, st, InodeAt(g, st, i)) {
      SoundWhole(g, st, owner, i);
    }
    forall j | 0 <= j < |Listing(g, st)| ensures Listing(g, st)[j].0 < g.Inodes() {
      assert EntryFits(g, RootDents(g, st)[j]);
    }
  }

  /** Build an image from files, mount it, let a client work on it, write everything back and extract: what
      comes out is what the client's requests make of a map that starts with the files. */
  method BuildRunExtract(size: int, numInodes: int, files: seq<File>, ops: seq<Op>)
    returns (r: Option<seq<File>>, outs: seq<Outcome>, ghost ms: seq<FileMap>, ghost sts: seq<seq<Block>>, ghost names: seq<seq<u8>>)
    requires files != [] && Nameable(files) && DistinctNames(files) && numInodes <= 0x1_0000
    requires forall k :: 0 <= k < |ops| ==> NoNul(ops[k].name)
    ensures r.Some? <==> Fits(size, numInodes, files)
    ensures r.Some? ==> Trace(ms, ops, outs) && Shows(ms[0], files) && Lists(ms[|ops|], names, r.value)
    ensures r.Some? ==> |sts| == |ops| + 1 && forall k: nat :: k < |ops| ==> Explained(GeoFor(size, numInodes), ms, sts, ops, outs, k)
  {
    hide Fits, Holds, Inv, FsInv, DirOk, Shows, Lists, SoundImage, Clean, Files, DistinctNames, Nameable, Encode, IsAscii, Contents, Lookup, Explained, Follows;
    outs, ms, sts, names := [], [], [], [];
    var im := Build(size, numInodes, files);
    if im.None? {
      return None, outs, ms, sts, names;
    }
    ghost var g := BuiltGeo(size, numInodes, files);
    HoldsSuper(g, im.value, files);
    BuiltShows(g, im.value, files);
    var dev := new Device(true, im.value);
    var rc, fs := MountBuilt(dev, files, g);
    outs, ms, sts := Run(fs, ops);
    rc := fs.cache.Flush();
    names := DentNames(g, dev.blocks);
    ExtractShows(g, dev.blocks, fs.owner);
    r := Extract(dev.blocks);
  }

  lemma BuiltGeo(size: int, numInodes: int, files: seq<File>) returns (g: Geo)
    requires Fits(size, numInodes, files) && numInodes <= 0x1_0000
    ensures LayoutOk(size, numInodes) && size > 0 && numInodes > 0 && g == GeoFor(size, numInodes) && g.Inodes() <= 0x1_0000
  {
    g := GeoFor(size, numInodes);
  }
}
