/** The root directory as a packed array of 16-byte entries, and as a finite map from names to inodes. */
module KtfsDir {
  import opened Base
  import opened Format

  /** A C string: the bytes in front of the first NUL. */
  function CStr(raw: seq<u8>): (s: seq<u8>)
    ensures |s| <= |raw|
    ensures forall k :: 0 <= k < |s| ==> s[k] == raw[k] && s[k] != 0
    ensures |s| < |raw| ==> raw[|s|] == 0
  {
    if raw == [] || raw[0] == 0 then [] else [raw[0]] + CStr(raw[1..])
  }

  predicate NoNul(s: seq<u8>) {
    forall k :: 0 <= k < |s| ==> s[k] != 0
  }

  /** Only one string fits a terminated buffer. */
  lemma CStrUnique(raw: seq<u8>, s: seq<u8>)
    requires NoNul(s) && |s| < |raw| && raw[..|s|] == s && raw[|s|] == 0
    ensures CStr(raw) == s
  {
    assert forall k :: 0 <= k < |s| ==> raw[..|s|][k] == s[k];
  }

  datatype Dent = Dent(inode: nat, name: seq<u8>)

  function ParseDent(raw: seq<u8>): Dent
    requires |raw| == DENSZ
  {
    Dent(raw[0] as nat + 0x100 * raw[1] as nat, CStr(raw[2..]))
  }

  function DentBytes(inode: nat, name: seq<u8>): (raw: seq<u8>)
    requires inode < 0x1_0000 && |name| <= NAMELEN
    ensures |raw| == DENSZ
  {
    [(inode % 0x100) as u8, (inode / 0x100) as u8] + name + Zeros(NAMELEN + 1 - |name|)
  }

  lemma ParseOfBytes(inode: nat, name: seq<u8>)
    requires inode < 0x1_0000 && |name| <= NAMELEN && NoNul(name)
    ensures ParseDent(DentBytes(inode, name)) == Dent(inode, name)
  {
    var raw := DentBytes(inode, name);
    assert raw[2..] == name + Zeros(NAMELEN + 1 - |name|);
    CStrUnique(raw[2..], name);
  }

  /** The entries of a directory file. */
  function Dents(c: seq<u8>): (ds: seq<Dent>)
    ensures |ds| == |c| / DENSZ
  {
    seq(|c| / DENSZ, j requires 0 <= j < |c| / DENSZ => ParseDent(c[j * DENSZ..j * DENSZ + DENSZ]))
  }

  lemma DentsAppend(c: seq<u8>, raw: seq<u8>)
    requires |c| % DENSZ == 0 && |raw| == DENSZ
    ensures Dents(c + raw) == Dents(c) + [ParseDent(raw)]
  {
    hide ParseDent;
    var ds := Dents(c + raw);
    forall j | 0 <= j < |ds| ensures ds[j] == (Dents(c) + [ParseDent(raw)])[j] {
      var lo := j * DENSZ;
      if j < |c| / DENSZ {
        assert (c + raw)[lo..lo + DENSZ] == c[lo..lo + DENSZ];
      } else {
        assert (c + raw)[lo..lo + DENSZ] == raw;
      }
    }
  }

  lemma DentsPrefix(c: seq<u8>, n: nat)
    requires n * DENSZ <= |c|
    ensures Dents(c[..n * DENSZ]) == Dents(c)[..n]
  {
    hide ParseDent;
    var ds := Dents(c[..n * DENSZ]);
    forall j | 0 <= j < n ensures ds[j] == Dents(c)[j] {
      assert c[..n * DENSZ][j * DENSZ..j * DENSZ + DENSZ] == c[j * DENSZ..j * DENSZ + DENSZ];
    }
  }

  /** Overwriting entry k changes that entry. */
  lemma DentsReplace(c: seq<u8>, c': seq<u8>, k: nat, raw: seq<u8>)
    requires |raw| == DENSZ && |c'| == |c| && k < |c| / DENSZ
    requires forall o :: 0 <= o < |c| ==> c'[o] == if k * DENSZ <= o < k * DENSZ + DENSZ then raw[o - k * DENSZ] else c[o]
    ensures Dents(c') == Dents(c)[k := ParseDent(raw)]
  {
    hide ParseDent;
    forall j | 0 <= j < |c| / DENSZ ensures Dents(c')[j] == Dents(c)[k := ParseDent(raw)][j] {
      var lo := j * DENSZ;
      if j == k {
        assert c'[lo..lo + DENSZ] == raw;
      } else {
        assert c'[lo..lo + DENSZ] == c[lo..lo + DENSZ];
      }
    }
  }

  // ---- the map ----

  ghost predicate Distinct(ds: seq<Dent>) {
    forall i, j :: 0 <= i < j < |ds| ==> ds[i].name != ds[j].name && ds[i].inode != ds[j].inode
  }

  ghost function InodesOf(ds: seq<Dent>): set<nat> {
    set j | 0 <= j < |ds| :: ds[j].inode
  }

  lemma {:induction false} InodesCount(ds: seq<Dent>)
    requires Distinct(ds)
    ensures |InodesOf(ds)| == |ds|
  {
    if ds != [] {
      var n := |ds| - 1;
      InodesCount(ds[..n]);
      assert InodesOf(ds) == InodesOf(ds[..n]) + {ds[n].inode};
    }
  }

  ghost function UpTo(n: nat): set<nat> {
    if n == 0 then {} else UpTo(n - 1) + {n - 1}
  }

  lemma {:induction false} UpToCount(n: nat)
    ensures |UpTo(n)| == n && forall i: nat :: i in UpTo(n) <==> i < n
  {
    if n > 0 {
      UpToCount(n - 1);
    }
  }

  lemma {:induction false} SubsetSize(a: set<nat>, b: set<nat>)
    requires a <= b
    ensures |a| <= |b|
  {
    assert b == a + (b - a);
  }

  /** Entries with different inodes below n are at most n. */
  lemma FewDents(ds: seq<Dent>, n: nat)
    requires Distinct(ds) && forall j :: 0 <= j < |ds| ==> ds[j].inode < n
    ensures |ds| <= n
  {
    InodesCount(ds);
    UpToCount(n);
    SubsetSize(InodesOf(ds), UpTo(n));
  }

  /** The inode of the first entry with this name. */
  function Lookup(ds: seq<Dent>, n: seq<u8>): Option<nat> {
    if ds == [] then None
    else if ds[0].name == n then Some(ds[0].inode)
    else Lookup(ds[1..], n)
  }

  lemma {:induction false} LookupAt(ds: seq<Dent>, k: nat)
    requires k < |ds| && forall j :: 0 <= j < k ==> ds[j].name != ds[k].name
    ensures Lookup(ds, ds[k].name) == Some(ds[k].inode)
  {
    if k > 0 {
      assert ds[1..][k - 1] == ds[k];
      LookupAt(ds[1..], k - 1);
    }
  }

  lemma {:induction false} LookupFinds(ds: seq<Dent>, n: seq<u8>) returns (k: nat)
    ensures Lookup(ds, n).Some? ==> k < |ds| && ds[k] == Dent(Lookup(ds, n).value, n)
    ensures Lookup(ds, n).None? ==> forall j :: 0 <= j < |ds| ==> ds[j].name != n
  {
    k := 0;
    if ds != [] && ds[0].name != n {
      k := LookupFinds(ds[1..], n);
      k := k + 1;
      assert forall j :: 1 <= j < |ds| ==> ds[j] == ds[1..][j - 1];
    }
  }

  /** Appending an entry adds a binding for its name, if the name had none. */
  lemma {:induction false} LookupAppend(ds: seq<Dent>, d: Dent, n: seq<u8>)
    ensures Lookup(ds + [d], n) == if Lookup(ds, n).None? && d.name == n then Some(d.inode) else Lookup(ds, n)
  {
    if ds != [] {
      assert (ds + [d])[1..] == ds[1..] + [d];
      LookupAppend(ds[1..], d, n);
    }
  }

  /** Removing entry k by moving the last entry into its place. */
  function SwapRemove(ds: seq<Dent>, k: nat): (r: seq<Dent>)
    requires k < |ds|
    ensures |r| == |ds| - 1
    ensures forall j :: 0 <= j < |r| ==> r[j] == ds[if j == k then |ds| - 1 else j]
  {
    ds[k := ds[|ds| - 1]][..|ds| - 1]
  }

  /** Swap-removal drops exactly the binding of entry k. */
  lemma LookupRemove(ds: seq<Dent>, k: nat, n: seq<u8>)
    requires Distinct(ds) && k < |ds|
    ensures Distinct(SwapRemove(ds, k))
    ensures Lookup(SwapRemove(ds, k), n) == if n == ds[k].name then None else Lookup(ds, n)
  {
    var ds', last := SwapRemove(ds, k), |ds| - 1;
    var j := LookupFinds(ds, n);
    var j' := LookupFinds(ds', n);
    if Lookup(ds, n).Some? && j != k {
      assert ds'[if j == last then k else j].name == n;
    }
    if Lookup(ds', n).Some? {
      LookupAt(ds, if j' == k then last else j');
    }
  }

  /** The directory as a finite map. */
  ghost function DirMap(ds: seq<Dent>): (m: map<seq<u8>, nat>)
    ensures forall n :: n in m ==> Lookup(ds, n) == Some(m[n])
    ensures forall n :: n !in m ==> Lookup(ds, n).None?
  {
    if ds == [] then map[] else DirMap(ds[1..])[ds[0].name := ds[0].inode]
  }

  lemma {:induction false} MapAppend(ds: seq<Dent>, d: Dent)
    requires d.name !in DirMap(ds)
    ensures DirMap(ds + [d]) == DirMap(ds)[d.name := d.inode]
  {
    if ds == [] {
      assert ds + [d] == [d] && [d][1..] == [];
    } else {
      assert (ds + [d])[1..] == ds[1..] + [d];
      MapAppend(ds[1..], d);
    }
  }

  lemma MapRemove(ds: seq<Dent>, k: nat)
    requires Distinct(ds) && k < |ds|
    ensures DirMap(SwapRemove(ds, k)) == DirMap(ds) - {ds[k].name}
  {
    hide Lookup, DirMap, SwapRemove, Distinct;
    var m, m' := DirMap(ds) - {ds[k].name}, DirMap(SwapRemove(ds, k));
    forall n ensures n in m <==> n in m' {
      LookupRemove(ds, k, n);
    }
    forall n | n in m ensures m[n] == m'[n] {
      LookupRemove(ds, k, n);
    }
  }
}
