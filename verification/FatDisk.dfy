/** The volume at the byte level: sectors, the copies of the table, the clusters. */
module FatDisk {
  import opened Bytes
  import opened FatChains
  import opened FatLayout

  type Sector = s: seq<byte> | |s| == 512 witness seq(512, _ => 0)
  type Disk = seq<Sector>

  /** What mounting reads off the boot sector. */
  datatype Geometry = Geometry(
    base: nat,        // first sector of the partition
    fatStart: nat,
    dataStart: nat,
    root: nat,        // first cluster of the root directory
    spc: nat,         // sectors per cluster
    fatSize: nat,     // sectors per copy of the table
    numFats: nat,
    clusters: nat)    // data clusters, numbered from 2

  /** The geometry describes a disk of n sectors on which the driver's accesses stay in place. */
  ghost predicate GeoOk(g: Geometry, n: nat) {
    && 1 <= g.spc <= 8
    && 1 <= g.numFats
    && g.dataStart == g.fatStart + Times(g.numFats, g.fatSize)
    && g.clusters + 2 <= 128 * g.fatSize
    && g.clusters + 2 < EOC
    && 2 <= g.root < g.clusters + 2
    && DataEnd(g) <= n
  }

  /** The product, in a form whose monotonicity is all that most proofs need. */
  function Times(n: nat, k: nat): nat {
    if n == 0 then 0 else k + Times(n - 1, k)
  }

  lemma {:induction false} TimesMono(a: nat, b: nat, k: nat)
    requires a <= b
    ensures Times(a, k) <= Times(b, k)
    decreases b - a
  {
    if a < b {
      TimesMono(a, b - 1, k);
    }
  }

  lemma {:induction false} TimesProduct(n: nat, k: nat)
    ensures Times(n, k) == n * k
  {
    if n > 0 {
      TimesProduct(n - 1, k);
      assert n * k == k + (n - 1) * k;
    }
  }

  function ClusterBytes(g: Geometry): nat {
    g.spc * 512
  }

  // ---- entries of the table ----

  ghost function CopySector(g: Geometry, f: nat, s: nat): nat {
    g.base + g.fatStart + s + Times(f, g.fatSize)
  }

  ghost function EntrySector(g: Geometry, f: nat, c: nat): nat {
    CopySector(g, f, c * 4 / 512)
  }

  lemma SectorOfEntry(g: Geometry, f: nat, c: nat)
    ensures EntrySector(g, f, c) == g.base + (g.fatStart + c * 4 / 512) + f * g.fatSize
  {
    TimesProduct(f, g.fatSize);
  }

  lemma CopyBounds(g: Geometry, n: nat, f: nat, s: nat)
    requires GeoOk(g, n) && f < g.numFats && s < g.fatSize
    ensures g.base + g.fatStart <= CopySector(g, f, s) < g.base + g.dataStart <= n
  {
    TimesMono(f + 1, g.numFats, g.fatSize);
  }

  lemma CopyInjective(g: Geometry, f: nat, s: nat, f': nat, s': nat)
    requires s < g.fatSize && s' < g.fatSize
    requires CopySector(g, f, s) == CopySector(g, f', s')
    ensures f == f' && s == s'
  {
    if f < f' {
      TimesMono(f + 1, f', g.fatSize);
    } else if f' < f {
      TimesMono(f' + 1, f, g.fatSize);
    }
  }

  /** Entry c of copy f of the table, all 32 bits of it. */
  ghost function RawEntry(d: Disk, g: Geometry, f: nat, c: nat): nat
    requires GeoOk(g, |d|) && f < g.numFats && c < g.clusters + 2
  {
    CopyBounds(g, |d|, f, c * 4 / 512);
    Le32(d[EntrySector(g, f, c)], c * 4 % 512)
  }

  /** The table the driver goes by: the low 28 bits of the entries of the first copy. */
  ghost function Fat(d: Disk, g: Geometry): (fat: seq<nat>)
    requires GeoOk(g, |d|)
    ensures |fat| == g.clusters + 2
  {
    seq(g.clusters + 2, c requires 0 <= c < g.clusters + 2 => RawEntry(d, g, 0, c) % 0x1000_0000)
  }

  // ---- clusters ----

  ghost function Lba(g: Geometry, c: nat): nat
    requires c >= 2
  {
    g.base + g.dataStart + Times(c - 2, g.spc)
  }

  lemma LbaOfCluster(g: Geometry, c: nat)
    requires c >= 2
    ensures Lba(g, c) == g.base + (g.dataStart + (c - 2) * g.spc)
  {
    TimesProduct(c - 2, g.spc);
  }

  lemma LbaBounds(g: Geometry, n: nat, c: nat)
    requires GeoOk(g, n) && 2 <= c < g.clusters + 2
    ensures g.base + g.dataStart <= Lba(g, c) && Lba(g, c) + g.spc <= n
  {
    TimesMono(c - 1, g.clusters, g.spc);
  }

  lemma LbaApart(g: Geometry, c: nat, c': nat)
    requires 2 <= c < c'
    ensures Lba(g, c) + g.spc <= Lba(g, c')
  {
    TimesMono(c - 1, c' - 2, g.spc);
  }

  /** n sectors from lba, in one piece. */
  function ReadN(d: Disk, lba: nat, n: nat): (r: seq<byte>)
    requires lba + n <= |d|
    ensures |r| == n * 512
    decreases n
  {
    if n == 0 then [] else d[lba] + ReadN(d, lba + 1, n - 1)
  }

  /** Byte i of n sectors read one after the other is byte i % 512 of the sector i / 512 further on. */
  lemma {:induction false} ReadNBytes(d: Disk, lba: nat, n: nat, i: nat)
    requires lba + n <= |d| && i < 512 * n
    ensures |ReadN(d, lba, n)| == 512 * n && ReadN(d, lba, n)[i] == d[lba + i / 512][i % 512]
    decreases n
  {
    if i >= 512 {
      ReadNBytes(d, lba + 1, n - 1, i - 512);
      assert (i - 512) / 512 == i / 512 - 1 && (i - 512) % 512 == i % 512;
    }
  }

  function WriteN(d: Disk, lba: nat, n: nat, b: seq<byte>): (d': Disk)
    requires lba + n <= |d| && |b| == n * 512
    ensures |d'| == |d|
    ensures forall i :: 0 <= i < |d| && !(lba <= i < lba + n) ==> d'[i] == d[i]
    decreases n
  {
    if n == 0 then d
    else WriteN(d[lba := b[..512]], lba + 1, n - 1, b[512..])
  }

  lemma {:induction false} ReadFrame(d: Disk, d': Disk, lba: nat, n: nat)
    requires lba + n <= |d| == |d'|
    requires forall i :: lba <= i < lba + n ==> d'[i] == d[i]
    ensures ReadN(d', lba, n) == ReadN(d, lba, n)
    decreases n
  {
    if n > 0 {
      ReadFrame(d, d', lba + 1, n - 1);
    }
  }

  lemma {:induction false} ReadWritten(d: Disk, lba: nat, n: nat, b: seq<byte>)
    requires lba + n <= |d| && |b| == n * 512
    ensures ReadN(WriteN(d, lba, n, b), lba, n) == b
    decreases n
  {
    if n > 0 {
      var d1 := d[lba := b[..512]];
      ReadWritten(d1, lba + 1, n - 1, b[512..]);
      assert WriteN(d1, lba + 1, n - 1, b[512..])[lba] == d1[lba];
      assert b == b[..512] + b[512..];
    } else {
      assert b == [];
    }
  }

  ghost function Cluster(d: Disk, g: Geometry, c: nat): (r: seq<byte>)
    requires GeoOk(g, |d|) && 2 <= c < g.clusters + 2
    ensures |r| == ClusterBytes(g)
  {
    LbaBounds(g, |d|, c);
    ReadN(d, Lba(g, c), g.spc)
  }

  lemma ClusterFrame(d: Disk, d': Disk, g: Geometry, c: nat)
    requires GeoOk(g, |d|) && 2 <= c < g.clusters + 2 && |d'| == |d|
    requires forall i: nat :: Lba(g, c) <= i < Lba(g, c) + g.spc && i < |d| ==> d'[i] == d[i]
    ensures Cluster(d', g, c) == Cluster(d, g, c)
  {
    LbaBounds(g, |d|, c);
    ReadFrame(d, d', Lba(g, c), g.spc);
  }

  ghost function ViewOf(d: Disk, g: Geometry): (v: View)
    requires GeoOk(g, |d|)
    ensures Sized(v, ClusterBytes(g))
  {
    View(Fat(d, g),
         seq(g.clusters + 2, c requires 0 <= c < g.clusters + 2 => if c < 2 then [] else Cluster(d, g, c)))
  }

  // ---- writing one entry into every copy ----

  /** Where on the disk the view's table is: 128 entries in a sector, from the start of the first copy. */
  lemma TableOnDisk(d: Disk, g: Geometry, c: nat)
    requires GeoOk(g, |d|) && c < g.clusters + 2
    ensures var sector := g.base + g.fatStart + c * 4 / 512;
            sector < |d| && ViewOf(d, g).fat[c] == Le32(d[sector], c * 4 % 512) % 0x1000_0000
  {
    CopyBounds(g, |d|, 0, c * 4 / 512);
  }

  /** And where its clusters are: one after the other from cluster 2 on, each of so many sectors. */
  lemma ClusterOnDisk(d: Disk, g: Geometry, c: nat, i: nat, sector: nat)
    requires GeoOk(g, |d|) && 2 <= c < g.clusters + 2 && i < 512 * g.spc
    requires sector == g.base + g.dataStart + (c - 2) * g.spc + i / 512
    ensures |ViewOf(d, g).data[c]| == 512 * g.spc
    ensures sector < |d| && ViewOf(d, g).data[c][i] == d[sector][i % 512]
  {
    LbaBounds(g, |d|, c);
    LbaOfCluster(g, c);
    assert i / 512 < g.spc;
    ReadNBytes(d, Lba(g, c), g.spc, i);
  }

  ghost function Patched(s: Sector, off: nat, value: nat): Sector
    requires off + 4 <= 512
  {
    var old' := Le32(s, off);
    Store32(s, off, old' - old' % 0x1000_0000 + value % 0x1000_0000)
  }

  ghost predicate InCopies(g: Geometry, c: nat, i: nat, upTo: nat) {
    exists f: nat :: f < upTo && i == EntrySector(g, f, c)
  }

  /** The disk after entry c has been set to value in the first upTo copies. */
  ghost predicate EntrySet(d: Disk, d': Disk, g: Geometry, c: nat, value: nat, upTo: nat) {
    && |d'| == |d|
    && forall i: nat :: i < |d| ==>
         d'[i] == if InCopies(g, c, i, upTo) then Patched(d[i], c * 4 % 512, value) else d[i]
  }

  /** Writing the entry into one more copy. */
  lemma EntrySetNext(d: Disk, d1: Disk, d2: Disk, g: Geometry, c: nat, value: nat, f: nat)
    requires c * 4 % 512 <= 508 && c * 4 / 512 < g.fatSize && EntrySector(g, f, c) < |d|
    requires EntrySet(d, d1, g, c, value, f)
    requires d2 == d1[EntrySector(g, f, c) := Patched(d1[EntrySector(g, f, c)], c * 4 % 512, value)]
    ensures EntrySet(d, d2, g, c, value, f + 1)
  {
    var sec := EntrySector(g, f, c);
    if f': nat :| f' < f && sec == EntrySector(g, f', c) {
      CopyInjective(g, f, c * 4 / 512, f', c * 4 / 512);
    }
    forall i: nat | i < |d|
      ensures InCopies(g, c, i, f + 1) <==> InCopies(g, c, i, f) || i == sec
    {
      if InCopies(g, c, i, f) {
        var f': nat :| f' < f && i == EntrySector(g, f', c);
        assert f' < f + 1;
      }
    }
  }

  /**
    What every operation on the volume keeps of the disk besides what the view shows: the sectors
    outside the tables and the clusters, the reserved bits, and the agreement of the copies.
   */
  ghost predicate Kept(d: Disk, d': Disk, g: Geometry) {
    && GeoOk(g, |d|)
    && |d'| == |d|
    && OutsideKept(d, d', g.base + g.fatStart, DataEnd(g))
    && TopKept(d, d', g)
    && (Mirrored(d, g) ==> Mirrored(d', g))
  }

  /** Nothing is written outside the copies of the table and the clusters. */
  ghost predicate OutsideKept(d: Disk, d': Disk, lo: nat, hi: nat)
    requires |d'| == |d|
  {
    forall i :: 0 <= i < |d| && (i < lo || i >= hi) ==> d'[i] == d[i]
  }

  ghost function DataEnd(g: Geometry): nat {
    g.base + g.dataStart + Times(g.clusters, g.spc)
  }

  /** The reserved top four bits of every entry are as they were. */
  ghost predicate TopKept(d: Disk, d': Disk, g: Geometry)
    requires GeoOk(g, |d|) && |d'| == |d|
  {
    forall f: nat, c: nat :: f < g.numFats && c < g.clusters + 2
      ==> RawEntry(d', g, f, c) / 0x1000_0000 == RawEntry(d, g, f, c) / 0x1000_0000
  }

  /** All copies of the table are equal, sector for sector. */
  ghost predicate Mirrored(d: Disk, g: Geometry)
    requires GeoOk(g, |d|)
  {
    forall f: nat, s: nat :: f < g.numFats && s < g.fatSize ==>
      && CopySector(g, f, s) < |d| && CopySector(g, 0, s) < |d|
      && d[CopySector(g, f, s)] == d[CopySector(g, 0, s)]
  }

  lemma PatchedEntry(s: Sector, off: nat, value: nat, off': nat)
    requires off % 4 == 0 && off' % 4 == 0 && off + 4 <= 512 && off' + 4 <= 512
    ensures var raw := Le32(s, off');
            Le32(Patched(s, off, value), off') ==
              if off' == off then raw - raw % 0x1000_0000 + value % 0x1000_0000 else raw
  {
  }

  /** Only entry c changes, only its low 28 bits, and in every copy alike. */
  lemma RawAfterSet(d: Disk, d': Disk, g: Geometry, c: nat, value: nat, f: nat, e: nat)
    requires GeoOk(g, |d|) && EntrySet(d, d', g, c, value, g.numFats)
    requires c < g.clusters + 2 && f < g.numFats && e < g.clusters + 2
    ensures var raw := RawEntry(d, g, f, e);
            RawEntry(d', g, f, e) == if e == c then raw - raw % 0x1000_0000 + value % 0x1000_0000 else raw
  {
    CopyBounds(g, |d|, f, e * 4 / 512);
    InCopiesIff(g, c, f, e * 4 / 512);
    EntryOffset(c);
    EntryOffset(e);
    RawInSector(d[EntrySector(g, f, e)], d'[EntrySector(g, f, e)], c, value, e);
  }

  lemma EntryOffset(c: nat)
    ensures c * 4 % 512 % 4 == 0 && c * 4 % 512 <= 508
  {
    assert c * 4 == 512 * (c / 128) + 4 * (c % 128);
    assert c * 4 % 512 == 4 * (c % 128);
  }

  lemma RawInSector(s: Sector, s': Sector, c: nat, value: nat, e: nat)
    requires c * 4 % 512 <= 508 && e * 4 % 512 <= 508
    requires s' == if e * 4 / 512 == c * 4 / 512 then Patched(s, c * 4 % 512, value) else s
    ensures var raw := Le32(s, e * 4 % 512);
            Le32(s', e * 4 % 512) == if e == c then raw - raw % 0x1000_0000 + value % 0x1000_0000 else raw
  {
    if e * 4 / 512 == c * 4 / 512 {
      EntryOffset(c);
      EntryOffset(e);
      PatchedEntry(s, c * 4 % 512, value, e * 4 % 512);
    }
  }

  lemma SetData(d: Disk, d': Disk, g: Geometry, c: nat, value: nat)
    requires GeoOk(g, |d|) && EntrySet(d, d', g, c, value, g.numFats) && c < g.clusters + 2
    ensures forall i: nat :: i < |d| && (i < g.base + g.fatStart || i >= g.base + g.dataStart) ==> d'[i] == d[i]
  {
    forall i: nat | i < |d| && (i < g.base + g.fatStart || i >= g.base + g.dataStart)
      ensures d'[i] == d[i]
    {
      if InCopies(g, c, i, g.numFats) {
        var f: nat :| f < g.numFats && i == EntrySector(g, f, c);
        CopyBounds(g, |d|, f, c * 4 / 512);
      }
    }
  }

  lemma SameClusters(d: Disk, d': Disk, g: Geometry)
    requires GeoOk(g, |d|) && |d'| == |d|
    requires forall i: nat :: g.base + g.dataStart <= i < |d| ==> d'[i] == d[i]
    ensures ViewOf(d', g).data == ViewOf(d, g).data
  {
    forall e: nat | 2 <= e < g.clusters + 2
      ensures Cluster(d', g, e) == Cluster(d, g, e)
    {
      LbaBounds(g, |d|, e);
      ClusterFrame(d, d', g, e);
    }
  }

  lemma SetFat(d: Disk, d': Disk, g: Geometry, c: nat, value: nat)
    requires GeoOk(g, |d|) && EntrySet(d, d', g, c, value, g.numFats)
    requires c < g.clusters + 2
    ensures Fat(d', g) == Fat(d, g)[c := value % 0x1000_0000]
  {
    forall e: nat | e < g.clusters + 2
      ensures RawEntry(d', g, 0, e) % 0x1000_0000
              == if e == c then value % 0x1000_0000 else RawEntry(d, g, 0, e) % 0x1000_0000
    {
      RawAfterSet(d, d', g, c, value, 0, e);
      PatchedParts(RawEntry(d, g, 0, e), value);
    }
  }

  lemma SetView(d: Disk, d': Disk, g: Geometry, c: nat, value: nat)
    requires GeoOk(g, |d|) && EntrySet(d, d', g, c, value, g.numFats)
    requires c < g.clusters + 2
    ensures ViewOf(d', g) == ViewOf(d, g).(fat := ViewOf(d, g).fat[c := value % 0x1000_0000])
  {
    SetFat(d, d', g, c, value);
    SetData(d, d', g, c, value);
    SameClusters(d, d', g);
  }

  lemma SetMirrored(d: Disk, d': Disk, g: Geometry, c: nat, value: nat)
    requires GeoOk(g, |d|) && EntrySet(d, d', g, c, value, g.numFats)
    requires c < g.clusters + 2
    requires Mirrored(d, g)
    ensures Mirrored(d', g)
  {
    forall f: nat, s: nat | f < g.numFats && s < g.fatSize
      ensures CopySector(g, f, s) < |d| && CopySector(g, 0, s) < |d|
      ensures d'[CopySector(g, f, s)] == d'[CopySector(g, 0, s)]
    {
      CopyBounds(g, |d|, f, s);
      CopyBounds(g, |d|, 0, s);
      InCopiesIff(g, c, f, s);
      InCopiesIff(g, c, 0, s);
      assert d[CopySector(g, f, s)] == d[CopySector(g, 0, s)];
    }
  }

  lemma SetOutside(d: Disk, d': Disk, g: Geometry, c: nat, value: nat)
    requires GeoOk(g, |d|) && EntrySet(d, d', g, c, value, g.numFats) && c < g.clusters + 2
    ensures OutsideKept(d, d', g.base + g.fatStart, DataEnd(g))
  {
    SetData(d, d', g, c, value);
  }

  lemma SetTop(d: Disk, d': Disk, g: Geometry, c: nat, value: nat)
    requires GeoOk(g, |d|) && EntrySet(d, d', g, c, value, g.numFats)
    requires c < g.clusters + 2
    ensures TopKept(d, d', g)
  {
    forall f: nat, e: nat | f < g.numFats && e < g.clusters + 2
      ensures RawEntry(d', g, f, e) / 0x1000_0000 == RawEntry(d, g, f, e) / 0x1000_0000
    {
      RawAfterSet(d, d', g, c, value, f, e);
      PatchedParts(RawEntry(d, g, f, e), value);
    }
  }

  lemma PatchedParts(raw: nat, value: nat)
    ensures (raw - raw % 0x1000_0000 + value % 0x1000_0000) / 0x1000_0000 == raw / 0x1000_0000
    ensures (raw - raw % 0x1000_0000 + value % 0x1000_0000) % 0x1000_0000 == value % 0x1000_0000
  {
  }

  lemma SetKept(d: Disk, d': Disk, g: Geometry, c: nat, value: nat)
    requires GeoOk(g, |d|) && EntrySet(d, d', g, c, value, g.numFats)
    requires c < g.clusters + 2
    ensures Kept(d, d', g)
  {
    SetTop(d, d', g, c, value);
    SetOutside(d, d', g, c, value);
    if Mirrored(d, g) {
      SetMirrored(d, d', g, c, value);
    }
  }

  lemma InCopiesIff(g: Geometry, c: nat, f: nat, s: nat)
    requires f < g.numFats && s < g.fatSize && c * 4 / 512 < g.fatSize
    ensures InCopies(g, c, CopySector(g, f, s), g.numFats) <==> s == c * 4 / 512
  {
    if f': nat :| f' < g.numFats && CopySector(g, f, s) == EntrySector(g, f', c) {
      CopyInjective(g, f, s, f', c * 4 / 512);
    }
    if s == c * 4 / 512 {
      assert CopySector(g, f, s) == EntrySector(g, f, c);
    }
  }

  // ---- writing one cluster ----

  lemma WriteData(d: Disk, d': Disk, g: Geometry, c: nat, b: seq<byte>)
    requires GeoOk(g, |d|) && 2 <= c < g.clusters + 2
    requires |d'| == |d| && Lba(g, c) + g.spc <= |d| && ReadN(d', Lba(g, c), g.spc) == b
    requires forall i :: 0 <= i < |d| && !(Lba(g, c) <= i < Lba(g, c) + g.spc) ==> d'[i] == d[i]
    ensures ViewOf(d', g).data == ViewOf(d, g).data[c := b]
  {
    forall e: nat | 2 <= e < g.clusters + 2 && e != c
      ensures Cluster(d', g, e) == Cluster(d, g, e)
    {
      OtherCluster(d, d', g, c, e);
    }
    assert Cluster(d', g, c) == b;
  }

  lemma OtherCluster(d: Disk, d': Disk, g: Geometry, c: nat, e: nat)
    requires GeoOk(g, |d|) && 2 <= c < g.clusters + 2 && 2 <= e < g.clusters + 2 && e != c
    requires |d'| == |d| && Lba(g, c) + g.spc <= |d|
    requires forall i :: 0 <= i < |d| && !(Lba(g, c) <= i < Lba(g, c) + g.spc) ==> d'[i] == d[i]
    ensures Cluster(d', g, e) == Cluster(d, g, e)
  {
    if e < c { LbaApart(g, e, c); } else { LbaApart(g, c, e); }
    ClusterFrame(d, d', g, e);
  }

  lemma WriteView(d: Disk, g: Geometry, c: nat, b: seq<byte>)
    requires GeoOk(g, |d|) && 2 <= c < g.clusters + 2 && |b| == ClusterBytes(g)
    ensures Lba(g, c) + g.spc <= |d|
    ensures var d' := WriteN(d, Lba(g, c), g.spc, b);
            ViewOf(d', g) == ViewOf(d, g).(data := ViewOf(d, g).data[c := b])
  {
    LbaBounds(g, |d|, c);
    ReadWritten(d, Lba(g, c), g.spc, b);
    WriteData(d, WriteN(d, Lba(g, c), g.spc, b), g, c, b);
    WriteTable(d, WriteN(d, Lba(g, c), g.spc, b), g);
  }

  lemma WriteKept(d: Disk, g: Geometry, c: nat, b: seq<byte>)
    requires GeoOk(g, |d|) && 2 <= c < g.clusters + 2 && |b| == ClusterBytes(g)
    ensures Lba(g, c) + g.spc <= |d|
    ensures Kept(d, WriteN(d, Lba(g, c), g.spc, b), g)
  {
    LbaBounds(g, |d|, c);
    WriteTable(d, WriteN(d, Lba(g, c), g.spc, b), g);
    WriteOutside(d, g, c, b);
  }

  lemma WriteOutside(d: Disk, g: Geometry, c: nat, b: seq<byte>)
    requires 2 <= c < g.clusters + 2 && |b| == ClusterBytes(g) && Lba(g, c) + g.spc <= |d|
    requires g.fatStart <= g.dataStart
    ensures OutsideKept(d, WriteN(d, Lba(g, c), g.spc, b), g.base + g.fatStart, DataEnd(g))
  {
    LbaEnd(g, c);
  }

  lemma LbaEnd(g: Geometry, c: nat)
    requires 2 <= c < g.clusters + 2
    ensures Lba(g, c) + g.spc <= DataEnd(g)
  {
    TimesMono(c - 1, g.clusters, g.spc);
  }

  lemma WriteTable(d: Disk, d': Disk, g: Geometry)
    requires GeoOk(g, |d|) && |d'| == |d|
    requires forall i :: 0 <= i < g.base + g.dataStart ==> d'[i] == d[i]
    ensures Fat(d', g) == Fat(d, g)
    ensures forall f: nat, c: nat :: f < g.numFats && c < g.clusters + 2 ==>
              RawEntry(d', g, f, c) == RawEntry(d, g, f, c)
    ensures Mirrored(d, g) ==> Mirrored(d', g)
  {
    forall f: nat, c: nat | f < g.numFats && c < g.clusters + 2
      ensures RawEntry(d', g, f, c) == RawEntry(d, g, f, c)
    {
      CopyBounds(g, |d|, f, c * 4 / 512);
    }
    forall f: nat, s: nat | f < g.numFats && s < g.fatSize
      ensures CopySector(g, f, s) < g.base + g.dataStart && CopySector(g, 0, s) < g.base + g.dataStart
    {
      CopyBounds(g, |d|, f, s);
      CopyBounds(g, |d|, 0, s);
    }
  }

  // ---- the view, kept apart from the bytes it shows ----

  /** v is what the disk shows, entry for entry and cluster for cluster. */
  ghost predicate Shows(d: Disk, g: Geometry, v: View)
    requires GeoOk(g, |d|)
  {
    && |v.fat| == |v.data| == g.clusters + 2
    && v.data[0] == [] && v.data[1] == []
    && (forall c: nat {:trigger RawEntry(d, g, 0, c)} :: c < g.clusters + 2 ==>
          v.fat[c] == RawEntry(d, g, 0, c) % 0x1000_0000)
    && (forall c: nat {:trigger Cluster(d, g, c)} :: 2 <= c < g.clusters + 2 ==> v.data[c] == Cluster(d, g, c))
  }

  lemma ShowsView(d: Disk, g: Geometry, v: View)
    requires GeoOk(g, |d|)
    ensures Shows(d, g, v) <==> v == ViewOf(d, g)
  {
    if Shows(d, g, v) {
      forall c: nat | c < g.clusters + 2
        ensures v.fat[c] == RawEntry(d, g, 0, c) % 0x1000_0000
        ensures v.data[c] == if c < 2 then [] else Cluster(d, g, c)
      {
        if c >= 2 {
          assert v.data[c] == Cluster(d, g, c);
        }
      }
      assert v.fat == ViewOf(d, g).fat && v.data == ViewOf(d, g).data;
    }
  }

  /** The disk, its geometry and the view belong together, and nothing else changed since mounting. */
  ghost predicate Backed(d: Disk, g: Geometry, origin: Disk, v: View) {
    GeoOk(g, |d|) && Kept(origin, d, g) && Shows(d, g, v)
  }

}
