/** The mounted volume and the primitives every operation is built from. */
module FatVolume {
  import opened Bytes
  import opened FatChains
  import opened FatLayout
  import opened FatDisk

  class Volume {
    var disk: Disk
    var mounted: bool
    var g: Geometry
    ghost var view: View    // what the disk shows
    ghost var origin: Disk  // the disk as it was when mounted

    ghost predicate Ready()
      reads this
    {
      && mounted
      && Sized(view, ClusterBytes(g))
      && |view.fat| == g.clusters + 2
      && Backed(disk, g, origin, view)
    }

    method FatGet(c: nat) returns (v: nat)
      requires Ready() && c < g.clusters + 2
      ensures v == view.fat[c]
    {
      var fatOffset := c * 4;
      var fatSector := g.fatStart + fatOffset / 512;
      var entOffset := fatOffset % 512;
      CopyBounds(g, |disk|, 0, fatOffset / 512);
      assert view.fat[c] == RawEntry(disk, g, 0, c) % 0x1000_0000;
      v := Le32(disk[g.base + fatSector], entOffset) % 0x1000_0000;
    }

    method FatSet(c: nat, value: nat)
      requires Ready() && c < g.clusters + 2
      modifies this`disk, this`view
      ensures Ready()
      ensures view == old(view).(fat := old(view).fat[c := value % 0x1000_0000])
      ensures value < 0x1000_0000 ==> view == old(view).(fat := old(view).fat[c := value])
    {
      var f := 0;
      while f < g.numFats
        invariant 0 <= f <= g.numFats && view == old(view)
        invariant EntrySet(old(disk), disk, g, c, value, f)
      {
        ghost var d1 := disk;
        SetInCopy(f, c, value);
        EntryOffset(c);
        EntrySetNext(old(disk), d1, disk, g, c, value, f);
        f := f + 1;
      }
      assert value < 0x1000_0000 ==> value % 0x1000_0000 == value;
      view := view.(fat := view.fat[c := value % 0x1000_0000]);
      SetDone(origin, old(disk), disk, g, c, value, old(view), view);
    }

    static lemma SetDone(origin: Disk, d: Disk, d': Disk, g: Geometry, c: nat, value: nat, v: View, v': View)
      requires Backed(d, g, origin, v) && EntrySet(d, d', g, c, value, g.numFats) && c < g.clusters + 2
      requires |v.fat| == g.clusters + 2 && v' == v.(fat := v.fat[c := value % 0x1000_0000])
      ensures Backed(d', g, origin, v')
    {
      SetView(d, d', g, c, value);
      SetKept(d, d', g, c, value);
      KeptTrans(origin, d, d', g);
      ShowsView(d, g, v);
      ShowsView(d', g, v');
    }

    /** One round of FatSet: the entry in copy f, its top four bits kept. */
    method SetInCopy(f: nat, c: nat, value: nat)
      requires GeoOk(g, |disk|) && f < g.numFats && c < g.clusters + 2
      modifies this`disk
      ensures EntrySector(g, f, c) < |old(disk)|
      ensures disk == old(disk)[EntrySector(g, f, c) := Patched(old(disk)[EntrySector(g, f, c)], c * 4 % 512, value)]
    {
      var fatOffset := c * 4;
      var fatSector := g.fatStart + fatOffset / 512;
      var entOffset := fatOffset % 512;
      SectorOfEntry(g, f, c);
      CopyBounds(g, |disk|, f, fatOffset / 512);
      var sec := g.base + fatSector + f * g.fatSize;
      var prev := Le32(disk[sec], entOffset);
      var neu := prev - prev % 0x1000_0000 + value % 0x1000_0000;
      disk := disk[sec := Store32(disk[sec], entOffset, neu)];
    }

    /** First free cluster, marked as a chain of its own; 0 when none is free. */
    method AllocCluster() returns (r: nat)
      requires Ready()
      modifies this`disk, this`view
      ensures Ready()
      ensures r == 0 ==> FreeSet(view.fat) == {} && disk == old(disk) && view == old(view)
      ensures r != 0 ==>
                && InFat(old(view).fat, r) && old(view).fat[r] == 0
                && (forall c :: 2 <= c < r ==> old(view).fat[c] != 0)
                && view == old(view).(fat := old(view).fat[r := END_MARK])
                && FreeSet(view.fat) == FreeSet(old(view).fat) - {r}
    {
      var c := 2;
      while c < g.clusters + 2
        invariant 2 <= c <= g.clusters + 2
        invariant disk == old(disk) && view == old(view)
        invariant forall x :: 2 <= x < c ==> view.fat[x] != 0
      {
        var e := FatGet(c);
        if e == 0 {
          FatSet(c, END_MARK);
          return c;
        }
        c := c + 1;
      }
      r := 0;
    }

    method ReadCluster(c: nat) returns (buf: seq<byte>)
      requires Ready() && 2 <= c < g.clusters + 2
      ensures buf == view.data[c]
    {
      LbaBounds(g, |disk|, c);
      LbaOfCluster(g, c);
      assert view.data[c] == Cluster(disk, g, c);
      buf := ReadN(disk, g.base + (g.dataStart + (c - 2) * g.spc), g.spc);
    }

    method WriteCluster(c: nat, buf: seq<byte>)
      requires Ready() && 2 <= c < g.clusters + 2 && |buf| == ClusterBytes(g)
      modifies this`disk, this`view
      ensures Ready()
      ensures view == old(view).(data := old(view).data[c := buf])
    {
      WriteDone(origin, disk, g, c, buf, view);
      LbaOfCluster(g, c);
      disk := WriteN(disk, g.base + (g.dataStart + (c - 2) * g.spc), g.spc, buf);
      view := view.(data := view.data[c := buf]);
    }

    static lemma WriteDone(origin: Disk, d: Disk, g: Geometry, c: nat, b: seq<byte>, v: View)
      requires Backed(d, g, origin, v) && 2 <= c < g.clusters + 2 && |b| == ClusterBytes(g)
      requires |v.data| == g.clusters + 2
      ensures Lba(g, c) + g.spc <= |d|
      ensures Backed(WriteN(d, Lba(g, c), g.spc, b), g, origin, v.(data := v.data[c := b]))
    {
      WriteView(d, g, c, b);
      WriteKept(d, g, c, b);
      var d' := WriteN(d, Lba(g, c), g.spc, b);
      KeptTrans(origin, d, d', g);
      ShowsView(d, g, v);
      ShowsView(d', g, v.(data := v.data[c := b]));
    }

    static lemma KeptTrans(a: Disk, b: Disk, c: Disk, g: Geometry)
      requires Kept(a, b, g) && Kept(b, c, g)
      ensures Kept(a, c, g)
    {
    }

    /**
      Frees what can be reached from c. The table may hold anything elsewhere, and may even loop back:
      every round either zeroes an entry or stops at one that is zero already.
     */
    method FreeChain(c: nat)
      requires Ready()
      requires 2 <= c < EOC ==> c < g.clusters + 2
      requires forall d: nat :: Reach(view.fat, c, d) && d < |view.fat| ==>
                 view.fat[d] < g.clusters + 2 || view.fat[d] >= EOC
      modifies this`disk, this`view
      ensures Ready()
      ensures view.data == old(view).data
      ensures forall d: nat :: d < g.clusters + 2 ==>
                view.fat[d] == if Reach(old(view).fat, c, d) then 0 else old(view).fat[d]
    {
      ghost var fat := view.fat;
      ghost var z: set<nat> := {};
      var cluster: nat := c;
      if InFat(fat, c) { ReachSelf(fat, c); }
      while 2 <= cluster < EOC
        invariant Ready()
        invariant view.data == old(view).data && view.fat == ZeroAll(fat, z)
        invariant Freeing(fat, c, cluster, z)
        decreases |UsedSet(view.fat)|, if 2 <= cluster < EOC then 1 else 0
      {
        FreeingStep(fat, c, cluster, z);
        var next := FatGet(cluster);
        FreeingMeasure(view.fat, cluster);
        FatSet(cluster, 0);
        z := z + {cluster};
        cluster := next;
      }
      FreeingDone(fat, c, cluster, z);
    }
  }
}
