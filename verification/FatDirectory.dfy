/** The root directory: scanning it for a name or for room, and growing it. */
module FatDirectory {
  import opened Bytes
  import opened FatChains
  import opened FatLayout
  import opened FatDisk
  import opened FatSteps
  import opened FatVolume

  /** The volume is mounted and L is its layout. */
  ghost predicate Good(vol: Volume, L: Layout)
    reads vol
  {
    vol.Ready() && Lays(vol.view, vol.g.root, L)
  }

  ghost function FilesOf(vol: Volume, L: Layout): map<Key, Entry>
    requires Good(vol, L)
    reads vol
  {
    Files(vol.view, vol.g.root, L)
  }

  ghost function RootSlots(vol: Volume, L: Layout): seq<Slot>
    requires Good(vol, L)
    reads vol
  {
    Slots(vol.view.data, L.root)
  }

  predicate Reusable(e: Slot) {
    e[0] == 0 || e[0] == DELETED
  }

  predicate Matches(e: Slot, want: Key) {
    Live(e) && Name(e) == want
  }

  // ---- scanning one cluster of the root directory ----

  datatype Scan = Match(o: nat) | Unused(o: nat) | Deleted(o: nat) | Nothing

  /**
    One cluster's part of find_slot_in_root. `found` says that a slot to reuse is known already; then
    only a match ends the scan. Otherwise the first reusable entry is reported, at once if unused.
   */
  method ScanCluster(buf: seq<byte>, want: Key, found: bool) returns (r: Scan)
    ensures ScanOf(Split(buf), want, found, r)
  {
    ghost var s := Split(buf);
    var o := 0;
    r := Nothing;
    while 32 * o + 32 <= |buf|
      invariant 0 <= o <= |s|
      invariant r.Nothing? || r.Deleted?
      invariant forall k :: 0 <= k < o ==> !Matches(s[k], want)
      invariant r.Deleted? ==> !found && r.o < o && s[r.o][0] == DELETED && forall k :: 0 <= k < r.o ==> !Reusable(s[k])
      invariant r.Nothing? && !found ==> forall k :: 0 <= k < o ==> !Reusable(s[k])
    {
      var e: Slot := buf[32 * o..32 * o + 32];
      assert e == s[o];
      var first := e[0];
      if first != 0 && first != DELETED && e[11] != ATTR_LFN && e[11] / 8 % 2 == 0 {
        if e[..11] == want {
          return Match(o);
        }
      }
      if !found && r.Nothing? && (first == 0 || first == DELETED) {
        if first == 0 {
          return Unused(o);
        }
        r := Deleted(o);
      }
      o := o + 1;
    }
  }

  // ---- looking a name up ----

  /** iterate_dir with find_cb, one cluster: the matching entry, or an unused entry that ends the directory. */
  method LookCluster(buf: seq<byte>, want: Key) returns (r: Scan)
    ensures r.Match? || r.Unused? || r.Nothing?
    ensures r.Match? ==> r.o < |Split(buf)| && Matches(Split(buf)[r.o], want)
    ensures !r.Match? ==> forall k :: 0 <= k < (if r.Unused? then r.o else |Split(buf)|) && k < |Split(buf)|
                            ==> !Matches(Split(buf)[k], want)
    ensures r.Unused? ==> r.o < |Split(buf)| && Split(buf)[r.o][0] == 0
  {
    ghost var s := Split(buf);
    var o := 0;
    while 32 * o + 32 <= |buf|
      invariant 0 <= o <= |s|
      invariant forall k :: 0 <= k < o ==> !Matches(s[k], want)
    {
      var e: Slot := buf[32 * o..32 * o + 32];
      assert e == s[o];
      if e[0] == 0 {
        return Unused(o);
      }
      if e[0] != DELETED && e[11] != ATTR_LFN && e[11] / 8 % 2 == 0 && e[..11] == want {
        return Match(o);
      }
      o := o + 1;
    }
    r := Nothing;
  }

  lemma NotNamed(v: View, root: nat, L: Layout, want: Key)
    requires Lays(v, root, L)
    requires forall k :: 0 <= k < |L.files| ==> !Matches(Slots(v.data, L.root)[k], want)
    ensures want !in Files(v, root, L)
  {
    if want in Files(v, root, L) {
      var i := FilesFrom(v, root, L, -1, want);
      assert Matches(Slots(v.data, L.root)[i], want);
    }
  }

  /** In a proper chain the entry of the j-th cluster is the next cluster, or an end mark at the end. */
  lemma ChainNext(fat: seq<nat>, c: nat, ch: seq<nat>, j: nat)
    requires |fat| < EOC && IsChain(fat, c, ch) && j < |ch|
    ensures InFat(fat, ch[j])
    ensures if j == |ch| - 1 then fat[ch[j]] >= EOC else fat[ch[j]] == ch[j + 1] && InFat(fat, ch[j + 1])
  {
    ChainSuffix(fat, c, ch, j);
    if j < |ch| - 1 {
      ChainSuffix(fat, c, ch, j + 1);
      assert ch[j..][1..] == ch[j + 1..];
    }
  }

  // ---- finding the entry of a name, or room for one ----

  /** No entry can be reused: a new name needs another root cluster. */
  ghost predicate RootFull(slots: seq<Slot>) {
    forall k :: 0 <= k < |slots| ==> slots[k][0] != 0 && slots[k][0] != 0xE5
  }

  /** Links a zeroed cluster behind the last root cluster; false when no cluster is free. */
  method GrowRoot(vol: Volume, last: nat, ghost L: Layout) returns (nc: nat, ghost L': Layout)
    requires Good(vol, L) && L.root != [] && last == L.root[|L.root| - 1]
    requires RootFull(RootSlots(vol, L))
    modifies vol`disk, vol`view
    ensures vol.Ready()
    ensures nc == 0 ==> vol.disk == old(vol.disk) && vol.view == old(vol.view) && FreeSet(vol.view.fat) == {}
    ensures nc != 0 ==>
              && Good(vol, L') && FilesOf(vol, L') == old(FilesOf(vol, L))
              && Foreign(vol.view, L') == old(Foreign(vol.view, L)) && ForeignKept(old(vol.view), L, vol.view)
              && |FreeSet(vol.view.fat)| == |FreeSet(old(vol.view).fat)| - 1
              && RootSlots(vol, L') == old(RootSlots(vol, L)) + Split(Zeros(ClusterBytes(vol.g)))
              && L' == GrownLayout(L, nc, ClusterBytes(vol.g))
              && At(vol.view, L', |L.files|, |L.root|, 0)
  {
    L' := L;
    ghost var v0 := vol.view;
    nc := vol.AllocCluster();
    if nc == 0 {
      return;
    }
    GrowSlots(v0, vol.g.root, L, nc, ClusterBytes(vol.g));
    GrowKeeps(v0, vol.g.root, L, nc, ClusterBytes(vol.g));
    vol.FatSet(last, nc);
    vol.WriteCluster(nc, Zeros(ClusterBytes(vol.g)));
    assert vol.view == Grown(v0, L, nc, ClusterBytes(vol.g));
    assert last in L.root && Owned(L, last);
    L' := GrownLayout(L, nc, ClusterBytes(vol.g));
    GrownAt(v0, vol.view, L, nc, ClusterBytes(vol.g));
  }

  lemma GrownAt(v: View, v': View, L: Layout, nc: nat, cb: nat)
    requires InData(v.data, L.root) && InData(v'.data, L.root + [nc])
    requires cb >= 32 && nc < |v'.data| && |v'.data[nc]| == cb
    requires Slots(v'.data, L.root + [nc]) == Slots(v.data, L.root) + Split(Zeros(cb))
    requires |L.files| == |Slots(v.data, L.root)|
    ensures At(v', GrownLayout(L, nc, cb), |L.files|, |L.root|, 0)
  {
    SlotsAt(v'.data, L.root + [nc], |L.root|);
    assert (L.root + [nc])[|L.root| + 1..] == [];
  }

  /** Where a scan of the root clusters before the jj-th one stands. */
  ghost predicate Scanned(v: View, L: Layout, want: Key, jj: nat, found: bool, cluster: nat, o: nat, i: nat, j: nat)
    requires InData(v.data, L.root)
  {
    && jj < |L.root|
    && InData(v.data, L.root[..jj])
    && var s, n := Slots(v.data, L.root), |Slots(v.data, L.root[..jj])|;
    && n <= |s|
    && (forall k :: 0 <= k < n ==> !Matches(s[k], want))
    && (found ==> At(v, L, i, j, o) && cluster == L.root[j] && i < |s| && s[i][0] == DELETED
                  && forall k :: 0 <= k < i ==> !Reusable(s[k]))
    && (!found ==> forall k :: 0 <= k < n ==> !Reusable(s[k]))
  }

  /** What find_slot_in_root hands back: the place of a root entry. */
  datatype Place = Place(cluster: nat, o: nat)

  /** The named entry; or a place for it; or, when there is none, the last cluster scanned. */
  datatype RootScan = Here(p: Place, e: Slot) | Room(p: Place) | Full(last: nat)

  ghost predicate ScanDone(v: View, L: Layout, want: Key, r: RootScan, i: nat, j: nat)
    requires InData(v.data, L.root)
  {
    var s := Slots(v.data, L.root);
    match r
    case Here(p, e) =>
      At(v, L, i, j, p.o) && p.cluster == L.root[j] && i < |s| && e == s[i] && Matches(e, want)
    case Room(p) =>
      && At(v, L, i, j, p.o) && p.cluster == L.root[j] && i < |s|
      && Reusable(s[i]) && (forall k :: 0 <= k < i ==> !Reusable(s[k]))
      && forall k :: 0 <= k < (if s[i][0] == 0 then i else |s|) ==> !Matches(s[k], want)
    case Full(last) =>
      && L.root != [] && last == L.root[|L.root| - 1]
      && RootFull(s) && forall k :: 0 <= k < |s| ==> !Matches(s[k], want)
  }

  /** What ScanCluster promises of the entries b. */
  ghost predicate ScanOf(b: seq<Slot>, want: Key, found: bool, r: Scan) {
    && (r.Match? ==> r.o < |b| && Matches(b[r.o], want))
    && (!r.Match? ==> forall k :: 0 <= k < (if r.Unused? then r.o else |b|) && k < |b| ==> !Matches(b[k], want))
    && (r.Unused? || r.Deleted? ==> && !found && r.o < |b| && b[r.o][0] == (if r.Unused? then 0 else DELETED)
                                    && forall k :: 0 <= k < r.o ==> !Reusable(b[k]))
    && (r.Nothing? && !found ==> forall k :: 0 <= k < |b| ==> !Reusable(b[k]))
  }

  /** The scan result of the jj-th cluster, in terms of the whole directory. */
  lemma ScanStep(v: View, L: Layout, want: Key, jj: nat, found: bool, p: Place, i: nat, j: nat, r: Scan)
    requires InData(v.data, L.root)
    requires Scanned(v, L, want, jj, found, p.cluster, p.o, i, j)
    requires ScanOf(Split(v.data[L.root[jj]]), want, found, r)
    ensures InData(v.data, L.root[..jj])
    ensures var n, here, last := |Slots(v.data, L.root[..jj])|, L.root[jj], jj + 1 == |L.root|;
            match r
            case Match(o) => ScanDone(v, L, want, Here(Place(here, o), Split(v.data[here])[o]), n + o, jj)
            case Unused(o) => ScanDone(v, L, want, Room(Place(here, o)), n + o, jj)
            case Deleted(o) =>
              if last then ScanDone(v, L, want, Room(Place(here, o)), n + o, jj)
              else Scanned(v, L, want, jj + 1, true, here, o, n + o, jj)
            case Nothing =>
              if last then ScanDone(v, L, want, if found then Room(p) else Full(here), i, j)
              else Scanned(v, L, want, jj + 1, found, p.cluster, p.o, i, j)
  {
    if r.Match? || r.Unused? {
      ScanHit(v, L, want, jj, found, p, i, j, r);
    } else if jj + 1 == |L.root| {
      ScanLast(v, L, want, jj, found, p, i, j, r);
    } else {
      ScanOn(v, L, want, jj, found, p, i, j, r);
    }
  }

  lemma ScanHit(v: View, L: Layout, want: Key, jj: nat, found: bool, p: Place, i: nat, j: nat, r: Scan)
    requires InData(v.data, L.root)
    requires Scanned(v, L, want, jj, found, p.cluster, p.o, i, j)
    requires ScanOf(Split(v.data[L.root[jj]]), want, found, r)
    requires r.Match? || r.Unused?
    ensures InData(v.data, L.root[..jj])
    ensures var n, here := |Slots(v.data, L.root[..jj])|, L.root[jj];
            if r.Match? then ScanDone(v, L, want, Here(Place(here, r.o), Split(v.data[here])[r.o]), n + r.o, jj)
            else ScanDone(v, L, want, Room(Place(here, r.o)), n + r.o, jj)
  {
    SlotsAt(v.data, L.root, jj);
    var s, q, b := Slots(v.data, L.root), Slots(v.data, L.root[..jj]), Split(v.data[L.root[jj]]);
    assert forall k :: 0 <= k < |q| ==> s[k] == q[k];
    assert forall k :: |q| <= k < |q| + |b| ==> s[k] == b[k - |q|];
  }

  lemma ScanLast(v: View, L: Layout, want: Key, jj: nat, found: bool, p: Place, i: nat, j: nat, r: Scan)
    requires InData(v.data, L.root)
    requires Scanned(v, L, want, jj, found, p.cluster, p.o, i, j)
    requires ScanOf(Split(v.data[L.root[jj]]), want, found, r)
    requires r.Deleted? || r.Nothing?
    requires jj + 1 == |L.root|
    ensures InData(v.data, L.root[..jj])
    ensures var n, here := |Slots(v.data, L.root[..jj])|, L.root[jj];
            if r.Deleted? then ScanDone(v, L, want, Room(Place(here, r.o)), n + r.o, jj)
            else ScanDone(v, L, want, if found then Room(p) else Full(here), i, j)
  {
    SlotsAt(v.data, L.root, jj);
    var s, q, b := Slots(v.data, L.root), Slots(v.data, L.root[..jj]), Split(v.data[L.root[jj]]);
    assert forall k :: 0 <= k < |q| ==> s[k] == q[k];
    assert forall k :: |q| <= k < |q| + |b| ==> s[k] == b[k - |q|];
    assert L.root[jj + 1..] == [];
  }

  lemma ScanOn(v: View, L: Layout, want: Key, jj: nat, found: bool, p: Place, i: nat, j: nat, r: Scan)
    requires InData(v.data, L.root)
    requires Scanned(v, L, want, jj, found, p.cluster, p.o, i, j)
    requires ScanOf(Split(v.data[L.root[jj]]), want, found, r)
    requires r.Deleted? || r.Nothing?
    requires jj + 1 < |L.root|
    ensures InData(v.data, L.root[..jj])
    ensures var n, here := |Slots(v.data, L.root[..jj])|, L.root[jj];
            if r.Deleted? then Scanned(v, L, want, jj + 1, true, here, r.o, n + r.o, jj)
            else Scanned(v, L, want, jj + 1, found, p.cluster, p.o, i, j)
  {
    SlotsAt(v.data, L.root, jj);
    var s, q, b := Slots(v.data, L.root), Slots(v.data, L.root[..jj]), Split(v.data[L.root[jj]]);
    assert forall k :: 0 <= k < |q| ==> s[k] == q[k];
    assert forall k :: |q| <= k < |q| + |b| ==> s[k] == b[k - |q|];
  }

  lemma UnusedEnds(v: View, root: nat, L: Layout, want: Key, i: nat)
    requires Lays(v, root, L) && i < |L.files|
    requires Slots(v.data, L.root)[i][0] == 0
    requires forall k :: 0 <= k < i ==> !Matches(Slots(v.data, L.root)[k], want)
    ensures want !in Files(v, root, L)
  {
    NotNamed(v, root, L, want);
  }

  ghost predicate PlaceAt(vol: Volume, L: Layout, p: Place, i: nat, j: nat)
    requires Good(vol, L)
    reads vol
  {
    At(vol.view, L, i, j, p.o) && p.cluster == L.root[j] && i < |L.files|
  }

  method ScanAt(vol: Volume, cl: nat, want: Key, found: bool) returns (s: Scan, e: Slot)
    requires vol.Ready() && InFat(vol.view.fat, cl)
    ensures ScanOf(Split(vol.view.data[cl]), want, found, s)
    ensures s.Match? ==> e == Split(vol.view.data[cl])[s.o]
  {
    var buf := vol.ReadCluster(cl);
    s := ScanCluster(buf, want, found);
    e := Zeros(32);
    if s.Match? {
      assert Split(buf)[s.o] == buf[32 * s.o..32 * s.o + 32];
      e := buf[32 * s.o..32 * s.o + 32];
    }
  }

  /** One cluster of the scan: whether it decides the search, or else how the search stands after it. */
  method ScanNext(vol: Volume, cl: nat, want: Key, found: bool, p: Place, ghost L: Layout, ghost jj: nat,
                  ghost i: nat, ghost j: nat)
    returns (hit: bool, r: RootScan, found': bool, p': Place, ghost i': nat, ghost j': nat)
    requires vol.Ready() && InFat(vol.view.fat, cl) && InData(vol.view.data, L.root)
    requires Scanned(vol.view, L, want, jj, found, p.cluster, p.o, i, j) && cl == L.root[jj]
    ensures hit ==> ScanDone(vol.view, L, want, r, i', j')
    ensures !hit ==> if jj + 1 == |L.root|
                     then ScanDone(vol.view, L, want, if found' then Room(p') else Full(cl), i', j')
                     else Scanned(vol.view, L, want, jj + 1, found', p'.cluster, p'.o, i', j')
  {
    hit, r, found', p', i', j' := false, Full(cl), found, p, i, j;
    var s, e := ScanAt(vol, cl, want, found);
    ScanStep(vol.view, L, want, jj, found, p, i, j, s);
    if !s.Nothing? {
      i', j', p', found' := |Slots(vol.view.data, L.root[..jj])| + s.o, jj, Place(cl, s.o), true;
    }
    if s.Match? {
      hit, r := true, Here(p', e);
    } else if s.Unused? {
      hit, r := true, Room(p');
    }
  }

  /** The scan over the clusters of a chain, before anything is known of who owns what. */
  method ScanChain(vol: Volume, want: Key, ghost L: Layout) returns (r: RootScan, ghost i: nat, ghost j: nat)
    requires vol.Ready() && IsChain(vol.view.fat, vol.g.root, L.root) && InData(vol.view.data, L.root)
    ensures ScanDone(vol.view, L, want, r, i, j)
  {
    ghost var v := vol.view;
    ghost var jj := 0;
    var found, p := false, Place(0, 0);
    var cl := vol.g.root;
    i, j := 0, 0;
    assert L.root[..0] == [];
    while 2 <= cl < EOC
      invariant jj < |L.root| && cl == L.root[jj]
      invariant Scanned(v, L, want, jj, found, p.cluster, p.o, i, j)
      decreases |L.root| - jj
    {
      ChainNext(v.fat, vol.g.root, L.root, jj);
      var hit;
      hit, r, found, p, i, j := ScanNext(vol, cl, want, found, p, L, jj, i, j);
      if hit {
        return;
      }
      var next := vol.FatGet(cl);
      if next >= EOC {
        r := if found then Room(p) else Full(cl);
        return;
      }
      cl, jj := next, jj + 1;
    }
    ChainNext(v.fat, vol.g.root, L.root, jj);
    assert false;
  }

  /** The entry named want if there is one, else the first entry that can be reused, else the last root cluster. */
  method ScanRoot(vol: Volume, want: Key, ghost L: Layout) returns (r: RootScan, ghost i: nat, ghost j: nat)
    requires Good(vol, L)
    ensures r.Here? ==> PlaceAt(vol, L, r.p, i, j) && r.e == RootSlots(vol, L)[i] && Matches(r.e, want)
    ensures r.Here? <==> want in FilesOf(vol, L)
    ensures r.Room? ==> PlaceAt(vol, L, r.p, i, j) && Reusable(RootSlots(vol, L)[i])
                        && forall k :: 0 <= k < i ==> !Reusable(RootSlots(vol, L)[k])
    ensures r.Full? ==> RootFull(RootSlots(vol, L)) && L.root != [] && r.last == L.root[|L.root| - 1]
  {
    r, i, j := ScanChain(vol, want, L);
    if r.Room? && RootSlots(vol, L)[i][0] == 0 {
      UnusedEnds(vol.view, vol.g.root, L, want, i);
    } else if r.Here? {
      FilesAt(vol.view, vol.g.root, L, -1, i);
    } else {
      NotNamed(vol.view, vol.g.root, L, want);
    }
  }

  /** As ScanRoot, growing the root when it has no room; then a place is missing only on a full volume. */
  method FindSlot(vol: Volume, want: Key, ghost L: Layout)
    returns (ok: bool, p: Place, existing: bool, e: Slot, ghost L': Layout, ghost i: nat, ghost j: nat)
    requires Good(vol, L)
    modifies vol`disk, vol`view
    ensures Good(vol, L') && FilesOf(vol, L') == old(FilesOf(vol, L))
    ensures Foreign(vol.view, L') == old(Foreign(vol.view, L)) && ForeignKept(old(vol.view), L, vol.view)
    ensures !ok ==> vol.disk == old(vol.disk) && vol.view == old(vol.view) && L' == L && want !in old(FilesOf(vol, L))
                    && RootFull(old(RootSlots(vol, L))) && FreeSet(vol.view.fat) == {}
    ensures ok ==> PlaceAt(vol, L', p, i, j) && (existing <==> want in old(FilesOf(vol, L)))
    ensures ok && existing ==> vol.disk == old(vol.disk) && vol.view == old(vol.view) && L' == L
    ensures ok && existing ==> e == RootSlots(vol, L)[i] && Matches(e, want)
    ensures ok && !existing ==> Reusable(RootSlots(vol, L')[i])
    ensures ok && !existing ==> forall k :: 0 <= k < i ==> !Reusable(RootSlots(vol, L')[k])
    ensures ok ==> |FreeSet(vol.view.fat)| == |FreeSet(old(vol.view).fat)|
                     - (if !existing && RootFull(old(RootSlots(vol, L))) then 1 else 0)
    ensures ok && !RootFull(old(RootSlots(vol, L))) ==> vol.disk == old(vol.disk) && vol.view == old(vol.view)
  {
    var r;
    L', e, existing, ok := L, Zeros(32), false, true;
    r, i, j := ScanRoot(vol, want, L);
    match r
    case Here(q, d) => p, existing, e := q, true, d;
    case Room(q) => p := q;
    case Full(last) =>
      ghost var n := |RootSlots(vol, L)|;
      var nc;
      nc, L' := GrowRoot(vol, last, L);
      p := Place(nc, 0);
      if nc == 0 {
        ok, L' := false, L;
      } else {
        i, j := |L.files|, |L.root|;
        ZeroSlots(ClusterBytes(vol.g));
        assert RootSlots(vol, L')[n] == Split(Zeros(ClusterBytes(vol.g)))[0];
      }
  }

  /** No entry in the first jj root clusters matches. */
  ghost predicate Unmatched(v: View, L: Layout, want: Key, jj: nat)
    requires InData(v.data, L.root)
  {
    && jj <= |L.root|
    && InData(v.data, L.root[..jj])
    && |Slots(v.data, L.root[..jj])| <= |Slots(v.data, L.root)|
    && forall k :: 0 <= k < |Slots(v.data, L.root[..jj])| ==> !Matches(Slots(v.data, L.root)[k], want)
  }

  lemma LookStep(v: View, L: Layout, want: Key, jj: nat, r: Scan) returns (i: nat)
    requires InData(v.data, L.root)
    requires jj < |L.root| && Unmatched(v, L, want, jj)
    requires var b := Split(v.data[L.root[jj]]);
             && (r.Match? || r.Unused? || r.Nothing?)
             && (r.Match? ==> r.o < |b| && Matches(b[r.o], want))
             && (!r.Match? ==>
                   forall k :: 0 <= k < (if r.Unused? then r.o else |b|) && k < |b| ==> !Matches(b[k], want))
             && (r.Unused? ==> r.o < |b| && b[r.o][0] == 0)
    ensures !r.Nothing? ==> i < |Slots(v.data, L.root)| && Slots(v.data, L.root)[i] == Split(v.data[L.root[jj]])[r.o]
    ensures r.Unused? ==> forall k :: 0 <= k < i ==> !Matches(Slots(v.data, L.root)[k], want)
    ensures r.Nothing? ==> Unmatched(v, L, want, jj + 1)
  {
    SlotsAt(v.data, L.root, jj);
    var s, p, b := Slots(v.data, L.root), Slots(v.data, L.root[..jj]), Split(v.data[L.root[jj]]);
    assert forall k :: |p| <= k < |p| + |b| ==> s[k] == b[k - |p|];
    i := if r.Nothing? then 0 else |p| + r.o;
  }

  /** iterate_dir with find_cb over the clusters of a chain. */
  method LookChain(vol: Volume, want: Key, ghost L: Layout) returns (r: Scan, e: Slot, ghost i: nat)
    requires vol.Ready() && IsChain(vol.view.fat, vol.g.root, L.root) && InData(vol.view.data, L.root)
    ensures var s := Slots(vol.view.data, L.root);
            && (r.Match? || r.Unused? || r.Nothing?)
            && (!r.Nothing? ==> i < |s|)
            && (r.Match? ==> e == s[i] && Matches(e, want))
            && (!r.Match? ==> forall k :: 0 <= k < (if r.Unused? then i else |s|) ==> !Matches(s[k], want))
            && (r.Unused? ==> s[i][0] == 0)
  {
    ghost var v := vol.view;
    ghost var jj := 0;
    var cl := vol.g.root;
    e, i, r := Zeros(32), 0, Nothing;
    assert L.root[..0] == [];
    while 2 <= cl < EOC
      invariant if 2 <= cl < EOC then jj < |L.root| && cl == L.root[jj] else jj == |L.root|
      invariant Unmatched(v, L, want, jj) && r.Nothing?
      decreases |L.root| - jj
    {
      ChainNext(v.fat, vol.g.root, L.root, jj);
      var buf := vol.ReadCluster(cl);
      r := LookCluster(buf, want);
      i := LookStep(v, L, want, jj, r);
      if r.Match? {
        assert Split(buf)[r.o] == buf[32 * r.o..32 * r.o + 32];
        e := buf[32 * r.o..32 * r.o + 32];
        return;
      }
      if r.Unused? {
        return;
      }
      cl := vol.FatGet(cl);
      jj := jj + 1;
    }
    assert L.root[..jj] == L.root;
  }

  method Lookup(vol: Volume, want: Key, ghost L: Layout) returns (found: bool, e: Slot, ghost i: nat)
    requires Good(vol, L)
    ensures found <==> want in FilesOf(vol, L)
    ensures found ==> i < |L.files| && e == RootSlots(vol, L)[i] && Matches(e, want)
  {
    var r;
    r, e, i := LookChain(vol, want, L);
    found := r.Match?;
    if r.Match? {
      FilesAt(vol.view, vol.g.root, L, -1, i);
    } else if r.Unused? {
      UnusedEnds(vol.view, vol.g.root, L, want, i);
    } else {
      NotNamed(vol.view, vol.g.root, L, want);
    }
  }
}
