/** fat32_write, fat32_mkdir and fat32_unlink: what each answers, and what it makes of the volume. */
module FatApi {
  import opened Bytes
  import opened FatChains
  import opened FatLayout
  import opened FatDisk
  import opened FatSteps
  import opened FatBuild
  import opened FatVolume
  import opened FatNames
  import opened FatDirectory
  import opened FatOps

  lemma PlaceFor(v: View, root: nat, L: Layout, want: Key, i: nat)
    requires Lays(v, root, L) && i < |L.files|
    requires var s := Slots(v.data, L.root);
             || Matches(s[i], want)
             || (want !in Files(v, root, L) && Reusable(s[i]) && forall n :: 0 <= n < i ==> !Reusable(s[n]))
    ensures EntryFor(v, root, L, want, i)
  {
    assert UnusedLast(Slots(v.data, L.root));
  }

  /** The same map, and nothing foreign touched. */
  ghost predicate SameFiles(v: View, L: Layout, w: View, L': Layout, root: nat) {
    && Lays(v, root, L) && Lays(w, root, L')
    && Files(w, root, L') == Files(v, root, L)
    && Foreign(w, L') == Foreign(v, L) && ForeignKept(v, L, w)
  }

  /** FindSlot, in the terms in which fat32_write goes on. */
  method FindPlace(vol: Volume, want: Key, ghost L: Layout)
    returns (ok: bool, p: Place, isDir: bool, start: nat, ghost L': Layout, ghost i: nat, ghost j: nat)
    requires Good(vol, L)
    modifies vol`disk, vol`view
    ensures vol.Ready() && SameFiles(old(vol.view), L, vol.view, L', vol.g.root)
    ensures !ok ==> vol.disk == old(vol.disk) && vol.view == old(vol.view) && L' == L
    ensures !ok ==> !old(Fits(vol, L, want, 0)) && want !in old(FilesOf(vol, L)) && FreeSet(vol.view.fat) == {}
    ensures ok ==> PlaceAt(vol, L', p, i, j) && EntryFor(vol.view, vol.g.root, L', want, i)
    ensures ok ==> start == if Live(RootSlots(vol, L')[i]) then Start(RootSlots(vol, L')[i]) else 0
    ensures ok ==> (isDir <==> want in old(FilesOf(vol, L)) && old(FilesOf(vol, L))[want].Directory?)
    ensures ok && isDir ==> vol.disk == old(vol.disk) && vol.view == old(vol.view)
    ensures ok ==> |FreeSet(vol.view.fat)| + |L'.files[i]|
                   == |FreeSet(old(vol.view).fat)| + |old(ChainOf(vol, L, want))|
                      - (if want !in old(FilesOf(vol, L)) && RootFull(old(RootSlots(vol, L))) then 1 else 0)
  {
    var existing, e;
    ok, p, existing, e, L', i, j := FindSlot(vol, want, L);
    isDir, start := false, 0;
    if ok {
      PlaceFor(vol.view, vol.g.root, L', want, i);
      if existing {
        ChainOfAt(vol, L, want, i);
        isDir, start := e[11] / 16 % 2 == 1, 0x1_0000 * Le16(e, 20) + Le16(e, 26);
      } else {
        assert SlotOk(vol.view.fat, RootSlots(vol, L')[i], L'.files[i]);
      }
    }
  }

  // ---- fat32_write ----

  lemma StoredFrom(v0: View, L0: Layout, v: View, L: Layout, w: View, L': Layout, root: nat, want: Key,
                   text: seq<byte>, cb: nat)
    requires cb > 0 && SameFiles(v0, L0, v, L, root)
    requires Stored(v, L, w, L', root, want, text, cb)
    ensures Stored(v0, L0, w, L', root, want, text, cb)
  {
  }

  lemma TornFrom(v0: View, L0: Layout, v: View, L: Layout, w: View, L': Layout, root: nat, want: Key, text: seq<byte>,
                 cb: nat)
    requires SameFiles(v0, L0, v, L, root)
    requires Torn(v, L, w, L', root, want, text, cb)
    ensures Torn(v0, L0, w, L', root, want, text, cb)
  {
  }

  lemma TornSame(f: map<Key, Entry>, f': map<Key, Entry>, want: Key, text: seq<byte>)
    requires TornFiles(f, f', want, text) && want !in f
    ensures f' == f
  {
    assert f - {want} == f && f' - {want} == f';
  }

  lemma ForeignAndFree(v: View, L: Layout)
    ensures |Foreign(v, L) + FreeSet(v.fat)| == |Foreign(v, L)| + |FreeSet(v.fat)|
  {
    assert Foreign(v, L) !! FreeSet(v.fat);
  }

  lemma FitsMore(vol: Volume, L: Layout, k: Key, len: nat)
    requires Good(vol, L) && !Fits(vol, L, k, 0)
    ensures !Fits(vol, L, k, len)
  {
  }

  method Write(vol: Volume, name: seq<byte>, text: seq<byte>, ghost L: Layout)
    returns (code: Code, ghost L': Layout)
    requires CString(name)
    requires vol.mounted ==> Good(vol, L)
    modifies vol`disk, vol`view
    ensures code == old(WriteCode(vol, L, name, |text|))
    ensures (code == NotMounted <==> !vol.mounted) && (code == NotFound <==> vol.mounted && name == [])
    ensures code == TooBig <==> vol.mounted && name != [] && |text| > 4096
    ensures code == IsDir <==> && vol.mounted && name != [] && |text| <= 4096 && KeyOf(name) in old(FilesOf(vol, L))
                               && old(FilesOf(vol, L))[KeyOf(name)].Directory?
    ensures code != Ok && code != NoSpace ==> vol.disk == old(vol.disk) && vol.view == old(vol.view)
    ensures code == Ok ==>
              && vol.Ready()
              && Stored(old(vol.view), L, vol.view, L', vol.g.root, KeyOf(name), text, ClusterBytes(vol.g))
    ensures code == NoSpace ==>
              && vol.Ready() && FreeSet(vol.view.fat) == {}
              && Torn(old(vol.view), L, vol.view, L', vol.g.root, KeyOf(name), text, ClusterBytes(vol.g))
    ensures code == NoSpace && KeyOf(name) !in old(FilesOf(vol, L)) ==>
              && FilesOf(vol, L') == old(FilesOf(vol, L))
              && |Foreign(vol.view, L')| == |old(Foreign(vol.view, L))| + |FreeSet(old(vol.view).fat)|
                   - (if RootFull(old(RootSlots(vol, L))) && FreeSet(old(vol.view).fat) != {} then 1 else 0)
  {
    L' := L;
    if !vol.mounted {
      return NotMounted, L;
    }
    if name == [] {
      return NotFound, L;
    }
    if |text| > WRITE_MAX {
      return TooBig, L;
    }
    var want := NameTo83(name);
    KeyFirst(name);
    var ok, p, isDir, start;
    ghost var i, j;
    ok, p, isDir, start, L', i, j := FindPlace(vol, want, L);
    if !ok {
      TornNone(FilesOf(vol, L), want, text);
      FitsMore(vol, L, want, |text|);
      return NoSpace, L;
    }
    if isDir {
      return IsDir, L;
    }
    ghost var v1, L1 := vol.view, L';
    ok, L' := StoreFile(vol, want, text, p, start, L', i, j);
    if ok {
      StoredFrom(old(vol.view), L, v1, L1, vol.view, L', vol.g.root, want, text, ClusterBytes(vol.g));
    } else {
      TornFrom(old(vol.view), L, v1, L1, vol.view, L', vol.g.root, want, text, ClusterBytes(vol.g));
      if want !in old(FilesOf(vol, L)) {
        TornSame(old(FilesOf(vol, L)), FilesOf(vol, L'), want, text);
        ForeignAndFree(v1, L1);
      }
    }
    code := if ok then Ok else NoSpace;
  }

  // ---- fat32_mkdir ----

  function DotName(dots: nat): Key
    requires 1 <= dots <= 2
  {
    seq(11, i => if i < dots then DOT else SPACE)
  }

  /** The first cluster of a new directory: itself, its parent, and nothing else. */
  function DirBlock(d: nat, parent: nat, cb: nat): seq<byte>
    requires d < 0x1_0000_0000 && parent < 0x1_0000_0000 && cb >= 64
  {
    MakeSlot(DotName(1), ATTR_DIRECTORY, d, 0) + MakeSlot(DotName(2), ATTR_DIRECTORY, parent, 0) + Zeros(cb - 64)
  }

  /** w is v0 with an empty directory added under want, its first cluster being d. */
  ghost predicate Made(v0: View, L: Layout, w: View, L': Layout, root: nat, want: Key, d: nat, cb: nat)
    requires Lays(v0, root, L)
  {
    && Sized(w, cb) && Lays(w, root, L') && ForeignKept(v0, L, w)
    && (want[0] != DELETED ==>
          && Files(w, root, L') == Files(v0, root, L)[want := Directory] && Foreign(w, L') == Foreign(v0, L)
          && exists i :: 0 <= i < |L'.files| && Matches(Slots(w.data, L'.root)[i], want) && L'.files[i] == [d])
    && (want[0] == DELETED ==>
          Files(w, root, L') == Files(v0, root, L) && Foreign(w, L') == Foreign(v0, L) + {d})
    && InFat(v0.fat, d) && v0.fat[d] == 0 && root < 0x1_0000_0000 && cb >= 64
    && w.data[d] == DirBlock(d, root, cb)
  }

  /** The cluster d set aside for the directory is no one's until its entry is written. */
  ghost predicate Reserved(v: View, L: Layout, d: nat, block: seq<byte>) {
    d in Foreign(v, L) && v.fat[d] == END_MARK && d < |v.data| && v.data[d] == block
  }

  lemma ReserveKeeps(v0: View, root: nat, L: Layout, d: nat, block: seq<byte>, cb: nat)
    requires Sized(v0, cb) && Lays(v0, root, L) && InFat(v0.fat, d) && v0.fat[d] == 0 && |block| == cb
    ensures var v1 := View(v0.fat[d := END_MARK], v0.data[d := block]);
            && Sized(v1, cb) && Lays(v1, root, L) && Files(v1, root, L) == Files(v0, root, L)
            && Slots(v1.data, L.root) == Slots(v0.data, L.root)
            && Foreign(v1, L) == Foreign(v0, L) + {d} && Reserved(v1, L, d, block) && ForeignKept(v0, L, v1)
            && |FreeSet(v1.fat)| == |FreeSet(v0.fat)| - 1
  {
    var v1 := View(v0.fat[d := END_MARK], v0.data[d := block]);
    BuildKeeps(v0, v1, root, L, -1, {d});
    FreeAfter(v0.fat, v1.fat, d);
  }

  /** (v, L) is (v0, L0) but for the cluster d, which holds an empty directory that no entry names yet. */
  ghost predicate Pending(v0: View, L0: Layout, v: View, L: Layout, root: nat, d: nat, cb: nat) {
    && Sized(v, cb) && Lays(v0, root, L0) && Lays(v, root, L)
    && Files(v, root, L) == Files(v0, root, L0)
    && Foreign(v, L) == Foreign(v0, L0) + {d} && ForeignKept(v0, L0, v)
    && InFat(v0.fat, d) && v0.fat[d] == 0 && root < 0x1_0000_0000 && cb >= 64 && d < 0x1_0000_0000
    && Reserved(v, L, d, DirBlock(d, root, cb))
  }

  lemma PendingKept(v0: View, L0: Layout, v: View, L: Layout, v': View, L': Layout, root: nat, d: nat, cb: nat)
    requires Pending(v0, L0, v, L, root, d, cb) && Sized(v', cb)
    requires SameFiles(v, L, v', L', root)
    ensures Pending(v0, L0, v', L', root, d, cb)
  {
    assert d in Foreign(v, L);
    assert forall c :: c in Foreign(v0, L0) ==> c in Foreign(v, L);
  }

  lemma MakeDone(v0: View, L0: Layout, v2: View, root: nat, L: Layout, i: nat, j: nat, o: nat, e: Slot, want: Key,
                 d: nat, cb: nat)
    requires Pending(v0, L0, v2, L, root, d, cb) && At(v2, L, i, j, o)
    requires EntryFor(v2, root, L, want, i) && Reusable(Slots(v2.data, L.root)[i])
    requires Name(e) == want && want[0] != 0 && e[11] == ATTR_DIRECTORY && Start(e) == d
    ensures j < |L.root| && InFat(v2.fat, L.root[j]) && 32 * o + 32 <= |v2.data[L.root[j]]| == cb
    ensures Made(v0, L0, Put(v2, L, j, o, e), L.(files := L.files[i := if Live(e) then [d] else []]), root, want, d, cb)
  {
    EntryUnused(v2, root, L, i, want);
    DirEntry(e, want);
    assert IsChain(v2.fat, d, [d]);
    PutKeeps(v2, root, L, i, j, o, e, if Live(e) then [d] else [], cb);
    MinusBack(Foreign(v0, L0), d);
    ChainNext(v2.fat, root, L.root, j);
    var w, L' := Put(v2, L, j, o, e), L.(files := L.files[i := if Live(e) then [d] else []]);
    assert Live(e) ==> Matches(Slots(w.data, L'.root)[i], want) && L'.files[i] == [d];
    MakeForeign(v0, L0, v2, root, L, j, o, e, d);
  }

  lemma EntryUnused(v: View, root: nat, L: Layout, i: nat, want: Key)
    requires Lays(v, root, L) && EntryFor(v, root, L, want, i) && Reusable(Slots(v.data, L.root)[i])
    ensures LaysBut(v, root, L, i) && FilesBut(v, root, L, i) == Files(v, root, L)
    ensures want !in Files(v, root, L)
  {
    assert SlotOk(v.fat, Slots(v.data, L.root)[i], L.files[i]);
    assert Without(L, i).files == L.files;
    LaysWithout(v, root, L, i);
    FilesWithout(v, root, L, i, want);
    MapReplace(Files(v, root, L), want, Directory);
  }

  lemma DirEntry(e: Slot, want: Key)
    requires Name(e) == want && want[0] != 0 && e[11] == ATTR_DIRECTORY
    ensures e[0] == want[0] && e[11] == 0x10 && (Live(e) <==> want[0] != DELETED) && IsDirectory(e)
  {
  }

  lemma MinusBack(s: set<nat>, d: nat)
    requires d !in s
    ensures (s + {d}) - SetOf([d]) == s && (s + {d}) - SetOf([]) == s + {d}
  {
    assert SetOf([d]) == {d};
    var none: seq<nat> := [];
    assert SetOf(none) == {};
  }

  lemma MakeForeign(v0: View, L0: Layout, v2: View, root: nat, L: Layout, j: nat, o: nat, e: Slot, d: nat)
    requires Lays(v2, root, L) && ForeignKept(v0, L0, v2)
    requires Foreign(v2, L) == Foreign(v0, L0) + {d} && d < |v2.data|
    requires j < |L.root| && L.root[j] < |v2.data| && 32 * o + 32 <= |v2.data[L.root[j]]|
    ensures ForeignKept(v0, L0, Put(v2, L, j, o, e))
    ensures Put(v2, L, j, o, e).data[d] == v2.data[d]
  {
    assert L.root[j] in L.root && Owned(L, L.root[j]);
    assert d in Foreign(v2, L);
    assert forall c :: c in Foreign(v0, L0) ==> c in Foreign(v2, L) && c != L.root[j];
  }

  /** The bytes of a free cluster mean nothing. */
  lemma ScratchKeeps(v0: View, v: View, root: nat, L: Layout, d: nat)
    requires Lays(v0, root, L) && d < |v0.fat| && v0.fat[d] == 0
    requires v.fat == v0.fat && |v.data| == |v0.data|
    requires forall x: nat :: x < |v0.data| && x != d ==> v.data[x] == v0.data[x]
    ensures SameFiles(v0, L, v, L, root)
  {
    LaysInData(v0, root, L, -1);
    assert forall x :: x in L.root ==> Owned(L, x);
    SlotsFrame(v0.data, v.data, L.root);
    assert forall i, x :: 0 <= i < |L.files| && x in L.files[i] ==> Owned(L, x);
    FilesSame(v0, L, -1, v, L, -1, root);
  }

  /** What fat32_mkdir answers. */
  ghost function MakeDirCode(vol: Volume, L: Layout, name: seq<byte>): Code
    requires vol.mounted ==> Good(vol, L)
    reads vol
  {
    if !vol.mounted then NotMounted
    else if name == [] then NotFound
    else if KeyOf(name) in FilesOf(vol, L) then Exists
    else if |FreeSet(vol.view.fat)| > (if RootFull(RootSlots(vol, L)) then 1 else 0) then Ok
    else NoSpace
  }

  /** Sets a cluster aside and writes the empty directory into it; 0 when no cluster is free. */
  method ReserveDir(vol: Volume, ghost L: Layout) returns (d: nat)
    requires Good(vol, L)
    modifies vol`disk, vol`view
    ensures vol.Ready()
    ensures d == 0 ==> vol.disk == old(vol.disk) && vol.view == old(vol.view) && FreeSet(vol.view.fat) == {}
    ensures d != 0 ==> InFat(old(vol.view).fat, d) && old(vol.view).fat[d] == 0
    ensures d != 0 ==> vol.view == View(old(vol.view).fat[d := END_MARK],
                                        old(vol.view).data[d := DirBlock(d, vol.g.root, ClusterBytes(vol.g))])
  {
    ghost var v0 := vol.view;
    d := vol.AllocCluster();
    if d != 0 {
      var cb := vol.g.spc * 512;
      vol.WriteCluster(d, DirBlock(d, vol.g.root, cb));
    }
  }

  method MakeDir(vol: Volume, name: seq<byte>, ghost L: Layout) returns (code: Code, ghost L': Layout, ghost d: nat)
    requires CString(name)
    requires vol.mounted ==> Good(vol, L)
    modifies vol`disk, vol`view
    ensures code == old(MakeDirCode(vol, L, name))
    ensures (code == NotMounted <==> !vol.mounted) && (code == NotFound <==> vol.mounted && name == [])
    ensures code == Exists <==> vol.mounted && name != [] && KeyOf(name) in old(FilesOf(vol, L))
    ensures code != Ok && code != NoSpace ==> vol.disk == old(vol.disk) && vol.view == old(vol.view)
    ensures code == NoSpace ==> vol.Ready() && SameFiles(old(vol.view), L, vol.view, L', vol.g.root)
    ensures code == Ok ==>
              vol.Ready() && Made(old(vol.view), L, vol.view, L', vol.g.root, KeyOf(name), d, ClusterBytes(vol.g))
  {
    L', d := L, 0;
    if !vol.mounted {
      return NotMounted, L, 0;
    }
    if name == [] {
      return NotFound, L, 0;
    }
    var want := NameTo83(name);
    KeyFirst(name);
    var known, e0;
    ghost var i0;
    known, e0, i0 := Lookup(vol, want, L);
    if known {
      return Exists, L, 0;
    }
    ghost var v0 := vol.view;
    var dir := ReserveDir(vol, L);
    d := dir;
    if dir == 0 {
      return NoSpace, L, 0;
    }
    ReserveKeeps(v0, vol.g.root, L, dir, DirBlock(dir, vol.g.root, ClusterBytes(vol.g)), ClusterBytes(vol.g));
    var ok;
    ok, L' := EnterDir(vol, want, dir, v0, L);
    code := if ok then Ok else NoSpace;
  }

  /** The part of fat32_mkdir after the directory's cluster is written: its entry, or else the cluster back. */
  method EnterDir(vol: Volume, want: Key, d: nat, ghost v0: View, ghost L: Layout) returns (ok: bool, ghost L': Layout)
    requires Good(vol, L) && Pending(v0, L, vol.view, L, vol.g.root, d, ClusterBytes(vol.g))
    requires vol.view == View(v0.fat[d := END_MARK], v0.data[d := DirBlock(d, vol.g.root, ClusterBytes(vol.g))])
    requires want !in FilesOf(vol, L) && want[0] != 0
    modifies vol`disk, vol`view
    ensures vol.Ready()
    ensures ok <==> |FreeSet(old(vol.view).fat)| >= (if RootFull(old(RootSlots(vol, L))) then 1 else 0)
    ensures ok ==> Made(v0, L, vol.view, L', vol.g.root, want, d, ClusterBytes(vol.g))
    ensures !ok ==> SameFiles(v0, L, vol.view, L', vol.g.root)
  {
    var p, existing, e;
    ghost var i, j;
    ok, p, existing, e, L', i, j := FindSlot(vol, want, L);
    if !ok {
      FreeFile(vol, d, [d]);
      assert vol.view.fat == v0.fat;
      ScratchKeeps(v0, vol.view, vol.g.root, L, d);
      return;
    }
    if existing {
      assert false;
    }
    PendingKept(v0, L, old(vol.view), L, vol.view, L', vol.g.root, d, ClusterBytes(vol.g));
    PlaceFor(vol.view, vol.g.root, L', want, i);
    var entry := MakeSlot(want, ATTR_DIRECTORY, d, 0);
    MakeDone(v0, L, vol.view, vol.g.root, L', i, j, p.o, entry, want, d, ClusterBytes(vol.g));
    PutEntry(vol, p, entry, L', j);
    L' := L'.(files := L'.files[i := if Live(entry) then [d] else []]);
  }

  // ---- fat32_unlink ----

  /** Entries that do not keep a directory from being removed. */
  predicate Ignored(e: Slot) {
    || e[0] == DELETED || e[11] == ATTR_LFN
    || (e[0] == DOT && e[1] == SPACE)
    || (e[0] == DOT && e[1] == DOT && e[2] == SPACE)
  }

  /** Up to the first unused entry there is nothing but ignored ones. */
  ghost predicate EmptyDir(s: seq<Slot>) {
    forall k :: 0 <= k < |s| && (forall n :: 0 <= n <= k ==> s[n][0] != 0) ==> Ignored(s[k])
  }

  method DirIsEmpty(buf: seq<byte>) returns (b: bool)
    ensures b <==> EmptyDir(Split(buf))
  {
    ghost var s := Split(buf);
    var o := 0;
    while 32 * o + 32 <= |buf|
      invariant 0 <= o <= |s|
      invariant forall n :: 0 <= n < o ==> s[n][0] != 0 && Ignored(s[n])
    {
      var e: Slot := buf[32 * o..32 * o + 32];
      assert e == s[o];
      if e[0] == 0 {
        return true;
      }
      if !(|| e[0] == DELETED || e[11] == ATTR_LFN
           || (e[0] == DOT && e[1] == SPACE)
           || (e[0] == DOT && e[1] == DOT && e[2] == SPACE)) {
        return false;
      }
      o := o + 1;
    }
    b := true;
  }

  /** A directory that fat32_mkdir has just made can be removed. */
  lemma NewDirEmpty(d: nat, parent: nat, cb: nat)
    requires d < 0x1_0000_0000 && parent < 0x1_0000_0000 && cb >= 64
    ensures EmptyDir(Split(DirBlock(d, parent, cb)))
  {
    var b := DirBlock(d, parent, cb);
    var s := Split(b);
    var dot, dots := MakeSlot(DotName(1), ATTR_DIRECTORY, d, 0), MakeSlot(DotName(2), ATTR_DIRECTORY, parent, 0);
    DirSlots(d, parent, cb);
    assert Name(dot)[0] == DOT && Name(dot)[1] == SPACE;
    assert Name(dots)[0] == DOT && Name(dots)[1] == DOT && Name(dots)[2] == SPACE;
  }

  lemma DirSlots(d: nat, parent: nat, cb: nat)
    requires d < 0x1_0000_0000 && parent < 0x1_0000_0000 && cb >= 64
    ensures var s := Split(DirBlock(d, parent, cb));
            && s[0] == MakeSlot(DotName(1), ATTR_DIRECTORY, d, 0)
            && s[1] == MakeSlot(DotName(2), ATTR_DIRECTORY, parent, 0)
            && forall k :: 2 <= k < |s| ==> s[k][0] == 0
  {
    var b := DirBlock(d, parent, cb);
    var s := Split(b);
    assert s[0] == b[0..32] && s[1] == b[32..64];
    forall k | 2 <= k < |s|
      ensures s[k][0] == 0
    {
      assert s[k][0] == b[32 * k];
    }
  }

  /** What fat32_unlink answers; a missing name can even cost a cluster, or an I/O error when there is none. */
  ghost function UnlinkCode(vol: Volume, L: Layout, name: seq<byte>): Code
    requires vol.mounted ==> Good(vol, L)
    reads vol
  {
    if !vol.mounted then NotMounted
    else if name == [] then NotFound
    else if KeyOf(name) !in FilesOf(vol, L) then
      if RootFull(RootSlots(vol, L)) && FreeSet(vol.view.fat) == {} then Io else NotFound
    else if FilesOf(vol, L)[KeyOf(name)].Directory? && !Removable(vol.view, ChainOf(vol, L, KeyOf(name))) then NotEmpty
    else Ok
  }

  /** Entry k of the bytes b is in use for something other than the directory itself and its parent. */
  ghost predicate SomethingAt(b: seq<byte>, k: nat) {
    && 32 * k + 32 <= |b| && (forall n :: 0 <= n <= k ==> b[32 * n] != 0)
    && b[32 * k] != 0xE5 && b[32 * k + 11] != 0x0F
    && !(b[32 * k] == 46 && b[32 * k + 1] == 32)
    && !(b[32 * k] == 46 && b[32 * k + 1] == 46 && b[32 * k + 2] == 32)
  }

  /** A directory is empty exactly when its bytes have no such entry. */
  lemma EmptyBytes(b: seq<byte>)
    ensures EmptyDir(Split(b)) <==> forall k: nat :: !SomethingAt(b, k)
  {
    var s := Split(b);
    assert forall k :: 0 <= k < |s| ==> s[k] == b[32 * k..32 * k + 32];
    forall k: nat
      ensures SomethingAt(b, k) <==> k < |s| && (forall n :: 0 <= n <= k ==> s[n][0] != 0) && !Ignored(s[k])
    {
      if k < |s| {
        CutOut(b, k);
        assert forall n :: 0 <= n <= k ==> s[n][0] == b[32 * n];
      }
    }
  }

  lemma CutOut(b: seq<byte>, k: nat)
    requires 32 * k + 32 <= |b|
    ensures k < |Split(b)| && forall i :: 0 <= i < 32 ==> Split(b)[k][i] == b[32 * k + i]
  {
  }

  /** A file of any name that can be found again, in a directory's first cluster before the unused entries. */
  lemma FileInside(b: seq<byte>, k: nat, f: seq<byte>, c: nat, n: nat)
    requires 32 * k + 32 <= |b| && (forall n :: 0 <= n < k ==> b[32 * n] != 0)
    requires CString(f) && f != [] && f[0] != 0xE5 && c < 0x1_0000_0000 && n < 0x1_0000_0000
    requires b[32 * k..32 * k + 32] == MakeSlot(KeyOf(f), 0x20, c, n)
    ensures SomethingAt(b, k)
  {
    var e := MakeSlot(KeyOf(f), 0x20, c, n);
    KeyFirst(f);
    var m := StemEnd(f, 8);
    KeyBytes(f, m, 0);
    assert Name(e)[0] == e[0];
    assert b[32 * k] == e[0] && b[32 * k + 11] == e[11];
  }

  /** The directory of that name has something in it. */
  ghost predicate Occupied(vol: Volume, L: Layout, name: seq<byte>, k: nat)
    requires Good(vol, L)
    reads vol
  {
    && name != [] && KeyOf(name) in FilesOf(vol, L) && FilesOf(vol, L)[KeyOf(name)].Directory?
    && var ch := ChainOf(vol, L, KeyOf(name));
       ch != [] && ch[0] < |vol.view.data| && SomethingAt(vol.view.data[ch[0]], k)
  }

  lemma NotEmptyIs(vol: Volume, L: Layout, name: seq<byte>)
    requires Good(vol, L)
    ensures UnlinkCode(vol, L, name) == NotEmpty <==> exists k: nat :: Occupied(vol, L, name, k)
  {
    var ch := ChainOf(vol, L, KeyOf(name));
    if ch != [] && ch[0] < |vol.view.data| {
      EmptyBytes(vol.view.data[ch[0]]);
      if name != [] && UnlinkCode(vol, L, name) == NotEmpty {
        var k: nat :| SomethingAt(vol.view.data[ch[0]], k);
        assert Occupied(vol, L, name, k);
      }
    }
  }

  ghost predicate Removable(v: View, ch: seq<nat>) {
    ch != [] && ch[0] < |v.data| ==> EmptyDir(Split(v.data[ch[0]]))
  }

  ghost predicate Removed(v0: View, L: Layout, w: View, L': Layout, root: nat, want: Key, cb: nat)
    requires Lays(v0, root, L)
  {
    && Sized(w, cb) && Lays(w, root, L') && ForeignKept(v0, L, w)
    && Files(w, root, L') == Files(v0, root, L) - {want}
    && Foreign(w, L') == Foreign(v0, L)
  }

  lemma RemoveDone(v: View, root: nat, L: Layout, i: nat, j: nat, o: nat, e: Slot, want: Key, cb: nat)
    requires Sized(v, cb) && Lays(v, root, L) && At(v, L, i, j, o) && EntryFor(v, root, L, want, i)
    requires e[0] == DELETED
    ensures j < |L.root| && InFat(v.fat, L.root[j]) && 32 * o + 32 <= |v.data[L.root[j]]| == cb
    ensures var w := Put(v, L, j, o, e);
            Removed(v, L, w.(fat := ZeroAll(w.fat, SetOf(L.files[i]))), Without(L, i), root, want, cb)
  {
    ChainNext(v.fat, root, L.root, j);
    var v1, L1 := Freed(v, L, i), Without(L, i);
    EmptySlot(v, root, L, i, want, cb);
    AtFrame(v, v1, L, L1, i, j, o);
    PutKeeps(v1, root, L1, i, j, o, e, [], cb);
    SetTwice(L.files, i, [], []);
    RemoveForeign(v, root, L, i, j, o, e);
    var none: seq<nat> := [];
    assert SetOf(none) == {};
  }

  lemma RemoveForeign(v: View, root: nat, L: Layout, i: nat, j: nat, o: nat, e: Slot)
    requires Lays(v, root, L) && i < |L.files|
    requires j < |L.root| && L.root[j] < |v.data| && 32 * o + 32 <= |v.data[L.root[j]]|
    ensures ForeignKept(v, L, Put(v, L, j, o, e).(fat := ZeroAll(v.fat, SetOf(L.files[i]))))
  {
    assert L.root[j] in L.root && Owned(L, L.root[j]);
    assert forall x :: x in SetOf(L.files[i]) ==> Owned(L, x);
  }

  method Unlink(vol: Volume, name: seq<byte>, ghost L: Layout) returns (code: Code, ghost L': Layout)
    requires CString(name)
    requires vol.mounted ==> Good(vol, L)
    modifies vol`disk, vol`view
    ensures code == old(UnlinkCode(vol, L, name))
    ensures code == NotMounted <==> !vol.mounted
    ensures vol.mounted && name != [] && KeyOf(name) in old(FilesOf(vol, L)) ==> code == Ok || code == NotEmpty
    ensures code != Ok && code != NotFound ==> vol.disk == old(vol.disk) && vol.view == old(vol.view)
    ensures vol.mounted ==> forall k: nat :: old(Occupied(vol, L, name, k)) ==> code == NotEmpty
    ensures vol.mounted && code == NotEmpty ==> exists k: nat :: old(Occupied(vol, L, name, k))
    ensures code == NotFound ==> vol.Ready() && SameFiles(old(vol.view), L, vol.view, L', vol.g.root)
    ensures code == NotFound ==> (vol.disk == old(vol.disk) <==> name == [] || !RootFull(old(RootSlots(vol, L))))
    ensures code == NotFound ==>
              |FreeSet(vol.view.fat)|
              == |FreeSet(old(vol.view).fat)| - (if name != [] && RootFull(old(RootSlots(vol, L))) then 1 else 0)
    ensures code == Ok ==>
              vol.Ready() && Removed(old(vol.view), L, vol.view, L', vol.g.root, KeyOf(name), ClusterBytes(vol.g))
  {
    L' := L;
    if !vol.mounted {
      return NotMounted, L;
    }
    NotEmptyIs(vol, L, name);
    if name == [] {
      return NotFound, L;
    }
    var want := NameTo83(name);
    var ok, p, existing, e;
    ghost var i, j;
    ok, p, existing, e, L', i, j := FindSlot(vol, want, L);
    if !ok {
      return Io, L;
    }
    if !existing {
      SameDisk(old(vol.disk), vol.disk, vol.g, vol.origin, old(vol.view), vol.view);
      return NotFound, L';
    }
    ChainOfAt(vol, L, want, i);
    var blocked := Blocks(vol, e, L, i);
    if blocked {
      return NotEmpty, L;
    }
    PlaceFor(vol.view, vol.g.root, L, want, i);
    RemoveEntry(vol, want, p, e, L, i, j);
    return Ok, Without(L, i);
  }

  /** A disk shows only one view. */
  lemma SameDisk(d: Disk, d': Disk, g: Geometry, origin: Disk, v: View, v': View)
    requires Backed(d, g, origin, v) && Backed(d', g, origin, v')
    ensures d == d' ==> v == v'
  {
    ShowsView(d, g, v);
    ShowsView(d', g, v');
  }

  /** Whether e is a directory that still holds something. */
  method Blocks(vol: Volume, e: Slot, ghost L: Layout, ghost i: nat) returns (b: bool)
    requires Good(vol, L) && i < |L.files| && e == RootSlots(vol, L)[i] && Live(e)
    ensures b <==> IsDirectory(e) && !Removable(vol.view, L.files[i])
  {
    assert SlotOk(vol.view.fat, e, L.files[i]);
    var cl := 0x1_0000 * Le16(e, 20) + Le16(e, 26);
    b := false;
    if e[11] / 16 % 2 == 1 && cl >= 2 {
      var buf := vol.ReadCluster(cl);
      var empty := DirIsEmpty(buf);
      b := !empty;
    }
  }

  method RemoveEntry(vol: Volume, want: Key, p: Place, e: Slot, ghost L: Layout, ghost i: nat, ghost j: nat)
    requires Good(vol, L) && PlaceAt(vol, L, p, i, j) && EntryFor(vol.view, vol.g.root, L, want, i)
    requires e == RootSlots(vol, L)[i] && Live(e)
    modifies vol`disk, vol`view
    ensures vol.Ready()
    ensures Removed(old(vol.view), L, vol.view, Without(L, i), vol.g.root, want, ClusterBytes(vol.g))
  {
    assert SlotOk(vol.view.fat, e, L.files[i]);
    var cl := 0x1_0000 * Le16(e, 20) + Le16(e, 26);
    var gone: Slot := [DELETED] + e[1..];
    RemoveDone(vol.view, vol.g.root, L, i, j, p.o, gone, want, ClusterBytes(vol.g));
    PutEntry(vol, p, gone, L, j);
    FreeFile(vol, cl, L.files[i]);
  }
}
