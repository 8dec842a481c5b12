/** What holds of every volume in every run of the operations. */
module FatTheorems {
  import opened Bytes
  import opened FatChains
  import opened FatLayout
  import opened FatDisk
  import opened FatVolume
  import opened FatNames
  import opened FatDirectory
  import opened FatOps
  import opened FatApi
  import opened FatFormat

  // ---- no cluster is lost or counted twice ----

  ghost function Flat(files: seq<seq<nat>>): seq<nat> {
    if files == [] then [] else files[0] + Flat(files[1..])
  }

  lemma {:induction false} FlatMembers(files: seq<seq<nat>>, c: nat)
    ensures c in Flat(files) <==> exists i :: 0 <= i < |files| && c in files[i]
  {
    if files != [] {
      FlatMembers(files[1..], c);
      if i :| 0 <= i < |files[1..]| && c in files[1..][i] {
        assert c in files[i + 1];
      }
      if i :| 0 <= i < |files| && c in files[i] {
        assert i > 0 ==> c in files[1..][i - 1];
      }
    }
  }

  lemma {:induction false} FlatDistinct(files: seq<seq<nat>>)
    requires forall i :: 0 <= i < |files| ==> Distinct(files[i])
    requires forall i, j :: 0 <= i < |files| && 0 <= j < |files| && i != j ==> Disjoint(files[i], files[j])
    ensures Distinct(Flat(files))
  {
    if files != [] {
      var rest := files[1..];
      forall i, j | 0 <= i < |rest| && 0 <= j < |rest| && i != j
        ensures Disjoint(rest[i], rest[j])
      {
        assert Disjoint(files[i + 1], files[j + 1]);
      }
      FlatDistinct(rest);
      forall c | c in files[0]
        ensures c !in Flat(rest)
      {
        FlatMembers(rest, c);
        assert forall i :: 0 <= i < |rest| ==> rest[i] == files[i + 1] && Disjoint(files[0], files[i + 1]);
      }
      DistinctConcat(files[0], Flat(rest));
    }
  }

  lemma DistinctConcat(a: seq<nat>, b: seq<nat>)
    requires Distinct(a) && Distinct(b) && Disjoint(a, b)
    ensures Distinct(a + b)
  {
    var s := a + b;
    forall i, j | 0 <= i < j < |s|
      ensures s[i] != s[j]
    {
      if i < |a| && j >= |a| {
        assert s[i] in a && s[j] in b;
      }
    }
  }

  /** All chains of the volume, one after the other. */
  ghost function AllChains(L: Layout): seq<nat> {
    L.root + Flat(L.files)
  }

  lemma AllDistinct(v: View, root: nat, L: Layout)
    requires |v.fat| < EOC && Lays(v, root, L)
    ensures Distinct(AllChains(L))
    ensures forall c: nat :: c in AllChains(L) <==> Owned(L, c)
  {
    ChainDistinct(v.fat, root, L.root);
    var slots := Slots(v.data, L.root);
    forall i | 0 <= i < |L.files|
      ensures Distinct(L.files[i])
    {
      assert SlotOk(v.fat, slots[i], L.files[i]);
      if Owns(slots[i]) {
        ChainDistinct(v.fat, Start(slots[i]), L.files[i]);
      }
    }
    FlatDistinct(L.files);
    forall c: nat
      ensures c in Flat(L.files) <==> exists i :: 0 <= i < |L.files| && c in L.files[i]
    {
      FlatMembers(L.files, c);
    }
    forall c | c in L.root
      ensures c !in Flat(L.files)
    {
      assert forall i :: 0 <= i < |L.files| ==> Disjoint(L.root, L.files[i]);
    }
    DistinctConcat(L.root, Flat(L.files));
  }

  /** Free clusters, clusters on chains and foreign clusters are all the clusters there are. */
  lemma Conservation(v: View, root: nat, L: Layout)
    requires 2 <= |v.fat| < EOC && Lays(v, root, L)
    ensures Distinct(AllChains(L))
    ensures |FreeSet(v.fat)| + |AllChains(L)| + |Foreign(v, L)| == |v.fat| - 2
    ensures Foreign(v, L) == {} ==> forall c: nat :: InFat(v.fat, c) ==> (v.fat[c] != 0 <==> c in AllChains(L))
  {
    AllDistinct(v, root, L);
    LaysInData(v, root, L, -1);
    FreeUsed(v.fat);
    DistinctCard(AllChains(L));
    assert UsedSet(v.fat) == SetOf(AllChains(L)) + Foreign(v, L);
    assert SetOf(AllChains(L)) !! Foreign(v, L);
    forall c: nat | InFat(v.fat, c) && Foreign(v, L) == {}
      ensures v.fat[c] != 0 <==> c in AllChains(L)
    {
      assert c in UsedSet(v.fat) <==> v.fat[c] != 0;
    }
  }

  /** A write that ran out of clusters leaves every cluster either on a chain or lost. */
  lemma TornConserves(v0: View, L: Layout, w: View, L': Layout, root: nat, want: Key, text: seq<byte>, cb: nat)
    requires 2 <= |w.fat| && Lays(v0, root, L) && Torn(v0, L, w, L', root, want, text, cb)
    ensures |AllChains(L')| + |Foreign(w, L')| == |w.fat| - 2 && Distinct(AllChains(L'))
  {
    Conservation(w, root, L');
  }

  // ---- every run ----

  datatype Op = WriteOp(name: seq<byte>, text: seq<byte>) | MakeDirOp(name: seq<byte>) | UnlinkOp(name: seq<byte>)

  /** How one operation that answered code changes the map. */
  ghost predicate Next(f: map<Key, Entry>, op: Op, code: Code, f': map<Key, Entry>) {
    var k := KeyOf(op.name);
    if code == NoSpace && op.WriteOp? then TornFiles(f, f', k, op.text)
    else if code != Ok then f' == f
    else match op
      case WriteOp(_, text) => f' == if k[0] == DELETED then f else f[k := File(text)]
      case MakeDirOp(_) => f' == if k[0] == DELETED then f else f[k := Directory]
      case UnlinkOp(_) => f' == f - {k}
  }

  /** A run neither tears a file nor creates an entry that reads as deleted. */
  ghost predicate Clean(op: Op, code: Code) {
    !(op.WriteOp? && code == NoSpace) && (op.name != [] ==> op.name[0] != DELETED)
  }

  /** w follows v0: what belongs to no root entry is untouched and still there, with nothing added if clean. */
  ghost predicate Follows(v0: View, L: Layout, w: View, L': Layout, clean: bool) {
    ForeignKept(v0, L, w) && Foreign(v0, L) <= Foreign(w, L') && (clean ==> Foreign(w, L') == Foreign(v0, L))
  }

  lemma FollowsOn(v0: View, L: Layout, v: View, M: Layout, w: View, L': Layout, a: bool, b: bool)
    requires Follows(v0, L, v, M, a) && Follows(v, M, w, L', b)
    ensures Follows(v0, L, w, L', a && b)
  {
  }

  method DoWrite(vol: Volume, name: seq<byte>, text: seq<byte>, ghost L: Layout) returns (code: Code, ghost L': Layout)
    requires Good(vol, L) && CString(name)
    modifies vol`disk, vol`view
    ensures Good(vol, L') && Next(old(FilesOf(vol, L)), WriteOp(name, text), code, FilesOf(vol, L'))
    ensures Follows(old(vol.view), L, vol.view, L', Clean(WriteOp(name, text), code))
  {
    if name != [] {
      KeyFirst(name);
    }
    code, L' := Write(vol, name, text, L);
    if code != Ok && code != NoSpace {
      L' := L;
    }
  }

  method DoMakeDir(vol: Volume, name: seq<byte>, ghost L: Layout) returns (code: Code, ghost L': Layout)
    requires Good(vol, L) && CString(name)
    modifies vol`disk, vol`view
    ensures Good(vol, L') && Next(old(FilesOf(vol, L)), MakeDirOp(name), code, FilesOf(vol, L'))
    ensures Follows(old(vol.view), L, vol.view, L', Clean(MakeDirOp(name), code))
  {
    if name != [] {
      KeyFirst(name);
    }
    ghost var d;
    code, L', d := MakeDir(vol, name, L);
    if code != Ok && code != NoSpace {
      L' := L;
    }
  }

  method DoUnlink(vol: Volume, name: seq<byte>, ghost L: Layout) returns (code: Code, ghost L': Layout)
    requires Good(vol, L) && CString(name)
    modifies vol`disk, vol`view
    ensures Good(vol, L') && Next(old(FilesOf(vol, L)), UnlinkOp(name), code, FilesOf(vol, L'))
    ensures Follows(old(vol.view), L, vol.view, L', true)
  {
    code, L' := Unlink(vol, name, L);
    if code != Ok && code != NotFound {
      L' := L;
    }
  }

  /** One operation, whatever it answers. */
  method Do(vol: Volume, op: Op, ghost L: Layout) returns (code: Code, ghost L': Layout)
    requires Good(vol, L) && CString(op.name)
    modifies vol`disk, vol`view
    ensures Good(vol, L') && Next(old(FilesOf(vol, L)), op, code, FilesOf(vol, L'))
    ensures Follows(old(vol.view), L, vol.view, L', Clean(op, code))
  {
    match op
    case WriteOp(name, text) => code, L' := DoWrite(vol, name, text, L);
    case MakeDirOp(name) => code, L' := DoMakeDir(vol, name, L);
    case UnlinkOp(name) => code, L' := DoUnlink(vol, name, L);
  }

  ghost predicate AllClean(ops: seq<Op>, codes: seq<Code>) {
    |codes| == |ops| && forall i :: 0 <= i < |ops| ==> Clean(ops[i], codes[i])
  }

  /** The map before, between and after the operations of a run. */
  ghost predicate Trace(fs: seq<map<Key, Entry>>, ops: seq<Op>, codes: seq<Code>) {
    |fs| == |ops| + 1 && |codes| == |ops| && forall i :: 0 <= i < |ops| ==> Next(fs[i], ops[i], codes[i], fs[i + 1])
  }

  /**
    What a run makes of a volume: it keeps its layout, each operation does to the map what its answer
    says, and what belongs to no root entry is never touched, nor added to if the run is clean.
   */
  ghost predicate Ran(v: View, L: Layout, w: View, L': Layout, root: nat,
                      fs: seq<map<Key, Entry>>, ops: seq<Op>, codes: seq<Code>) {
    && Lays(v, root, L) && Lays(w, root, L')
    && Trace(fs, ops, codes) && fs[0] == Files(v, root, L) && fs[|ops|] == Files(w, root, L')
    && Follows(v, L, w, L', AllClean(ops, codes))
  }

  lemma RanNone(v: View, L: Layout, root: nat)
    requires |v.data| == |v.fat| && Lays(v, root, L)
    ensures Ran(v, L, v, L, root, [Files(v, root, L)], [], [])
  {
  }

  lemma RanCons(v: View, L: Layout, u: View, M: Layout, w: View, L': Layout, root: nat,
                fs: seq<map<Key, Entry>>, ops: seq<Op>, codes: seq<Code>, code: Code)
    requires ops != [] && Ran(u, M, w, L', root, fs, ops[1..], codes)
    requires Lays(v, root, L) && Next(Files(v, root, L), ops[0], code, Files(u, root, M))
    requires Follows(v, L, u, M, Clean(ops[0], code))
    ensures Ran(v, L, w, L', root, [Files(v, root, L)] + fs, ops, [code] + codes)
  {
    TraceCons(Files(v, root, L), ops[0], code, fs, ops[1..], codes);
    FollowsOn(v, L, u, M, w, L', Clean(ops[0], code), AllClean(ops[1..], codes));
    assert [ops[0]] + ops[1..] == ops;
  }

  /** Any operations in any order, whatever they answer. */
  method Run(vol: Volume, ops: seq<Op>, ghost L: Layout)
    returns (codes: seq<Code>, ghost L': Layout, ghost fs: seq<map<Key, Entry>>)
    requires Good(vol, L)
    requires forall i :: 0 <= i < |ops| ==> CString(ops[i].name)
    modifies vol`disk, vol`view
    ensures vol.Ready() && Ran(old(vol.view), L, vol.view, L', vol.g.root, fs, ops, codes)
    decreases |ops|
  {
    ghost var v := vol.view;
    if ops == [] {
      L', codes, fs := L, [], [FilesOf(vol, L)];
      RanNone(v, L, vol.g.root);
    } else {
      var code;
      ghost var M;
      code, M := Do(vol, ops[0], L);
      ghost var u := vol.view;
      codes, L', fs := Run(vol, ops[1..], M);
      RanCons(v, L, u, M, vol.view, L', vol.g.root, fs, ops, codes, code);
      codes, fs := [code] + codes, [Files(v, vol.g.root, L)] + fs;
    }
  }

  lemma TraceCons(f: map<Key, Entry>, op: Op, code: Code, fs: seq<map<Key, Entry>>, ops: seq<Op>, codes: seq<Code>)
    requires Trace(fs, ops, codes) && Next(f, op, code, fs[0])
    ensures Trace([f] + fs, [op] + ops, [code] + codes)
    ensures AllClean([op] + ops, [code] + codes) ==> Clean(op, code) && AllClean(ops, codes)
  {
    var fs', ops', codes' := [f] + fs, [op] + ops, [code] + codes;
    forall i | 0 <= i < |ops'|
      ensures Next(fs'[i], ops'[i], codes'[i], fs'[i + 1])
    {
      if i > 0 {
        assert Next(fs[i - 1], ops[i - 1], codes[i - 1], fs[i]);
      }
    }
    if AllClean(ops', codes') {
      assert Clean(ops'[0], codes'[0]);
      forall i | 0 <= i < |ops|
        ensures Clean(ops[i], codes[i])
      {
        assert Clean(ops'[i + 1], codes'[i + 1]);
      }
    }
  }

  // ---- nothing leaks ----

  /** After a clean run over a volume without foreign clusters, every cluster is either free or on a chain. */
  lemma CleanRunConserves(v: View, L: Layout, w: View, L': Layout, root: nat,
                          fs: seq<map<Key, Entry>>, ops: seq<Op>, codes: seq<Code>)
    requires 2 <= |w.fat| < EOC && Ran(v, L, w, L', root, fs, ops, codes)
    requires AllClean(ops, codes) && Foreign(v, L) == {}
    ensures |FreeSet(w.fat)| + |AllChains(L')| == |w.fat| - 2 && Distinct(AllChains(L'))
    ensures forall c: nat :: InFat(w.fat, c) ==> (w.fat[c] != 0 <==> c in AllChains(L'))
    ensures Files(w, root, L') == map[] ==> |FreeSet(w.fat)| + |L'.root| == |w.fat| - 2
  {
    Conservation(w, root, L');
    assert Foreign(w, L') == {};
    if Files(w, root, L') == map[] {
      EmptyOwnsNothing(w, root, L');
    }
  }

  /** Where the map is empty, only the root has clusters. */
  lemma EmptyOwnsNothing(v: View, root: nat, L: Layout)
    requires Lays(v, root, L) && Files(v, root, L) == map[]
    ensures AllChains(L) == L.root
  {
    LaysInData(v, root, L, -1);
    var slots := Slots(v.data, L.root);
    forall i | 0 <= i < |L.files|
      ensures L.files[i] == []
    {
      assert SlotOk(v.fat, slots[i], L.files[i]);
      if Live(slots[i]) {
        FilesAt(v, root, L, -1, i);
        assert false;
      }
    }
    FlatNothing(L.files);
  }

  lemma {:induction false} FlatNothing(files: seq<seq<nat>>)
    requires forall i :: 0 <= i < |files| ==> files[i] == []
    ensures Flat(files) == []
  {
    if files != [] {
      FlatNothing(files[1..]);
    }
  }

  /**
    A new volume, and any operations on it: unless one ran out of space or used a name that reads as deleted,
    no cluster is lost.
   */
  method FormatAndRun(vol: Volume, part: nat, size: nat, ops: seq<Op>)
    returns (codes: seq<Code>, ghost L': Layout, ghost fs: seq<map<Key, Entry>>)
    requires part < 0x1_0000_0000 && size < 0x1_0000_0000 && part + SizeOf(size) <= |vol.disk| && RoomForEntries(size)
    requires forall i :: 0 <= i < |ops| ==> CString(ops[i].name)
    modifies vol
    ensures Good(vol, L') && vol.g == NewGeometry(part, size)
    ensures Trace(fs, ops, codes) && fs[0] == map[] && fs[|ops|] == FilesOf(vol, L')
    ensures AllClean(ops, codes) ==>
              |FreeSet(vol.view.fat)| + |AllChains(L')| == vol.g.clusters && Distinct(AllChains(L'))
    ensures AllClean(ops, codes) && FilesOf(vol, L') == map[] ==> |FreeSet(vol.view.fat)| + |L'.root| == vol.g.clusters
  {
    FormatAndMount(vol, part, size);
    ghost var v := vol.view;
    codes, L', fs := Run(vol, ops, NEW_LAYOUT);
    if AllClean(ops, codes) {
      CleanRunConserves(v, NEW_LAYOUT, vol.view, L', vol.g.root, fs, ops, codes);
    }
  }

  // ---- one operation after another ----

  /**
    What has been written is what is read, under any name with the same key and so under any that differs in case
    only, unless the name starts with the deletion marker: then the write still answers Ok, and the file is not there.
   */
  method WriteThenRead(vol: Volume, name: seq<byte>, text: seq<byte>, other: seq<byte>, bufSize: nat, ghost L: Layout)
    returns (wrote: Code, read: Code, buf: seq<byte>, ghost L': Layout)
    requires Good(vol, L) && CString(name) && CString(other) && bufSize > 0
    requires other != [] && (SameLetters(name, other) || KeyOf(other) == KeyOf(name))
    modifies vol`disk, vol`view
    ensures wrote == Ok ==> name != []
    ensures wrote == Ok && name[0] != DELETED ==> read == Ok && buf == Prefix(text, bufSize)
    ensures wrote == Ok && name[0] == DELETED ==> read == NotFound
  {
    wrote, L' := Write(vol, name, text, L);
    if wrote == Ok {
      KeyFirst(name);
      NoDeletedKey(vol.view, vol.g.root, L', KeyOf(name));
      if SameLetters(name, other) {
        KeyIgnoresCase(name, other);
      }
      read, buf := ReadFile(vol, other, bufSize, L');
    } else {
      read, buf := wrote, [];
    }
  }

  lemma NoDeletedKey(v: View, root: nat, L: Layout, k: Key)
    requires Lays(v, root, L)
    ensures k[0] == DELETED ==> k !in Files(v, root, L)
  {
    if k in Files(v, root, L) {
      var i := FilesFrom(v, root, L, -1, k);
    }
  }

  lemma PutAndTake(f: map<Key, Entry>, k: Key, x: Entry)
    requires k !in f
    ensures f[k := x] - {k} == f
  {
  }

  /** A directory just made can be removed, which brings back the map there was. */
  method MakeDirThenUnlink(vol: Volume, name: seq<byte>, ghost L: Layout)
    returns (made: Code, gone: Code, ghost L': Layout)
    requires Good(vol, L) && CString(name)
    modifies vol`disk, vol`view
    ensures made == Ok ==> name != []
    ensures made == Ok && name[0] != DELETED ==>
              && gone == Ok && Good(vol, L') && FilesOf(vol, L') == old(FilesOf(vol, L))
              && Foreign(vol.view, L') == old(Foreign(vol.view, L))
  {
    ghost var d;
    ghost var f := FilesOf(vol, L);
    made, L', d := MakeDir(vol, name, L);
    gone := made;
    if made == Ok {
      KeyFirst(name);
      ghost var M := L';
      if name[0] != DELETED {
        NewDirEmpty(d, vol.g.root, ClusterBytes(vol.g));
        ghost var i: int :| 0 <= i < |M.files| && Matches(RootSlots(vol, M)[i], KeyOf(name)) && M.files[i] == [d];
        ChainOfAt(vol, M, KeyOf(name), i);
        PutAndTake(f, KeyOf(name), Directory);
      }
      gone, L' := Unlink(vol, name, M);
    }
  }
}
