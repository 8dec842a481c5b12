/** Reading, writing, making and removing root entries. */
module FatOps {
  import opened Bytes
  import opened FatChains
  import opened FatLayout
  import opened FatDisk
  import opened FatSteps
  import opened FatBuild
  import opened FatVolume
  import opened FatNames
  import opened FatDirectory

  datatype Code = Ok | Io | NotFound | IsDir | TooBig | NotMounted | NoSpace | Exists | NotEmpty

  const WRITE_MAX := 4096

  // ---- reading ----

  /** The clusters of a chain one after the other, up to `remaining` bytes in all, as fat32_read_file copies them. */
  method ReadChain(vol: Volume, start: nat, size: nat, limit: nat, ghost ch: seq<nat>) returns (buf: seq<byte>)
    requires vol.Ready() && InData(vol.view.data, ch)
    requires if start < 2 then ch == [] else IsChain(vol.view.fat, start, ch)
    ensures buf == Prefix(Concat(vol.view.data, ch), Min(size, limit))
  {
    ghost var v := vol.view;
    ghost var k, n := 0, Min(size, limit);
    var cluster, remaining := start, size;
    buf := [];
    assert ch[0..] == ch;
    while 2 <= cluster < EOC && remaining > 0 && |buf| < limit
      invariant k <= |ch| && |buf| <= n && |buf| + remaining == size
      invariant if 2 <= cluster < EOC then k < |ch| && cluster == ch[k] else k == |ch|
      invariant ReadSoFar(v.data, ch, k, n, buf)
      decreases |ch| - k
    {
      ChainNext(v.fat, start, ch, k);
      var cl := vol.ReadCluster(cluster);
      var chunk := Min(Min(|cl|, remaining), limit - |buf|);
      ReadStep(v.data, ch, k, n, buf, chunk);
      buf, remaining := buf + cl[..chunk], remaining - chunk;
      cluster := vol.FatGet(cluster);
      k := k + 1;
    }
  }

  /** buf holds what the first k clusters give of the n bytes asked for. */
  ghost predicate ReadSoFar(data: seq<seq<byte>>, ch: seq<nat>, k: nat, n: nat, buf: seq<byte>)
    requires InData(data, ch) && k <= |ch| && |buf| <= n
  {
    Prefix(Concat(data, ch), n) == buf + Prefix(Concat(data, ch[k..]), n - |buf|)
  }

  lemma ReadStep(data: seq<seq<byte>>, ch: seq<nat>, k: nat, n: nat, buf: seq<byte>, chunk: nat)
    requires InData(data, ch) && k < |ch| && |buf| <= n && ReadSoFar(data, ch, k, n, buf)
    requires chunk == Min(|data[ch[k]]|, n - |buf|)
    ensures ReadSoFar(data, ch, k + 1, n, buf + data[ch[k]][..chunk])
  {
    assert ch[k..][1..] == ch[k + 1..];
    ChunkStep(buf, data[ch[k]], Concat(data, ch[k + 1..]), n - |buf|, chunk);
  }

  lemma ChunkStep(buf: seq<byte>, cl: seq<byte>, rest: seq<byte>, n: nat, chunk: nat)
    requires chunk == Min(|cl|, n)
    ensures buf + Prefix(cl + rest, n) == (buf + cl[..chunk]) + Prefix(rest, n - chunk)
  {
    if n <= |cl| {
      assert Prefix(cl + rest, n) == cl[..n];
      assert Prefix(rest, 0) == [];
    } else {
      assert cl[..chunk] == cl;
      assert Prefix(cl + rest, n) == cl + Prefix(rest, n - |cl|);
    }
  }

  /** fat32_read_file: the file's contents, cut to the caller's buffer. */
  method ReadFile(vol: Volume, name: seq<byte>, bufSize: nat, ghost L: Layout) returns (code: Code, buf: seq<byte>)
    requires CString(name)
    requires vol.mounted ==> Good(vol, L)
    ensures !vol.mounted ==> code == NotMounted
    ensures vol.mounted ==>
              if name == [] || bufSize == 0 || KeyOf(name) !in FilesOf(vol, L) then code == NotFound
              else match FilesOf(vol, L)[KeyOf(name)]
                   case Directory => code == IsDir
                   case File(bytes) => code == Ok && buf == Prefix(bytes, bufSize)
    ensures code != Ok ==> buf == []
  {
    buf := [];
    if !vol.mounted {
      return NotMounted, [];
    }
    if name == [] || bufSize == 0 {
      return NotFound, [];
    }
    var want := NameTo83(name);
    var found, e;
    ghost var i;
    found, e, i := Lookup(vol, want, L);
    if !found {
      return NotFound, [];
    }
    FilesAt(vol.view, vol.g.root, L, -1, i);
    if e[11] / 16 % 2 == 1 {
      return IsDir, [];
    }
    assert SlotOk(vol.view.fat, e, L.files[i]);
    buf := ReadChain(vol, 0x1_0000 * Le16(e, 20) + Le16(e, 26), Le32(e, 28), bufSize, L.files[i]);
    PrefixTwice(Concat(vol.view.data, L.files[i]), Size(e), bufSize);
    code := Ok;
  }

  lemma PrefixTwice(s: seq<byte>, a: nat, b: nat)
    ensures Prefix(Prefix(s, a), b) == Prefix(s, Min(a, b))
  {
  }

  // ---- writing ----

  /** One round of the allocation loop of fat32_write; c == 0 when no cluster is free. */
  method WriteNext(vol: Volume, text: seq<byte>, pos: nat, prev: nat, ghost v0: View, ghost nc: seq<nat>)
    returns (c: nat, pos': nat)
    requires vol.Ready() && pos < |text|
    requires Writing(v0, vol.view, nc, text, pos)
    requires if nc == [] then prev == 0 else prev == nc[|nc| - 1] && prev >= 2
    modifies vol`disk, vol`view
    ensures vol.Ready() && pos' == pos + Min(|text| - pos, ClusterBytes(vol.g))
    ensures c == 0 ==> vol.view == old(vol.view) && FreeSet(vol.view.fat) == {}
    ensures c != 0 ==> c >= 2 && Writing(v0, vol.view, nc + [c], text, pos')
  {
    ghost var v := vol.view;
    var clusterBytes := ClusterBytes(vol.g);
    var chunk := Min(|text| - pos, clusterBytes);
    pos' := pos + chunk;
    var cl := text[pos..pos + chunk] + Zeros(clusterBytes - chunk);
    WritingChain(v0, v, nc, text, pos);
    c := LinkNext(vol, prev, cl, nc);
    if c != 0 {
      WritingNext(v0, v, nc, c, cl, text, pos, chunk);
    }
  }

  /** Takes a cluster, links it behind the last one and fills it. */
  method LinkNext(vol: Volume, prev: nat, cl: seq<byte>, ghost nc: seq<nat>) returns (c: nat)
    requires vol.Ready() && |cl| == ClusterBytes(vol.g) && ChainOrNone(vol.view.fat, nc)
    requires if nc == [] then prev == 0 else prev == nc[|nc| - 1] && prev >= 2
    modifies vol`disk, vol`view
    ensures vol.Ready()
    ensures c == 0 ==> vol.view == old(vol.view) && FreeSet(vol.view.fat) == {}
    ensures c != 0 ==> InFat(old(vol.view).fat, c) && old(vol.view).fat[c] == 0
                       && (nc != [] ==> prev < |old(vol.view).fat|)
    ensures c != 0 ==> vol.view == Appended(old(vol.view), nc, c, cl)
  {
    c := vol.AllocCluster();
    if c == 0 {
      return;
    }
    if prev != 0 {
      vol.FatSet(prev, c);
    }
    vol.WriteCluster(c, cl);
  }

  lemma WritingNext(v0: View, v: View, nc: seq<nat>, c: nat, cl: seq<byte>, text: seq<byte>, pos: nat, chunk: nat)
    requires Writing(v0, v, nc, text, pos) && |v.fat| == |v.data| && |v.fat| < EOC && InFat(v.fat, c) && v.fat[c] == 0
    requires nc != [] ==> nc[|nc| - 1] < |v.fat|
    requires pos < |text| && chunk == Min(|text| - pos, |cl|) && cl == text[pos..pos + chunk] + Zeros(|cl| - chunk)
    ensures Writing(v0, Appended(v, nc, c, cl), nc + [c], text, pos + chunk)
  {
    WritingIs(v0, v, nc, text, pos);
    NotOnChain(v.fat, nc, c);
    AppendTaken(v0, v, nc, c, cl);
    AppendChain(v, nc, c, cl);
    assert cl[..chunk] == text[pos..pos + chunk];
    AppendHolds(v, nc, c, cl, text, pos, chunk);
    WritingIs(v0, Appended(v, nc, c, cl), nc + [c], text, pos + chunk);
  }

  /** The last cluster is end-marked again; it already was. */
  method SealChain(vol: Volume, prev: nat, ghost nc: seq<nat>)
    requires vol.Ready() && nc != [] && prev == nc[|nc| - 1] && ChainOrNone(vol.view.fat, nc)
    modifies vol`disk, vol`view
    ensures vol.Ready() && vol.view == old(vol.view)
  {
    vol.FatSet(prev, END_MARK);
    assert vol.view.fat == old(vol.view).fat;
  }

  /**
    The allocation loop of fat32_write: clusters for text, one after the other. When the volume
    runs out, the clusters taken so far stay taken.
   */
  method WriteChain(vol: Volume, text: seq<byte>) returns (ok: bool, first: nat, ghost nc: seq<nat>, ghost pos': nat)
    requires vol.Ready()
    modifies vol`disk, vol`view
    ensures vol.Ready()
    ensures Writing(old(vol.view), vol.view, nc, text, pos')
    ensures ok <==> |FreeSet(old(vol.view).fat)| >= Need(|text|, ClusterBytes(vol.g))
    ensures ok ==> first == (if nc == [] then 0 else nc[0]) && pos' == |text|
    ensures ok ==> |nc| == Need(|text|, ClusterBytes(vol.g))
    ensures !ok ==> FreeSet(vol.view.fat) == {} && pos' < |text|
  {
    var prev;
    ok, first, prev, nc, pos' := FillChain(vol, text);
    WritingCount(old(vol.view), vol.view, nc, text, pos');
    assert !ok ==> Need(|text| - pos', ClusterBytes(vol.g)) > 0;
    if ok && prev != 0 {
      WritingChain(old(vol.view), vol.view, nc, text, pos');
      SealChain(vol, prev, nc);
    }
  }

  /** How far the allocation loop has come: pos bytes written, the clusters nc taken, as many as they need. */
  ghost predicate Filling(v0: View, v: View, nc: seq<nat>, text: seq<byte>, pos: nat, cb: nat, first: nat, last: nat) {
    && cb > 0 && pos <= |text| && Writing(v0, v, nc, text, pos)
    && |nc| + Need(|text| - pos, cb) == Need(|text|, cb)
    && (if nc == [] then first == last == 0 else first == nc[0] && last == nc[|nc| - 1] && first >= 2 && last >= 2)
  }

  lemma FillingStart(v: View, text: seq<byte>, cb: nat)
    requires |v.data| == |v.fat| && cb > 0
    ensures Filling(v, v, [], text, 0, cb, 0, 0)
  {
    WritingStart(v, text);
  }

  lemma FillingNext(v0: View, v: View, v': View, nc: seq<nat>, text: seq<byte>, pos: nat, cb: nat, first: nat,
                    last: nat, c: nat)
    requires Filling(v0, v, nc, text, pos, cb, first, last) && pos < |text| && c >= 2
    requires Writing(v0, v', nc + [c], text, pos + Min(|text| - pos, cb))
    ensures Filling(v0, v', nc + [c], text, pos + Min(|text| - pos, cb), cb, if first == 0 then c else first, c)
  {
    NeedNext(|text|, pos, pos + Min(|text| - pos, cb), cb);
  }

  method FillChain(vol: Volume, text: seq<byte>)
    returns (ok: bool, first: nat, prev: nat, ghost nc: seq<nat>, ghost pos': nat)
    requires vol.Ready()
    modifies vol`disk, vol`view
    ensures vol.Ready() && Filling(old(vol.view), vol.view, nc, text, pos', ClusterBytes(vol.g), first, prev)
    ensures ok <==> pos' == |text|
    ensures !ok ==> FreeSet(vol.view.fat) == {}
  {
    var pos := 0;
    first, prev, nc, ok := 0, 0, [], true;
    FillingStart(vol.view, text, ClusterBytes(vol.g));
    while ok && pos < |text|
      invariant vol.Ready()
      invariant Filling(old(vol.view), vol.view, nc, text, pos, ClusterBytes(vol.g), first, prev)
      invariant !ok ==> pos < |text| && FreeSet(vol.view.fat) == {}
      decreases |text| - pos, ok
    {
      ok, pos, first, prev, nc := FillOne(vol, text, pos, first, prev, old(vol.view), nc);
    }
    pos' := pos;
  }

  method FillOne(vol: Volume, text: seq<byte>, pos: nat, first: nat, prev: nat, ghost v0: View, ghost nc: seq<nat>)
    returns (ok: bool, pos': nat, first': nat, prev': nat, ghost nc': seq<nat>)
    requires vol.Ready() && pos < |text| && Filling(v0, vol.view, nc, text, pos, ClusterBytes(vol.g), first, prev)
    modifies vol`disk, vol`view
    ensures vol.Ready() && Filling(v0, vol.view, nc', text, pos', ClusterBytes(vol.g), first', prev')
    ensures if ok then pos < pos' else pos' == pos && FreeSet(vol.view.fat) == {}
  {
    ghost var v := vol.view;
    ok, pos', first', prev', nc' := false, pos, first, prev, nc;
    var c, next := WriteNext(vol, text, pos, prev, v0, nc);
    if c != 0 {
      FillingNext(v0, v, vol.view, nc, text, pos, ClusterBytes(vol.g), first, prev, c);
      ok, pos', first', prev', nc' := true, next, if first == 0 then c else first, c, nc + [c];
    }
  }

  /** Frees the chain of an entry, if it has one. */
  method FreeFile(vol: Volume, c: nat, ghost ch: seq<nat>)
    requires vol.Ready()
    requires if c < 2 then ch == [] else IsChain(vol.view.fat, c, ch)
    modifies vol`disk, vol`view
    ensures vol.Ready()
    ensures vol.view == old(vol.view).(fat := ZeroAll(old(vol.view).fat, SetOf(ch)))
  {
    ZeroNone(vol.view.fat);
    if c >= 2 {
      ReachChain(vol.view.fat, c, ch);
      ChainMembers(vol.view.fat, c, ch);
      vol.FreeChain(c);
      assert vol.view.fat == ZeroAll(old(vol.view).fat, SetOf(ch));
    }
  }

  /** Overwrites the entry at p: the read-modify-write of one root cluster. */
  method PutEntry(vol: Volume, p: Place, e: Slot, ghost L: Layout, ghost j: nat)
    requires vol.Ready() && j < |L.root| && p.cluster == L.root[j] && InFat(vol.view.fat, p.cluster)
    requires 32 * p.o + 32 <= ClusterBytes(vol.g)
    modifies vol`disk, vol`view
    ensures vol.Ready() && vol.view == Put(old(vol.view), L, j, p.o, e)
  {
    var buf := vol.ReadCluster(p.cluster);
    vol.WriteCluster(p.cluster, buf[..32 * p.o] + e + buf[32 * p.o + 32..]);
  }

  /** The clusters that the entry of key k owns. */
  ghost function ChainOf(vol: Volume, L: Layout, k: Key): seq<nat>
    requires Good(vol, L)
    reads vol
  {
    if k in FilesOf(vol, L) then L.files[IndexOf(RootSlots(vol, L), -1, k)] else []
  }

  /** Room for len bytes under key k, once k's old clusters are back and the root has grown if it must. */
  ghost predicate Fits(vol: Volume, L: Layout, k: Key, len: nat)
    requires Good(vol, L)
    reads vol
  {
    |FreeSet(vol.view.fat)| + |ChainOf(vol, L, k)|
      >= Need(len, ClusterBytes(vol.g)) + (if k !in FilesOf(vol, L) && RootFull(RootSlots(vol, L)) then 1 else 0)
  }

  /** What fat32_write answers. */
  ghost function WriteCode(vol: Volume, L: Layout, name: seq<byte>, len: nat): Code
    requires vol.mounted ==> Good(vol, L)
    reads vol
  {
    if !vol.mounted then NotMounted
    else if name == [] then NotFound
    else if len > WRITE_MAX then TooBig
    else if KeyOf(name) in FilesOf(vol, L) && FilesOf(vol, L)[KeyOf(name)].Directory? then IsDir
    else if Fits(vol, L, KeyOf(name), len) then Ok
    else NoSpace
  }

  lemma ChainOfAt(vol: Volume, L: Layout, k: Key, i: nat)
    requires Good(vol, L) && i < |L.files| && Matches(RootSlots(vol, L)[i], k)
    ensures ChainOf(vol, L, k) == L.files[i]
    ensures k in FilesOf(vol, L)
    ensures FilesOf(vol, L)[k].Directory? <==> IsDirectory(RootSlots(vol, L)[i])
  {
    FilesAt(vol.view, vol.g.root, L, -1, i);
    var m := IndexOf(RootSlots(vol, L), -1, k);
    assert NamesApart(RootSlots(vol, L), -1);
  }

  /** The entry for a file of text starting at the clusters nc. */
  lemma FileEntry(data: seq<seq<byte>>, fat: seq<nat>, want: Key, text: seq<byte>, nc: seq<nat>, first: nat, e: Slot)
    requires |text| <= WRITE_MAX && first < 0x1_0000_0000
    requires e == MakeSlot(want, ATTR_ARCHIVE, first, |text|)
    requires ChainOrNone(fat, nc) && Holds(data, nc, text, |text|)
    requires first == if nc == [] then 0 else nc[0]
    ensures Name(e) == want && e[11] == 0x20 && (Live(e) <==> want[0] != 0 && want[0] != DELETED)
    ensures SlotOk(fat, e, if Live(e) then nc else [])
    ensures InData(data, nc) && EntryOf(data, e, nc) == File(text)
  {
    assert Prefix(Concat(data, nc), |text|) == text;
  }

  /** Every root entry before i is in use or deleted, so entry i may be filled. */
  ghost predicate UsedBefore(slots: seq<Slot>, i: nat) {
    forall n :: 0 <= n < i && n < |slots| ==> slots[n][0] != 0
  }

  /** Entry i is the one named want, or one that nothing of that name uses. */
  ghost predicate EntryFor(v: View, root: nat, L: Layout, want: Key, i: nat)
    requires Lays(v, root, L)
  {
    && i < |L.files| && UsedBefore(Slots(v.data, L.root), i)
    && var e := Slots(v.data, L.root)[i]; if Live(e) then Name(e) == want else want !in Files(v, root, L)
  }

  /**
    w is v0 with text stored under want, and nobody else's clusters touched. Under a key that reads as
    deleted the map stays as it was, and the clusters belong to no one.
   */
  ghost predicate Stored(v0: View, L: Layout, w: View, L': Layout, root: nat, want: Key, text: seq<byte>, cb: nat)
    requires cb > 0 && Lays(v0, root, L)
  {
    && Sized(w, cb) && Lays(w, root, L') && ForeignKept(v0, L, w)
    && (want[0] != DELETED ==>
          Files(w, root, L') == Files(v0, root, L)[want := File(text)] && Foreign(w, L') == Foreign(v0, L))
    && (want[0] == DELETED ==>
          && Files(w, root, L') == Files(v0, root, L) && Foreign(v0, L) <= Foreign(w, L')
          && |Foreign(w, L')| == |Foreign(v0, L)| + Need(|text|, cb))
  }

  ghost function Freed(v: View, L: Layout, i: nat): View
    requires i < |L.files|
  {
    v.(fat := ZeroAll(v.fat, SetOf(L.files[i])))
  }

  lemma StoreDone(v0: View, v2: View, root: nat, L: Layout, i: nat, j: nat, o: nat, e: Slot, nc: seq<nat>,
                  want: Key, text: seq<byte>, cb: nat)
    requires Sized(v0, cb) && Sized(v2, cb) && Lays(v0, root, L) && At(v0, L, i, j, o) && EntryFor(v0, root, L, want, i)
    requires Taken(Freed(v0, L, i), v2, nc) && |nc| == Need(|text|, cb)
    requires Name(e) == want && want[0] != 0 && (Live(e) <==> want[0] != DELETED)
    requires SlotOk(v2.fat, e, if Live(e) then nc else [])
    requires InData(v2.data, nc) && EntryOf(v2.data, e, nc) == File(text)
    ensures j < |L.root| && L.root[j] < |v2.data| && 32 * o + 32 <= |v2.data[L.root[j]]|
    ensures var L' := L.(files := L.files[i := if Live(e) then nc else []]);
            Stored(v0, L, Put(v2, L, j, o, e), L', root, want, text, cb)
  {
    StoreLaid(v0, v2, root, L, i, j, o, e, nc, want, cb);
    StoreForeign(v0, v2, root, L, i, j, o, e, nc);
    MapReplace(Files(v0, root, L), want, File(text));
    if !Live(e) {
      EmptySlot(v0, root, L, i, want, cb);
      TakenLeak(Freed(v0, L, i), v2, Without(L, i), nc);
    }
  }

  /** The layout, the map and the foreign clusters once the new chain and the new entry are in place. */
  lemma StoreLaid(v0: View, v2: View, root: nat, L: Layout, i: nat, j: nat, o: nat, e: Slot, nc: seq<nat>, want: Key,
                  cb: nat)
    requires Sized(v0, cb) && Sized(v2, cb) && Lays(v0, root, L) && At(v0, L, i, j, o) && EntryFor(v0, root, L, want, i)
    requires TakenCells(Freed(v0, L, i), v2, SetOf(nc))
    requires Name(e) == want && want[0] != 0
    requires SlotOk(v2.fat, e, if Live(e) then nc else [])
    ensures j < |L.root| && L.root[j] < |v2.data| && 32 * o + 32 <= |v2.data[L.root[j]]| && InData(v2.data, nc)
    ensures var w, L' := Put(v2, L, j, o, e), L.(files := L.files[i := if Live(e) then nc else []]);
            && Sized(w, cb) && Lays(w, root, L')
            && Files(w, root, L') == (if Live(e) then (Files(v0, root, L) - {want})[want := EntryOf(v2.data, e, nc)]
                                      else Files(v0, root, L) - {want})
            && Foreign(w, L') == Foreign(v0, L) + (if Live(e) then {} else SetOf(nc))
  {
    var v1, L1 := Freed(v0, L, i), Without(L, i);
    EmptySlot(v0, root, L, i, want, cb);
    AtFrame(v0, v1, L, L1, i, j, o);
    FillSlot(v1, v2, root, L1, i, j, o, e, nc, cb);
    SetTwice(L.files, i, [], if Live(e) then nc else []);
  }

  lemma StoreForeign(v0: View, v2: View, root: nat, L: Layout, i: nat, j: nat, o: nat, e: Slot, nc: seq<nat>)
    requires Lays(v0, root, L) && i < |L.files| && TakenCells(Freed(v0, L, i), v2, SetOf(nc))
    requires j < |L.root| && L.root[j] < |v2.data| && 32 * o + 32 <= |v2.data[L.root[j]]|
    ensures ForeignKept(v0, L, Put(v2, L, j, o, e))
  {
    assert L.root[j] in L.root && Owned(L, L.root[j]);
    assert forall x :: x in SetOf(L.files[i]) ==> Owned(L, x);
  }

  lemma SetTwice<T>(s: seq<T>, i: nat, x: T, y: T)
    requires i < |s|
    ensures s[i := x][i := y] == s[i := y]
  {
  }

  lemma MapReplace(f: map<Key, Entry>, k: Key, x: Entry)
    ensures (f - {k})[k := x] == f[k := x]
    ensures k !in f ==> f - {k} == f
  {
  }

  lemma TakenLeak(v: View, v': View, L: Layout, nc: seq<nat>)
    requires Taken(v, v', nc)
    ensures |Foreign(v, L) + SetOf(nc)| == |Foreign(v, L)| + |nc|
  {
    DistinctCard(nc);
    assert Foreign(v, L) !! SetOf(nc);
  }

  /**
    w is v0 after a write of text under want that ran out of clusters. All the other names are as they
    were. A file of that name that had clusters now holds a piece of the new text, because its first
    cluster has been handed out again; the clusters before it belong to no one. Nothing is free any more.
   */
  ghost predicate Torn(v0: View, L: Layout, w: View, L': Layout, root: nat, want: Key, text: seq<byte>, cb: nat)
    requires Lays(v0, root, L)
  {
    && Sized(w, cb) && Lays(w, root, L') && ForeignKept(v0, L, w) && Foreign(v0, L) <= Foreign(w, L')
    && TornFiles(Files(v0, root, L), Files(w, root, L'), want, text)
    && FreeSet(w.fat) == {}
  }

  ghost predicate TornFiles(f: map<Key, Entry>, f': map<Key, Entry>, want: Key, text: seq<byte>) {
    && f' - {want} == f - {want}
    && (want in f' <==> want in f)
    && (want in f && f[want].File? ==> TornEntry(f[want].bytes, f'[want], text))
  }

  /** A piece of the new text, and nothing if there was nothing. */
  ghost predicate TornEntry(before: seq<byte>, x: Entry, text: seq<byte>) {
    x.File? && PieceOf(x.bytes, text) && (before == [] ==> x.bytes == [])
  }

  ghost predicate PieceOf(s: seq<byte>, text: seq<byte>) {
    exists m: nat, n: nat :: m <= n <= |text| && s == text[m..n]
  }

  /** What entry e owns once all free clusters, its first one among them, have gone into the chain nc. */
  lemma TornChain(v2: View, e: Slot, nc: seq<nat>, text: seq<byte>, pos: nat) returns (ch: seq<nat>)
    requires ChainOrNone(v2.fat, nc) && Holds(v2.data, nc, text, pos) && pos < |text|
    requires Owns(e) && Start(e) in nc
    ensures IsChain(v2.fat, Start(e), ch) && InData(v2.data, ch) && SetOf(ch) <= SetOf(nc)
    ensures PieceOf(Prefix(Concat(v2.data, ch), Size(e)), text)
  {
    var m :| 0 <= m < |nc| && nc[m] == Start(e);
    ch := nc[m..];
    ChainSuffix(v2.fat, nc[0], nc, m);
    ConcatBoth(v2.data, nc, m);
    var a, b := Concat(v2.data, nc[..m]), Concat(v2.data, ch);
    assert a + b == text[..pos];
    Piece(a, b, text, pos, Size(e));
  }

  lemma Piece(a: seq<byte>, b: seq<byte>, text: seq<byte>, pos: nat, n: nat)
    requires pos <= |text| && a + b == text[..pos]
    ensures PieceOf(Prefix(b, n), text)
  {
    var k := Min(n, |b|);
    assert |a| + |b| == pos;
    assert b == (a + b)[|a|..];
    assert Prefix(b, n) == text[|a|..|a| + k];
  }

  lemma {:induction false} ConcatBoth(data: seq<seq<byte>>, ch: seq<nat>, m: nat)
    requires InData(data, ch) && m <= |ch|
    ensures InData(data, ch[..m]) && InData(data, ch[m..])
    ensures Concat(data, ch) == Concat(data, ch[..m]) + Concat(data, ch[m..])
    decreases m
  {
    if m == 0 {
      assert ch[0..] == ch;
    } else {
      ConcatBoth(data, ch[1..], m - 1);
      assert ch[1..][..m - 1] == ch[..m][1..] && ch[1..][m - 1..] == ch[m..];
    }
  }

  /** An entry that was left out and has clusters again rejoins the layout as it stands. */
  lemma Rejoin(v: View, root: nat, L: Layout, i: nat, j: nat, o: nat, ch: seq<nat>, cb: nat)
    requires Sized(v, cb) && LaysBut(v, root, L, i) && At(v, L, i, j, o) && i < |L.files|
    requires var e := Slots(v.data, L.root)[i];
             && Live(e) && SlotOk(v.fat, e, ch) && Name(e) !in FilesBut(v, root, L, i)
             && forall n :: 0 <= n < i ==> Slots(v.data, L.root)[n][0] != 0
    requires forall x :: x in ch ==> InFat(v.fat, x) && !Owned(L, x)
    ensures InData(v.data, ch)
    ensures var e, L' := Slots(v.data, L.root)[i], L.(files := L.files[i := ch]);
            && Lays(v, root, L') && Foreign(v, L') == Foreign(v, L) - SetOf(ch)
            && Files(v, root, L') == FilesBut(v, root, L, i)[Name(e) := EntryOf(v.data, e, ch)]
  {
    var e := Slots(v.data, L.root)[i];
    PutKeeps(v, root, L, i, j, o, e, ch, cb);
    PutSame(v, L, i, j, o);
  }

  lemma PutSame(v: View, L: Layout, i: nat, j: nat, o: nat)
    requires At(v, L, i, j, o) && i < |Slots(v.data, L.root)|
    ensures 32 * o + 32 <= |v.data[L.root[j]]| && Put(v, L, j, o, Slots(v.data, L.root)[i]) == v
  {
    SlotsAt(v.data, L.root, j);
    var cl := v.data[L.root[j]];
    assert Slots(v.data, L.root)[i] == Split(cl)[o] == cl[32 * o..32 * o + 32];
    SliceBack(cl, 32 * o, 32 * o + 32);
  }

  lemma SliceBack(s: seq<byte>, a: nat, b: nat)
    requires a <= b <= |s|
    ensures s[..a] + s[a..b] + s[b..] == s
  {
  }

  lemma DeadRejoins(v: View, root: nat, L: Layout, i: nat)
    requires LaysBut(v, root, L, i) && i < |L.files| && !Live(Slots(v.data, L.root)[i])
    ensures Lays(v, root, L) && Files(v, root, L) == FilesBut(v, root, L, i)
  {
    assert Lays(v, root, L);
    FilesSame(v, L, i, v, L, -1, root) by {
      LaysInData(v, root, L, i);
      assert forall n, x :: 0 <= n < |L.files| && x in L.files[n] ==> Owned(L, x);
    }
  }

  lemma TornForeign(v0: View, v2: View, root: nat, L: Layout, i: nat, nc: seq<nat>)
    requires Lays(v0, root, L) && i < |L.files| && TakenCells(Freed(v0, L, i), v2, SetOf(nc))
    ensures ForeignKept(v0, L, v2)
  {
    assert forall x :: x in SetOf(L.files[i]) ==> Owned(L, x);
  }

  lemma TornDone(v0: View, v2: View, root: nat, L: Layout, i: nat, j: nat, o: nat, nc: seq<nat>,
                 want: Key, text: seq<byte>, pos: nat, cb: nat) returns (L': Layout)
    requires Sized(v0, cb) && Sized(v2, cb) && Lays(v0, root, L) && At(v0, L, i, j, o) && EntryFor(v0, root, L, want, i)
    requires Taken(Freed(v0, L, i), v2, nc) && ChainOrNone(v2.fat, nc) && Holds(v2.data, nc, text, pos) && pos < |text|
    requires FreeSet(v2.fat) == {}
    ensures Torn(v0, L, v2, L', root, want, text, cb)
    ensures want !in Files(v0, root, L) ==> Foreign(v2, L') == Foreign(v0, L) + FreeSet(v0.fat)
  {
    var v1, L1, e := Freed(v0, L, i), Without(L, i), Slots(v0.data, L.root)[i];
    EmptySlot(v0, root, L, i, want, cb);
    TornForeign(v0, v2, root, L, i, nc);
    BuildKeeps(v1, v2, root, L1, i, SetOf(nc));
    if !Live(e) {
      L' := L1;
      DeadRejoins(v2, root, L1, i);
      AllTaken(v0, v2, L, i, nc);
      TornNone(Files(v0, root, L), want, text);
    } else {
      L' := TornLive(v0, v2, root, L, i, j, o, e, nc, text, pos, cb);
    }
  }

  /** A new name had no chain, so what the write took and gave to no one is all there was. */
  lemma AllTaken(v0: View, v2: View, L: Layout, i: nat, nc: seq<nat>)
    requires i < |L.files| && L.files[i] == [] && Taken(Freed(v0, L, i), v2, nc) && FreeSet(v2.fat) == {}
    ensures SetOf(nc) == FreeSet(v0.fat)
  {
    TakenFree(Freed(v0, L, i), v2, nc);
    forall c | c in FreeSet(v0.fat)
      ensures c in SetOf(nc)
    {
      assert c !in FreeSet(v2.fat);
    }
  }

  lemma TornLive(v0: View, v2: View, root: nat, L: Layout, i: nat, j: nat, o: nat, e: Slot, nc: seq<nat>,
                 text: seq<byte>, pos: nat, cb: nat) returns (L': Layout)
    requires Sized(v0, cb) && Sized(v2, cb) && Lays(v0, root, L) && At(v0, L, i, j, o) && i < |L.files|
    requires e == Slots(v0.data, L.root)[i] && Live(e) && UsedBefore(Slots(v0.data, L.root), i)
    requires Taken(Freed(v0, L, i), v2, nc) && ChainOrNone(v2.fat, nc) && Holds(v2.data, nc, text, pos) && pos < |text|
    requires FreeSet(v2.fat) == {}
    requires LaysBut(v2, root, Without(L, i), i) && Slots(v2.data, L.root) == Slots(v0.data, L.root)
    requires Name(e) in Files(v0, root, L)
    requires FilesBut(v2, root, Without(L, i), i) == Files(v0, root, L) - {Name(e)}
    requires Foreign(v2, Without(L, i)) == Foreign(v0, L) + SetOf(nc)
    requires forall x :: x in SetOf(nc) ==> !Owned(Without(L, i), x)
    ensures Lays(v2, root, L') && Foreign(v0, L) <= Foreign(v2, L')
    ensures TornFiles(Files(v0, root, L), Files(v2, root, L'), Name(e), text)
  {
    var L1 := Without(L, i);
    var ch := TornOwned(v0, v2, root, L, i, e, nc, text, pos);
    RootSame(v0, v2, root, L, i, nc);
    AtFrame(v0, v2, L, L1, i, j, o);
    Rejoin(v2, root, L1, i, j, o, ch, cb);
    L' := L1.(files := L1.files[i := ch]);
    TornLeak(v0, L, Freed(v0, L, i), v2, nc, ch);
    TornMap(Files(v0, root, L), Name(e), EntryOf(v2.data, e, ch), text);
  }

  lemma TornMap(f: map<Key, Entry>, n: Key, x: Entry, text: seq<byte>)
    requires n in f && (f[n].File? ==> TornEntry(f[n].bytes, x, text))
    ensures TornFiles(f, (f - {n})[n := x], n, text)
  {
    assert (f - {n})[n := x] - {n} == f - {n};
  }

  lemma TornNone(f: map<Key, Entry>, n: Key, text: seq<byte>)
    requires n !in f
    ensures f - {n} == f && TornFiles(f, f, n, text)
  {
  }

  lemma TornLeak(v0: View, L: Layout, v1: View, v2: View, nc: seq<nat>, ch: seq<nat>)
    requires Taken(v1, v2, nc) && SetOf(ch) <= SetOf(nc) && |v1.fat| == |v0.fat|
    requires forall x :: x in Foreign(v0, L) ==> v1.fat[x] == v0.fat[x]
    ensures Foreign(v0, L) <= Foreign(v0, L) + SetOf(nc) - SetOf(ch)
  {
    assert forall x :: x in SetOf(nc) ==> v1.fat[x] == 0;
  }

  /** The first cluster of the old chain has been handed out again, because nothing is left free. */
  lemma StartTaken(v0: View, v2: View, L: Layout, i: nat, start: nat, nc: seq<nat>)
    requires i < |L.files| && IsChain(v0.fat, start, L.files[i]) && Taken(Freed(v0, L, i), v2, nc)
    requires FreeSet(v2.fat) == {}
    ensures start in SetOf(nc)
  {
    TakenFree(Freed(v0, L, i), v2, nc);
    assert start in SetOf(L.files[i]) && start in FreeSet(Freed(v0, L, i).fat);
  }

  lemma TornOwned(v0: View, v2: View, root: nat, L: Layout, i: nat, e: Slot, nc: seq<nat>, text: seq<byte>, pos: nat)
    returns (ch: seq<nat>)
    requires exists cb :: Sized(v0, cb)
    requires Lays(v0, root, L) && i < |L.files|
    requires e == Slots(v0.data, L.root)[i] && Live(e) && Name(e) in Files(v0, root, L)
    requires Taken(Freed(v0, L, i), v2, nc) && ChainOrNone(v2.fat, nc) && Holds(v2.data, nc, text, pos) && pos < |text|
    requires FreeSet(v2.fat) == {}
    ensures SlotOk(v2.fat, e, ch) && InData(v2.data, ch) && SetOf(ch) <= SetOf(nc)
    ensures forall x :: x in ch ==> x in SetOf(nc)
    ensures forall x :: x in Foreign(v0, L) ==> Freed(v0, L, i).fat[x] == v0.fat[x]
    ensures var f := Files(v0, root, L)[Name(e)]; f.File? ==> TornEntry(f.bytes, EntryOf(v2.data, e, ch), text)
  {
    assert SlotOk(v0.fat, e, L.files[i]);
    FilesAt(v0, root, L, -1, i);
    assert forall x :: x in SetOf(L.files[i]) ==> Owned(L, x);
    ch := [];
    if Owns(e) {
      StartTaken(v0, v2, L, i, Start(e), nc);
      ch := TornChain(v2, e, nc, text, pos);
      assert forall x :: x in ch ==> x in SetOf(ch);
      assert L.files[i] != [] && |Concat(v0.data, L.files[i])| > 0;
    } else {
      assert text[0..0] == [];
    }
  }

  lemma RootSame(v0: View, v2: View, root: nat, L: Layout, i: nat, nc: seq<nat>)
    requires Lays(v0, root, L) && i < |L.files| && TakenCells(Freed(v0, L, i), v2, SetOf(nc))
    ensures |v2.data| == |v0.data|
    ensures forall x :: x in L.root ==> x < |v0.data| && v2.data[x] == v0.data[x]
  {
    LaysInData(v0, root, L, -1);
    assert Disjoint(L.root, L.files[i]);
    assert forall x :: x in L.root ==> Owned(L, x);
  }

  /**
    The part of fat32_write after the slot is known: free the old chain, write the new one, then the
    entry. The old chain is gone before the new one is sure to fit.
   */
  method StoreFile(vol: Volume, want: Key, text: seq<byte>, p: Place, start: nat, ghost L: Layout, ghost i: nat,
                   ghost j: nat)
    returns (ok: bool, ghost L': Layout)
    requires Good(vol, L) && PlaceAt(vol, L, p, i, j) && EntryFor(vol.view, vol.g.root, L, want, i)
    requires start == if Live(RootSlots(vol, L)[i]) then Start(RootSlots(vol, L)[i]) else 0
    requires |text| <= WRITE_MAX && want[0] != 0
    modifies vol`disk, vol`view
    ensures vol.Ready()
    ensures ok <==> |FreeSet(old(vol.view).fat)| + |L.files[i]| >= Need(|text|, ClusterBytes(vol.g))
    ensures ok ==> Stored(old(vol.view), L, vol.view, L', vol.g.root, want, text, ClusterBytes(vol.g))
    ensures !ok ==> Torn(old(vol.view), L, vol.view, L', vol.g.root, want, text, ClusterBytes(vol.g))
    ensures !ok && want !in old(FilesOf(vol, L)) ==>
              Foreign(vol.view, L') == old(Foreign(vol.view, L)) + FreeSet(old(vol.view).fat)
  {
    ghost var v0 := vol.view;
    assert SlotOk(v0.fat, RootSlots(vol, L)[i], L.files[i]);
    LaysInData(v0, vol.g.root, L, -1);
    assert Owned(L, L.root[j]);
    FreeFile(vol, start, L.files[i]);
    EmptySlot(v0, vol.g.root, L, i, want, ClusterBytes(vol.g));
    var first;
    ghost var nc, pos;
    ghost var v1 := vol.view;
    ok, first, nc, pos := WriteChain(vol, text);
    WritingIs(v1, vol.view, nc, text, pos);
    if !ok {
      L' := TornDone(v0, vol.view, vol.g.root, L, i, j, p.o, nc, want, text, pos, ClusterBytes(vol.g));
      return;
    }
    var e := MakeSlot(want, ATTR_ARCHIVE, first, |text|);
    FileEntry(vol.view.data, vol.view.fat, want, text, nc, first, e);
    StoreDone(v0, vol.view, vol.g.root, L, i, j, p.o, e, nc, want, text, ClusterBytes(vol.g));
    PutEntry(vol, p, e, L, j);
    L' := L.(files := L.files[i := if Live(e) then nc else []]);
  }
}
