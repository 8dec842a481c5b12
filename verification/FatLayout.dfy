/**
  The volume above the byte level: the table, the clusters, the 32-byte entries of the root
  directory, who owns which cluster, and the map from 8.3 name to contents that all this stands for.
 */
module FatLayout {
  import opened Bytes
  import opened FatChains

  const DELETED := 0xE5
  const ATTR_DIRECTORY := 0x10
  const ATTR_ARCHIVE := 0x20
  const ATTR_LFN := 0x0F

  datatype View = View(fat: seq<nat>, data: seq<seq<byte>>)

  type Slot = s: seq<byte> | |s| == 32 witness seq(32, _ => 0)
  type Key = s: seq<byte> | |s| == 11 witness seq(11, _ => 32)

  // ---- one directory entry ----

  predicate AttrBit(e: Slot, bit: nat)
    requires bit > 0
  {
    e[11] / bit % 2 == 1
  }

  /** Neither unused, nor deleted, nor a long-name part, nor a volume label. */
  predicate Live(e: Slot) {
    e[0] != 0 && e[0] != DELETED && e[11] != ATTR_LFN && !AttrBit(e, 8)
  }

  predicate IsDirectory(e: Slot) {
    AttrBit(e, 16)
  }

  function Name(e: Slot): Key {
    e[..11]
  }

  function Start(e: Slot): nat {
    0x1_0000 * Le16(e, 20) + Le16(e, 26)
  }

  function Size(e: Slot): nat {
    Le32(e, 28)
  }

  predicate Owns(e: Slot) {
    Live(e) && Start(e) >= 2
  }

  lemma SlotBytes(name: Key, attr: byte, hi: seq<byte>, lo: seq<byte>, sz: seq<byte>)
    requires |hi| == |lo| == 2 && |sz| == 4
    ensures var e := name + [attr] + Zeros(8) + hi + Zeros(4) + lo + sz;
            && |e| == 32 && e[..11] == name && e[11] == attr
            && e[20] == hi[0] && e[21] == hi[1] && e[26] == lo[0] && e[27] == lo[1]
            && e[28] == sz[0] && e[29] == sz[1] && e[30] == sz[2] && e[31] == sz[3]
  {
  }

  function MakeSlot(name: Key, attr: byte, start: nat, size: nat): (e: Slot)
    requires start < 0x1_0000_0000 && size < 0x1_0000_0000
    ensures Name(e) == name && e[11] == attr && Start(e) == start && Size(e) == size
  {
    var hi, lo, sz := Put16(start / 0x1_0000), Put16(start % 0x1_0000), Put32(size);
    var e := name + [attr] + Zeros(8) + hi + Zeros(4) + lo + sz;
    SlotBytes(name, attr, hi, lo, sz);
    Read16(e, 20, start / 0x1_0000);
    Read16(e, 26, start % 0x1_0000);
    Read32(e, 28, size);
    e
  }

  // ---- the entries of a directory ----

  function Split(cl: seq<byte>): (r: seq<Slot>)
    ensures |r| == |cl| / 32
  {
    seq(|cl| / 32, i requires 0 <= i < |cl| / 32 => cl[32 * i..32 * i + 32])
  }

  ghost predicate InData(data: seq<seq<byte>>, ch: seq<nat>) {
    forall i :: 0 <= i < |ch| ==> ch[i] < |data|
  }

  ghost function Slots(data: seq<seq<byte>>, ch: seq<nat>): seq<Slot>
    requires InData(data, ch)
  {
    if ch == [] then [] else Split(data[ch[0]]) + Slots(data, ch[1..])
  }

  ghost function Concat(data: seq<seq<byte>>, ch: seq<nat>): seq<byte>
    requires InData(data, ch)
  {
    if ch == [] then [] else data[ch[0]] + Concat(data, ch[1..])
  }

  lemma {:induction false} SlotsConcat(data: seq<seq<byte>>, a: seq<nat>, b: seq<nat>)
    requires InData(data, a) && InData(data, b)
    ensures InData(data, a + b) && Slots(data, a + b) == Slots(data, a) + Slots(data, b)
    decreases |a|
  {
    if a == [] {
      assert a + b == b;
    } else {
      SlotsConcat(data, a[1..], b);
      assert (a + b)[1..] == a[1..] + b;
    }
  }

  lemma {:induction false} SlotsFrame(data: seq<seq<byte>>, data': seq<seq<byte>>, ch: seq<nat>)
    requires InData(data, ch) && InData(data', ch)
    requires forall x :: x in ch ==> data'[x] == data[x]
    ensures Slots(data', ch) == Slots(data, ch)
    decreases |ch|
  {
    if ch != [] {
      assert ch[0] in ch && forall x :: x in ch[1..] ==> x in ch;
      SlotsFrame(data, data', ch[1..]);
    }
  }

  lemma {:induction false} ConcatFrame(data: seq<seq<byte>>, data': seq<seq<byte>>, ch: seq<nat>)
    requires InData(data, ch) && InData(data', ch)
    requires forall x :: x in ch ==> data'[x] == data[x]
    ensures Concat(data', ch) == Concat(data, ch)
    decreases |ch|
  {
    if ch != [] {
      assert ch[0] in ch && forall x :: x in ch[1..] ==> x in ch;
      ConcatFrame(data, data', ch[1..]);
    }
  }

  lemma {:induction false} ConcatSnoc(data: seq<seq<byte>>, ch: seq<nat>, c: nat)
    requires InData(data, ch) && c < |data|
    ensures InData(data, ch + [c]) && Concat(data, ch + [c]) == Concat(data, ch) + data[c]
    decreases |ch|
  {
    if ch != [] {
      ConcatSnoc(data, ch[1..], c);
      assert (ch + [c])[1..] == ch[1..] + [c];
    } else {
      assert Concat(data, [c]) == data[c] + Concat(data, [c][1..]);
    }
  }

  /** Entry o of the j-th cluster of ch is entry |Slots(ch[..j])| + o of the directory. */
  lemma SlotsAt(data: seq<seq<byte>>, ch: seq<nat>, j: nat)
    requires InData(data, ch) && j < |ch|
    ensures InData(data, ch[..j]) && InData(data, ch[..j + 1]) && InData(data, ch[j + 1..])
    ensures Slots(data, ch) == Slots(data, ch[..j]) + Split(data[ch[j]]) + Slots(data, ch[j + 1..])
    ensures Slots(data, ch[..j + 1]) == Slots(data, ch[..j]) + Split(data[ch[j]])
  {
    var a, b, c := ch[..j], [ch[j]], ch[j + 1..];
    assert ch == (a + b) + c && ch[..j + 1] == a + b;
    SlotsConcat(data, a, b);
    SlotsConcat(data, a + b, c);
    assert Slots(data, b) == Split(data[ch[j]]) + Slots(data, b[1..]);
  }

  lemma SplitUpdate(cl: seq<byte>, o: nat, e: Slot)
    requires 32 * o + 32 <= |cl|
    ensures Split(cl[..32 * o] + e + cl[32 * o + 32..]) == Split(cl)[o := e]
  {
    var cl' := cl[..32 * o] + e + cl[32 * o + 32..];
    forall i | 0 <= i < |cl| / 32
      ensures cl'[32 * i..32 * i + 32] == if i == o then e else cl[32 * i..32 * i + 32]
    {
      if i == o {
        assert cl'[32 * o..32 * o + 32] == e;
      } else {
        assert forall k :: 32 * i <= k < 32 * i + 32 ==> cl'[k] == cl[k];
      }
    }
  }

  lemma SlotsUpdate(data: seq<seq<byte>>, ch: seq<nat>, j: nat, o: nat, cl: seq<byte>, e: Slot)
    requires InData(data, ch) && Distinct(ch) && j < |ch|
    requires 32 * o + 32 <= |data[ch[j]]|
    requires cl == data[ch[j]][..32 * o] + e + data[ch[j]][32 * o + 32..]
    ensures InData(data, ch[..j])
    ensures InData(data[ch[j] := cl], ch)
    ensures |Slots(data, ch[..j])| + o < |Slots(data, ch)|
    ensures Slots(data[ch[j] := cl], ch) == Slots(data, ch)[|Slots(data, ch[..j])| + o := e]
  {
    SlotsAt(data, ch, j);
    SlotsReplaced(data, ch, j, cl);
    SplitUpdate(data[ch[j]], o, e);
    SetMiddle(Slots(data, ch[..j]), Split(data[ch[j]]), Slots(data, ch[j + 1..]), o, e);
  }

  lemma SlotsReplaced(data: seq<seq<byte>>, ch: seq<nat>, j: nat, cl: seq<byte>)
    requires InData(data, ch) && Distinct(ch) && j < |ch|
    ensures InData(data[ch[j] := cl], ch) && InData(data, ch[..j]) && InData(data, ch[j + 1..])
    ensures Slots(data[ch[j] := cl], ch) == Slots(data, ch[..j]) + Split(cl) + Slots(data, ch[j + 1..])
  {
    var data' := data[ch[j] := cl];
    SlotsAt(data', ch, j);
    NotInRest(ch, j);
    SlotsFrame(data, data', ch[..j]);
    SlotsFrame(data, data', ch[j + 1..]);
  }

  lemma NotInRest(ch: seq<nat>, j: nat)
    requires Distinct(ch) && j < |ch|
    ensures ch[j] !in ch[..j] && ch[j] !in ch[j + 1..]
  {
  }

  lemma SetMiddle<T>(a: seq<T>, b: seq<T>, c: seq<T>, o: nat, x: T)
    requires o < |b|
    ensures (a + b + c)[|a| + o := x] == a + b[o := x] + c
  {
  }

  // ---- who owns which cluster ----

  /** The chain of the root directory, and for every root entry the chain it owns ([] when none). */
  datatype Layout = Layout(root: seq<nat>, files: seq<seq<nat>>)

  /** Sizes agree: one buffer of cb bytes for every cluster. */
  ghost predicate Sized(v: View, cb: nat) {
    && cb > 0 && cb % 32 == 0
    && |v.data| == |v.fat| < EOC
    && forall c :: 2 <= c < |v.fat| ==> |v.data[c]| == cb
  }

  ghost predicate SlotOk(fat: seq<nat>, e: Slot, ch: seq<nat>) {
    if Owns(e) then IsChain(fat, Start(e), ch) else ch == []
  }

  ghost predicate ChainsOk(fat: seq<nat>, slots: seq<Slot>, files: seq<seq<nat>>, hole: int) {
    && |files| == |slots|
    && (forall i :: 0 <= i < |slots| && i != hole ==> SlotOk(fat, slots[i], files[i]))
    && (0 <= hole < |slots| ==> files[hole] == [])
  }

  /** No cluster belongs to two chains. */
  ghost predicate Apart(root: seq<nat>, files: seq<seq<nat>>) {
    && (forall i :: 0 <= i < |files| ==> Disjoint(root, files[i]))
    && (forall i, j :: 0 <= i < |files| && 0 <= j < |files| && i != j ==> Disjoint(files[i], files[j]))
  }

  ghost predicate NamesApart(slots: seq<Slot>, hole: int) {
    forall i, j :: 0 <= i < j < |slots| && i != hole && j != hole && Live(slots[i]) && Live(slots[j])
      ==> Name(slots[i]) != Name(slots[j])
  }

  ghost predicate UnusedLast(slots: seq<Slot>) {
    forall i, j :: 0 <= i < j < |slots| && slots[i][0] == 0 ==> slots[j][0] == 0
  }

  /**
    L is the layout of v, leaving out root entry `hole` (none when negative): the root chain and every
    entry's chain are proper chains, no two share a cluster, no two live entries share a name, and
    only unused entries follow the first unused entry.
   */
  ghost predicate LaysBut(v: View, root: nat, L: Layout, hole: int) {
    && |v.data| == |v.fat|
    && IsChain(v.fat, root, L.root)
    && InData(v.data, L.root)
    && ChainsOk(v.fat, Slots(v.data, L.root), L.files, hole)
    && Apart(L.root, L.files)
    && NamesApart(Slots(v.data, L.root), hole)
    && UnusedLast(Slots(v.data, L.root))
  }

  ghost predicate Lays(v: View, root: nat, L: Layout) {
    LaysBut(v, root, L, -1)
  }

  ghost predicate Owned(L: Layout, c: nat) {
    c in L.root || exists i :: 0 <= i < |L.files| && c in L.files[i]
  }

  /** Clusters in use that belong to no root entry: what files in subdirectories hold. */
  ghost function Foreign(v: View, L: Layout): set<nat> {
    set c: nat | 2 <= c < |v.fat| && v.fat[c] != 0 && !Owned(L, c)
  }

  /** What belongs to no root entry keeps its table entry and its bytes. */
  ghost predicate ForeignKept(v: View, L: Layout, w: View) {
    |w.fat| == |v.fat| && |w.data| == |v.data| == |v.fat|
    && forall c: nat {:trigger w.fat[c]} {:trigger w.data[c]} :: c in Foreign(v, L) ==>
         w.fat[c] == v.fat[c] && w.data[c] == v.data[c]
  }

  lemma LaysInData(v: View, root: nat, L: Layout, hole: int)
    requires LaysBut(v, root, L, hole)
    ensures forall i :: 0 <= i < |L.files| ==> InData(v.data, L.files[i])
    ensures forall c: nat :: Owned(L, c) ==> InFat(v.fat, c) && v.fat[c] != 0
  {
    ChainMembers(v.fat, root, L.root);
    var slots := Slots(v.data, L.root);
    forall i | 0 <= i < |L.files|
      ensures forall x :: x in L.files[i] ==> InFat(v.fat, x) && v.fat[x] != 0
      ensures InData(v.data, L.files[i])
    {
      if i != hole && Owns(slots[i]) {
        ChainMembers(v.fat, Start(slots[i]), L.files[i]);
        assert forall k :: 0 <= k < |L.files[i]| ==> L.files[i][k] in L.files[i];
      }
    }
  }

  /** A volume has one layout. */
  lemma LayoutUnique(v: View, root: nat, L: Layout, L': Layout)
    requires |v.fat| < EOC
    requires Lays(v, root, L) && Lays(v, root, L')
    ensures L == L'
  {
    ChainUnique(v.fat, root, L.root, L'.root);
    var slots := Slots(v.data, L.root);
    forall i | 0 <= i < |slots|
      ensures L.files[i] == L'.files[i]
    {
      assert SlotOk(v.fat, slots[i], L.files[i]) && SlotOk(v.fat, slots[i], L'.files[i]);
      if Owns(slots[i]) {
        ChainUnique(v.fat, Start(slots[i]), L.files[i], L'.files[i]);
      }
    }
    assert L.files == L'.files;
  }

  // ---- the map a volume stands for ----

  datatype Entry = File(bytes: seq<byte>) | Directory

  ghost function EntryOf(data: seq<seq<byte>>, e: Slot, ch: seq<nat>): Entry
    requires InData(data, ch)
  {
    if IsDirectory(e) then Directory else File(Prefix(Concat(data, ch), Size(e)))
  }

  ghost predicate Named(slots: seq<Slot>, hole: int, i: int, k: Key) {
    0 <= i < |slots| && i != hole && Live(slots[i]) && Name(slots[i]) == k
  }

  ghost function Names(slots: seq<Slot>, hole: int): set<Key> {
    set i | 0 <= i < |slots| && i != hole && Live(slots[i]) :: Name(slots[i])
  }

  lemma NamedIn(slots: seq<Slot>, hole: int, k: Key)
    ensures k in Names(slots, hole) <==> exists i :: Named(slots, hole, i, k)
  {
    if k in Names(slots, hole) {
      var i :| 0 <= i < |slots| && i != hole && Live(slots[i]) && Name(slots[i]) == k;
      assert Named(slots, hole, i, k);
    }
  }

  ghost function IndexOf(slots: seq<Slot>, hole: int, k: Key): (i: int)
    requires k in Names(slots, hole)
    ensures Named(slots, hole, i, k)
  {
    NamedIn(slots, hole, k);
    var i :| Named(slots, hole, i, k);
    i
  }

  ghost function FilesBut(v: View, root: nat, L: Layout, hole: int): map<Key, Entry>
    requires LaysBut(v, root, L, hole)
  {
    LaysInData(v, root, L, hole);
    var slots := Slots(v.data, L.root);
    map k | k in Names(slots, hole) ::
      EntryOf(v.data, slots[IndexOf(slots, hole, k)], L.files[IndexOf(slots, hole, k)])
  }

  ghost function Files(v: View, root: nat, L: Layout): map<Key, Entry>
    requires Lays(v, root, L)
  {
    FilesBut(v, root, L, -1)
  }

  /**
    The map in terms of the bytes of the root's entries: a name is there exactly when an entry has it that is
    neither unused, nor deleted, nor part of a long name, nor a volume label.
   */
  lemma FilesBytes(v: View, root: nat, L: Layout, k: Key)
    requires Lays(v, root, L)
    ensures var s := Slots(v.data, L.root);
            k in Files(v, root, L) <==> exists i :: 0 <= i < |s| && Lists(s[i], k)
  {
    var s := Slots(v.data, L.root);
    if k in Files(v, root, L) {
      var i := FilesFrom(v, root, L, -1, k);
      assert Lists(s[i], k);
    } else if i :| 0 <= i < |s| && Lists(s[i], k) {
      FilesAt(v, root, L, -1, i);
      assert false;
    }
  }

  /** What it has there: bit 4 tells a directory from a file, and bytes 28 on say how long that is. */
  lemma ListedEntry(v: View, root: nat, L: Layout, k: Key, i: int)
    requires Lays(v, root, L) && 0 <= i < |L.files| && Lists(Slots(v.data, L.root)[i], k)
    ensures k in Files(v, root, L) && InData(v.data, L.files[i])
    ensures var e := Slots(v.data, L.root)[i];
            Files(v, root, L)[k] == if e[11] / 16 % 2 == 1 then Directory
                                    else File(Prefix(Concat(v.data, L.files[i]), Le32(e, 28)))
  {
    FilesAt(v, root, L, -1, i);
  }

  predicate Lists(e: Slot, k: Key) {
    e[..11] == k && e[0] != 0 && e[0] != 0xE5 && e[11] != 0x0F && e[11] / 8 % 2 == 0
  }

  /** The bytes of an entry: the name, the attributes, the cluster in two halves and the size, lowest byte first. */
  lemma EntryLayout(name: Key, attr: byte, start: nat, size: nat)
    requires start < 0x1_0000_0000 && size < 0x1_0000_0000
    ensures var e := MakeSlot(name, attr, start, size);
            && (forall i :: 0 <= i < 11 ==> e[i] == name[i]) && e[11] == attr
            && (forall i :: 12 <= i < 20 || 22 <= i < 26 ==> e[i] == 0)
            && e[26] == start % 256 && e[27] == start / 256 % 256
            && e[20] == start / 0x1_0000 % 256 && e[21] == start / 0x100_0000
            && e[28] == size % 256 && e[29] == size / 256 % 256
            && e[30] == size / 0x1_0000 % 256 && e[31] == size / 0x100_0000
  {
    var hi, lo, sz := Put16(start / 0x1_0000), Put16(start % 0x1_0000), Put32(size);
    var e := MakeSlot(name, attr, start, size);
    assert e == name + [attr] + Zeros(8) + hi + Zeros(4) + lo + sz;
    Halves(start);
  }

  lemma Halves(n: nat)
    requires n < 0x1_0000_0000
    ensures n % 0x1_0000 % 256 == n % 256 && n % 0x1_0000 / 256 == n / 256 % 256
    ensures n / 0x1_0000 / 256 == n / 0x100_0000
  {
  }

  lemma FilesAt(v: View, root: nat, L: Layout, hole: int, i: int)
    requires LaysBut(v, root, L, hole)
    requires 0 <= i < |L.files| && i != hole && Live(Slots(v.data, L.root)[i])
    ensures InData(v.data, L.files[i])
    ensures var e := Slots(v.data, L.root)[i];
            && Name(e) in FilesBut(v, root, L, hole)
            && FilesBut(v, root, L, hole)[Name(e)] == EntryOf(v.data, e, L.files[i])
  {
    LaysInData(v, root, L, hole);
    var slots := Slots(v.data, L.root);
    var k := Name(slots[i]);
    assert Named(slots, hole, i, k);
    NamedIn(slots, hole, k);
    var j := IndexOf(slots, hole, k);
    assert i == j;
  }

  lemma FilesFrom(v: View, root: nat, L: Layout, hole: int, k: Key) returns (i: int)
    requires LaysBut(v, root, L, hole)
    requires k in FilesBut(v, root, L, hole)
    ensures Named(Slots(v.data, L.root), hole, i, k)
    ensures InData(v.data, L.files[i])
    ensures FilesBut(v, root, L, hole)[k] == EntryOf(v.data, Slots(v.data, L.root)[i], L.files[i])
  {
    LaysInData(v, root, L, hole);
    i := IndexOf(Slots(v.data, L.root), hole, k);
  }
}
