/** How each change the driver makes to a volume acts on its layout and on the map it stands for. */
module FatSteps {
  import opened Bytes
  import opened FatChains
  import opened FatLayout

  /** Every live entry of the first volume is an entry of the second, with the same chain and contents. */
  ghost predicate Carried(v: View, L: Layout, hole: int, v': View, L': Layout, hole': int)
    requires InData(v.data, L.root) && InData(v'.data, L'.root)
    requires |L.files| == |Slots(v.data, L.root)| && |L'.files| == |Slots(v'.data, L'.root)|
  {
    var s, s' := Slots(v.data, L.root), Slots(v'.data, L'.root);
    forall i :: 0 <= i < |s| && i != hole && Live(s[i]) ==>
      && i < |s'| && i != hole' && s'[i] == s[i] && L'.files[i] == L.files[i]
      && (forall x :: x in L.files[i] ==> x < |v.data| && x < |v'.data| && v'.data[x] == v.data[x])
  }

  lemma EntryCarried(v: View, L: Layout, hole: int, v': View, L': Layout, hole': int, root: nat, k: Key)
    requires LaysBut(v, root, L, hole) && LaysBut(v', root, L', hole')
    requires Carried(v, L, hole, v', L', hole')
    requires k in FilesBut(v, root, L, hole)
    ensures k in FilesBut(v', root, L', hole') && FilesBut(v', root, L', hole')[k] == FilesBut(v, root, L, hole)[k]
  {
    var i := FilesFrom(v, root, L, hole, k);
    FilesAt(v', root, L', hole', i);
    ConcatFrame(v.data, v'.data, L.files[i]);
  }

  /** Two volumes stand for the same map when each carries the other's entries. */
  lemma FilesSame(v: View, L: Layout, hole: int, v': View, L': Layout, hole': int, root: nat)
    requires LaysBut(v, root, L, hole) && LaysBut(v', root, L', hole')
    requires Carried(v, L, hole, v', L', hole') && Carried(v', L', hole', v, L, hole)
    ensures FilesBut(v', root, L', hole') == FilesBut(v, root, L, hole)
  {
    forall k | k in FilesBut(v, root, L, hole)
      ensures k in FilesBut(v', root, L', hole') && FilesBut(v', root, L', hole')[k] == FilesBut(v, root, L, hole)[k]
    {
      EntryCarried(v, L, hole, v', L', hole', root, k);
    }
    forall k | k in FilesBut(v', root, L', hole')
      ensures k in FilesBut(v, root, L, hole)
    {
      EntryCarried(v', L', hole', v, L, hole, root, k);
    }
  }

  /** The view after a fresh, zeroed cluster nc has been linked behind the root directory. */
  ghost function Grown(v: View, L: Layout, nc: nat, cb: nat): View
    requires L.root != [] && L.root[|L.root| - 1] < |v.fat| && nc < |v.fat| == |v.data|
  {
    View(v.fat[nc := END_MARK][L.root[|L.root| - 1] := nc], v.data[nc := Zeros(cb)])
  }

  ghost function GrownLayout(L: Layout, nc: nat, cb: nat): Layout {
    Layout(L.root + [nc], L.files + seq(cb / 32, _ => []))
  }

  lemma ZeroSlots(cb: nat)
    ensures forall i :: 0 <= i < cb / 32 ==> !Live(Split(Zeros(cb))[i]) && Split(Zeros(cb))[i][0] == 0
  {
    forall i | 0 <= i < cb / 32
      ensures Split(Zeros(cb))[i][0] == 0
    {
      assert Split(Zeros(cb))[i][0] == Zeros(cb)[32 * i];
    }
  }

  lemma GrowSlots(v: View, root: nat, L: Layout, nc: nat, cb: nat)
    requires Sized(v, cb) && Lays(v, root, L)
    requires InFat(v.fat, nc) && v.fat[nc] == 0
    ensures L.root != [] && L.root[|L.root| - 1] < |v.fat|
    ensures Sized(Grown(v, L, nc, cb), cb)
    ensures IsChain(Grown(v, L, nc, cb).fat, root, L.root + [nc])
    ensures InData(Grown(v, L, nc, cb).data, L.root + [nc])
    ensures Slots(Grown(v, L, nc, cb).data, L.root + [nc]) == Slots(v.data, L.root) + Split(Zeros(cb))
  {
    LaysInData(v, root, L, -1);
    var last := L.root[|L.root| - 1];
    assert last in L.root && Owned(L, last);
    assert nc in L.root ==> Owned(L, nc);
    assert forall x :: x in L.root ==> Owned(L, x);
    var v' := Grown(v, L, nc, cb);
    ChainExtend(v.fat, v'.fat, root, L.root, nc);
    SlotsFrame(v.data, v'.data, L.root);
    SlotsConcat(v'.data, L.root, [nc]);
    assert Slots(v'.data, [nc]) == Split(Zeros(cb)) + Slots(v'.data, [nc][1..]);
  }

  lemma GrowLays(v: View, root: nat, L: Layout, nc: nat, cb: nat)
    requires Sized(v, cb) && Lays(v, root, L)
    requires InFat(v.fat, nc) && v.fat[nc] == 0
    requires forall i :: 0 <= i < |L.files| ==> Slots(v.data, L.root)[i][0] != 0
    ensures L.root != [] && L.root[|L.root| - 1] < |v.fat|
    ensures var v', L' := Grown(v, L, nc, cb), GrownLayout(L, nc, cb);
            && Sized(v', cb) && Lays(v', root, L')
            && Slots(v'.data, L'.root) == Slots(v.data, L.root) + Split(Zeros(cb))
  {
    GrowSlots(v, root, L, nc, cb);
    ZeroSlots(cb);
    LaysInData(v, root, L, -1);
    var v', L' := Grown(v, L, nc, cb), GrownLayout(L, nc, cb);
    var s, s' := Slots(v.data, L.root), Slots(v'.data, L'.root);
    var last := L.root[|L.root| - 1];
    assert !Owned(L, nc);
    assert last in L.root && Owned(L, last);
    forall i | 0 <= i < |s'|
      ensures SlotOk(v'.fat, s'[i], L'.files[i])
    {
      if i < |s| {
        assert SlotOk(v.fat, s[i], L.files[i]) && Disjoint(L.root, L.files[i]);
        assert nc !in L.files[i] && last !in L.files[i];
        if Owns(s[i]) {
          assert forall x :: x in L.files[i] ==> Owned(L, x);
          ChainFrame(v.fat, v'.fat, Start(s[i]), L.files[i]);
        }
      }
    }
    assert ChainsOk(v'.fat, s', L'.files, -1);
    ApartGrown(L, nc, cb);
  }

  lemma ApartGrown(L: Layout, nc: nat, cb: nat)
    requires Apart(L.root, L.files) && !Owned(L, nc)
    ensures Apart(GrownLayout(L, nc, cb).root, GrownLayout(L, nc, cb).files)
  {
    var files := GrownLayout(L, nc, cb).files;
    forall i | 0 <= i < |files|
      ensures Disjoint(L.root + [nc], files[i])
    {
      if i < |L.files| {
        assert Disjoint(L.root, L.files[i]) && nc !in L.files[i];
      }
    }
    forall i, j | 0 <= i < |files| && 0 <= j < |files| && i != j
      ensures Disjoint(files[i], files[j])
    {
      if i < |L.files| && j < |L.files| {
        assert Disjoint(L.files[i], L.files[j]);
      }
    }
  }

  lemma GrowKeeps(v: View, root: nat, L: Layout, nc: nat, cb: nat)
    requires Sized(v, cb) && Lays(v, root, L)
    requires InFat(v.fat, nc) && v.fat[nc] == 0
    requires forall i :: 0 <= i < |L.files| ==> Slots(v.data, L.root)[i][0] != 0
    ensures L.root != [] && L.root[|L.root| - 1] < |v.fat|
    ensures var v', L' := Grown(v, L, nc, cb), GrownLayout(L, nc, cb);
            && Sized(v', cb) && Lays(v', root, L')
            && Slots(v'.data, L'.root) == Slots(v.data, L.root) + Split(Zeros(cb))
            && Files(v', root, L') == Files(v, root, L)
            && Foreign(v', L') == Foreign(v, L)
            && FreeSet(v'.fat) == FreeSet(v.fat) - {nc}
  {
    GrowLays(v, root, L, nc, cb);
    GrowFiles(v, root, L, nc, cb);
    LaysInData(v, root, L, -1);
    assert L.root[|L.root| - 1] in L.root && Owned(L, L.root[|L.root| - 1]);
    OwnedGrown(L, nc, cb);
  }

  lemma GrowFiles(v: View, root: nat, L: Layout, nc: nat, cb: nat)
    requires Sized(v, cb) && Lays(v, root, L)
    requires InFat(v.fat, nc) && v.fat[nc] == 0
    requires L.root != [] && L.root[|L.root| - 1] < |v.fat|
    requires Lays(Grown(v, L, nc, cb), root, GrownLayout(L, nc, cb))
    requires Slots(Grown(v, L, nc, cb).data, GrownLayout(L, nc, cb).root) == Slots(v.data, L.root) + Split(Zeros(cb))
    ensures Files(Grown(v, L, nc, cb), root, GrownLayout(L, nc, cb)) == Files(v, root, L)
  {
    ZeroSlots(cb);
    LaysInData(v, root, L, -1);
    var v', L' := Grown(v, L, nc, cb), GrownLayout(L, nc, cb);
    forall i, x | 0 <= i < |L.files| && x in L.files[i]
      ensures x < |v.data| && v'.data[x] == v.data[x]
    {
      assert Owned(L, x);
    }
    FilesSame(v, L, -1, v', L', -1, root);
  }

  lemma OwnedGrown(L: Layout, nc: nat, cb: nat)
    ensures forall c: nat :: Owned(GrownLayout(L, nc, cb), c) <==> Owned(L, c) || c == nc
  {
    var L' := GrownLayout(L, nc, cb);
    forall c: nat
      ensures Owned(L', c) <==> Owned(L, c) || c == nc
    {
      if i :| 0 <= i < |L.files| && c in L.files[i] {
        assert L'.files[i] == L.files[i];
      }
    }
  }

  ghost function Without(L: Layout, i: nat): Layout
    requires i < |L.files|
  {
    L.(files := L.files[i := []])
  }

  lemma OwnedWithout(L: Layout, i: nat)
    requires Apart(L.root, L.files) && i < |L.files|
    ensures forall c: nat :: Owned(L, c) <==> Owned(Without(L, i), c) || c in L.files[i]
    ensures forall c: nat :: c in L.files[i] ==> !Owned(Without(L, i), c)
    ensures Apart(L.root, Without(L, i).files)
  {
    var L' := Without(L, i);
    forall c: nat
      ensures Owned(L, c) <==> Owned(L', c) || c in L.files[i]
      ensures c in L.files[i] ==> !Owned(L', c)
    {
      if k :| 0 <= k < |L.files| && c in L.files[k] {
        assert k != i ==> c in L'.files[k];
      }
      if k :| 0 <= k < |L'.files| && c in L'.files[k] {
        assert k != i && c in L.files[k] && Disjoint(L.files[k], L.files[i]);
      }
      assert Disjoint(L.root, L.files[i]);
    }
    forall k, m | 0 <= k < |L'.files| && 0 <= m < |L'.files| && k != m
      ensures Disjoint(L'.files[k], L'.files[m]) && Disjoint(L.root, L'.files[k])
    {
      assert Disjoint(L.files[k], L.files[m]) && Disjoint(L.root, L.files[k]);
    }
  }

  lemma LaysWithout(v: View, root: nat, L: Layout, i: nat)
    requires Lays(v, root, L) && i < |L.files|
    ensures LaysBut(v, root, Without(L, i), i)
  {
    OwnedWithout(L, i);
  }

  lemma FreeLays(v: View, root: nat, L: Layout, i: nat, cb: nat)
    requires Sized(v, cb) && Lays(v, root, L) && i < |L.files|
    ensures LaysBut(v.(fat := ZeroAll(v.fat, SetOf(L.files[i]))), root, Without(L, i), i)
  {
    LaysWithout(v, root, L, i);
    LaysInData(v, root, L, -1);
    var L' := Without(L, i);
    var fat' := ZeroAll(v.fat, SetOf(L.files[i]));
    var s := Slots(v.data, L.root);
    assert Disjoint(L.root, L.files[i]);
    ChainMembers(v.fat, root, L.root);
    ChainFrame(v.fat, fat', root, L.root);
    forall j | 0 <= j < |s| && j != i
      ensures SlotOk(fat', s[j], L'.files[j])
    {
      assert SlotOk(v.fat, s[j], L.files[j]);
      assert Disjoint(L.files[j], L.files[i]);
      if Owns(s[j]) {
        assert forall x :: x in L.files[j] ==> Owned(L, x);
        ChainFrame(v.fat, fat', Start(s[j]), L.files[j]);
      }
    }
    assert ChainsOk(fat', s, L'.files, i);
  }

  /** Freeing the chain of entry i leaves a layout without that entry. */
  lemma FreeKeeps(v: View, root: nat, L: Layout, i: nat, cb: nat)
    requires Sized(v, cb) && Lays(v, root, L) && i < |L.files|
    ensures var v' := v.(fat := ZeroAll(v.fat, SetOf(L.files[i])));
            && Sized(v', cb) && LaysBut(v', root, Without(L, i), i) && LaysBut(v, root, Without(L, i), i)
            && FilesBut(v', root, Without(L, i), i) == FilesBut(v, root, Without(L, i), i)
            && Foreign(v', Without(L, i)) == Foreign(v, L)
            && FreeSet(v'.fat) == FreeSet(v.fat) + SetOf(L.files[i])
            && |FreeSet(v'.fat)| == |FreeSet(v.fat)| + |L.files[i]|
  {
    FreeLays(v, root, L, i, cb);
    LaysWithout(v, root, L, i);
    FreeFiles(v, root, L, i, cb);
    FreeCounts(v, root, L, i, cb);
  }

  lemma FreeFiles(v: View, root: nat, L: Layout, i: nat, cb: nat)
    requires Sized(v, cb) && LaysBut(v, root, L, -1) && i < |L.files|
    requires LaysBut(v, root, Without(L, i), i)
    requires LaysBut(v.(fat := ZeroAll(v.fat, SetOf(L.files[i]))), root, Without(L, i), i)
    ensures FilesBut(v.(fat := ZeroAll(v.fat, SetOf(L.files[i]))), root, Without(L, i), i)
            == FilesBut(v, root, Without(L, i), i)
  {
    var v', L' := v.(fat := ZeroAll(v.fat, SetOf(L.files[i]))), Without(L, i);
    LaysInData(v, root, L', i);
    assert forall k, x :: 0 <= k < |L'.files| && x in L'.files[k] ==> Owned(L', x);
    FilesSame(v, L', i, v', L', i, root);
  }

  lemma FreeCounts(v: View, root: nat, L: Layout, i: nat, cb: nat)
    requires Sized(v, cb) && Lays(v, root, L) && i < |L.files|
    ensures var fat' := ZeroAll(v.fat, SetOf(L.files[i]));
            && Foreign(v.(fat := fat'), Without(L, i)) == Foreign(v, L)
            && FreeSet(fat') == FreeSet(v.fat) + SetOf(L.files[i])
            && |FreeSet(fat')| == |FreeSet(v.fat)| + |L.files[i]|
  {
    LaysInData(v, root, L, -1);
    OwnedWithout(L, i);
    var s := Slots(v.data, L.root);
    assert SlotOk(v.fat, s[i], L.files[i]);
    if Owns(s[i]) {
      ChainDistinct(v.fat, Start(s[i]), L.files[i]);
    }
    DistinctCard(L.files[i]);
    var gone := SetOf(L.files[i]);
    assert forall x :: x in gone ==> Owned(L, x);
    ZeroedFree(v.fat, gone);
  }

  lemma ZeroedFree(fat: seq<nat>, gone: set<nat>)
    requires forall x :: x in gone ==> InFat(fat, x) && fat[x] != 0
    ensures FreeSet(ZeroAll(fat, gone)) == FreeSet(fat) + gone
    ensures |FreeSet(ZeroAll(fat, gone))| == |FreeSet(fat)| + |gone|
  {
    assert FreeSet(ZeroAll(fat, gone)) == FreeSet(fat) + gone;
    assert FreeSet(fat) !! gone;
  }

  /** Only the clusters `taken` differ between v and v', and they were free in v. */
  ghost predicate TakenCells(v: View, v': View, taken: set<nat>) {
    && |v'.fat| == |v.fat| && |v'.data| == |v.data| == |v.fat|
    && (forall x :: x in taken ==> InFat(v.fat, x) && v.fat[x] == 0 && v'.fat[x] != 0)
    && (forall x: nat :: x < |v.fat| && x !in taken ==> v'.fat[x] == v.fat[x] && v'.data[x] == v.data[x])
  }

  /** Writing clusters that were free disturbs nobody. */
  lemma BuildKeeps(v: View, v': View, root: nat, L: Layout, hole: int, taken: set<nat>)
    requires LaysBut(v, root, L, hole) && TakenCells(v, v', taken)
    ensures LaysBut(v', root, L, hole)
    ensures Slots(v'.data, L.root) == Slots(v.data, L.root)
    ensures FilesBut(v', root, L, hole) == FilesBut(v, root, L, hole)
    ensures Foreign(v', L) == Foreign(v, L) + taken
    ensures forall x :: x in taken ==> !Owned(L, x)
  {
    BuildLays(v, v', root, L, hole, taken);
    LaysInData(v, root, L, hole);
    assert forall i, x :: 0 <= i < |L.files| && x in L.files[i] ==> Owned(L, x);
    FilesSame(v, L, hole, v', L, hole, root);
  }

  lemma BuildLays(v: View, v': View, root: nat, L: Layout, hole: int, taken: set<nat>)
    requires LaysBut(v, root, L, hole) && TakenCells(v, v', taken)
    ensures LaysBut(v', root, L, hole)
    ensures Slots(v'.data, L.root) == Slots(v.data, L.root)
  {
    LaysInData(v, root, L, hole);
    var s := Slots(v.data, L.root);
    assert forall x :: x in L.root ==> Owned(L, x);
    ChainFrame(v.fat, v'.fat, root, L.root);
    SlotsFrame(v.data, v'.data, L.root);
    forall i | 0 <= i < |s| && i != hole
      ensures SlotOk(v'.fat, s[i], L.files[i])
    {
      assert SlotOk(v.fat, s[i], L.files[i]);
      if Owns(s[i]) {
        assert forall x :: x in L.files[i] ==> Owned(L, x);
        ChainFrame(v.fat, v'.fat, Start(s[i]), L.files[i]);
      }
    }
  }

  /** The view after entry o of the j-th root cluster has been overwritten with e. */
  ghost function Put(v: View, L: Layout, j: nat, o: nat, e: Slot): View
    requires j < |L.root| && L.root[j] < |v.data| && 32 * o + 32 <= |v.data[L.root[j]]|
  {
    var cl := v.data[L.root[j]];
    v.(data := v.data[L.root[j] := cl[..32 * o] + e + cl[32 * o + 32..]])
  }

  /** i is the number, counted over the whole root directory, of entry o in root cluster j. */
  ghost predicate At(v: View, L: Layout, i: nat, j: nat, o: nat) {
    && InData(v.data, L.root) && j < |L.root|
    && o < |v.data[L.root[j]]| / 32
    && InData(v.data, L.root[..j])
    && i == |Slots(v.data, L.root[..j])| + o
  }

  lemma PutKeeps(v: View, root: nat, L: Layout, i: nat, j: nat, o: nat, e: Slot, ch: seq<nat>, cb: nat)
    requires Sized(v, cb) && LaysBut(v, root, L, i) && At(v, L, i, j, o)
    requires SlotOk(v.fat, e, ch)
    requires forall x :: x in ch ==> InFat(v.fat, x) && !Owned(L, x)
    requires e[0] != 0
    requires forall k :: 0 <= k < i && k < |L.files| ==> Slots(v.data, L.root)[k][0] != 0
    requires Live(e) ==> Name(e) !in FilesBut(v, root, L, i)
    ensures 32 * o + 32 <= |v.data[L.root[j]]|
    ensures i < |L.files|
    ensures InData(v.data, ch)
    ensures var v', L' := Put(v, L, j, o, e), L.(files := L.files[i := ch]);
            && Sized(v', cb) && Lays(v', root, L')
            && Files(v', root, L') == (if Live(e) then FilesBut(v, root, L, i)[Name(e) := EntryOf(v.data, e, ch)]
                                       else FilesBut(v, root, L, i))
            && Foreign(v', L') == Foreign(v, L) - SetOf(ch)
            && Slots(v'.data, L'.root) == Slots(v.data, L.root)[i := e]
  {
    PutLays(v, root, L, i, j, o, e, ch, cb);
    PutData(v, root, L, i, j, o, e, ch, cb);
    var L' := L.(files := L.files[i := ch]);
    assert forall k :: 0 <= k < |ch| ==> ch[k] in ch;
    PutFiles(v, root, L, Put(v, L, j, o, e), L', i, e, ch);
    forall c: nat
      ensures Owned(L', c) <==> Owned(L, c) || c in ch
    {
      if k :| 0 <= k < |L.files| && c in L.files[k] {
        assert L'.files[k] == L.files[k];
      }
      if k :| 0 <= k < |L.files| && c in L'.files[k] {
        assert k != i ==> L.files[k] == L'.files[k];
      }
      if c in ch {
        assert c in L'.files[i];
      }
    }
    assert Put(v, L, j, o, e).fat == v.fat;
  }

  lemma ApartPut(L: Layout, i: nat, ch: seq<nat>)
    requires Apart(L.root, L.files) && i < |L.files|
    requires forall x :: x in ch ==> !Owned(L, x)
    ensures Apart(L.root, L.files[i := ch])
  {
    var files := L.files[i := ch];
    forall k, m | 0 <= k < |files| && 0 <= m < |files| && k != m
      ensures Disjoint(files[k], files[m])
    {
      assert Disjoint(L.files[k], L.files[m]);
      assert forall x :: x in L.files[k] ==> Owned(L, x);
      assert forall x :: x in L.files[m] ==> Owned(L, x);
    }
    assert forall x :: x in L.root ==> Owned(L, x);
    forall k | 0 <= k < |files|
      ensures Disjoint(L.root, files[k])
    {
      assert Disjoint(L.root, L.files[k]);
    }
  }

  lemma PutLays(v: View, root: nat, L: Layout, i: nat, j: nat, o: nat, e: Slot, ch: seq<nat>, cb: nat)
    requires Sized(v, cb) && LaysBut(v, root, L, i) && At(v, L, i, j, o)
    requires SlotOk(v.fat, e, ch)
    requires forall x :: x in ch ==> InFat(v.fat, x) && !Owned(L, x)
    requires e[0] != 0
    requires forall k :: 0 <= k < i && k < |L.files| ==> Slots(v.data, L.root)[k][0] != 0
    requires Live(e) ==> Name(e) !in FilesBut(v, root, L, i)
    ensures 32 * o + 32 <= |v.data[L.root[j]]|
    ensures i < |L.files|
    ensures var v', L' := Put(v, L, j, o, e), L.(files := L.files[i := ch]);
            && Sized(v', cb) && Lays(v', root, L')
            && Slots(v'.data, L'.root) == Slots(v.data, L.root)[i := e]
  {
    ChainDistinct(v.fat, root, L.root);
    var cl := v.data[L.root[j]];
    var v' := PutSlot(v, L, i, j, o, e);
    var s, s' := Slots(v.data, L.root), Slots(v'.data, L.root);
    ApartPut(L, i, ch);
    forall k | 0 <= k < |s| && k != i && Live(s[k]) && Live(e)
      ensures Name(s[k]) != Name(e)
    {
      FilesAt(v, root, L, i, k);
    }
    assert NamesApart(s', -1);
    assert UnusedLast(s');
    assert ChainsOk(v.fat, s', L.files[i := ch], -1);
  }

  lemma PutSlot(v: View, L: Layout, i: nat, j: nat, o: nat, e: Slot) returns (v': View)
    requires At(v, L, i, j, o) && Distinct(L.root)
    ensures 32 * o + 32 <= |v.data[L.root[j]]|
    ensures v' == Put(v, L, j, o, e)
    ensures InData(v'.data, L.root)
    ensures i < |Slots(v.data, L.root)| && Slots(v'.data, L.root) == Slots(v.data, L.root)[i := e]
    ensures |v'.data| == |v.data| && forall c :: 0 <= c < |v.data| ==> |v'.data[c]| == |v.data[c]|
  {
    var cl := v.data[L.root[j]];
    SlotsUpdate(v.data, L.root, j, o, cl[..32 * o] + e + cl[32 * o + 32..], e);
    v' := Put(v, L, j, o, e);
  }

  lemma PutFiles(v: View, root: nat, L: Layout, v': View, L': Layout, i: nat, e: Slot, ch: seq<nat>)
    requires LaysBut(v, root, L, i) && Lays(v', root, L') && i < |L.files| == |L'.files|
    requires Slots(v'.data, L'.root) == Slots(v.data, L.root)[i := e]
    requires L'.files[i] == ch && InData(v.data, ch)
    requires Carried(v, L, i, v', L', -1)
    requires forall x :: x in ch ==> x < |v.data| && x < |v'.data| && v'.data[x] == v.data[x]
    requires Live(e) ==> Name(e) !in FilesBut(v, root, L, i)
    ensures Files(v', root, L') == (if Live(e) then FilesBut(v, root, L, i)[Name(e) := EntryOf(v.data, e, ch)]
                                    else FilesBut(v, root, L, i))
  {
    PutOld(v, root, L, v', L', i);
    PutBack(v, root, L, v', L', i, e);
    if Live(e) {
      PutNew(v, v', root, L', i, e, ch);
      MapPut(FilesBut(v, root, L, i), Files(v', root, L'), Name(e), EntryOf(v.data, e, ch));
    } else {
      MapSame(FilesBut(v, root, L, i), Files(v', root, L'));
    }
  }

  lemma PutOld(v: View, root: nat, L: Layout, v': View, L': Layout, i: nat)
    requires LaysBut(v, root, L, i) && Lays(v', root, L') && Carried(v, L, i, v', L', -1)
    ensures forall k :: k in FilesBut(v, root, L, i)
              ==> k in Files(v', root, L') && Files(v', root, L')[k] == FilesBut(v, root, L, i)[k]
  {
    forall k | k in FilesBut(v, root, L, i)
      ensures k in Files(v', root, L') && Files(v', root, L')[k] == FilesBut(v, root, L, i)[k]
    {
      EntryCarried(v, L, i, v', L', -1, root, k);
    }
  }

  lemma PutBack(v: View, root: nat, L: Layout, v': View, L': Layout, i: nat, e: Slot)
    requires LaysBut(v, root, L, i) && Lays(v', root, L') && i < |L.files| == |L'.files|
    requires Slots(v'.data, L'.root) == Slots(v.data, L.root)[i := e]
    ensures forall k :: k in Files(v', root, L') ==> k in FilesBut(v, root, L, i) || (Live(e) && k == Name(e))
  {
    forall k | k in Files(v', root, L')
      ensures k in FilesBut(v, root, L, i) || (Live(e) && k == Name(e))
    {
      PutKey(v, root, L, v', L', i, e, k);
    }
  }

  lemma MapSame(f: map<Key, Entry>, f': map<Key, Entry>)
    requires forall k :: k in f ==> k in f' && f'[k] == f[k]
    requires forall k :: k in f' ==> k in f
    ensures f' == f
  {
  }

  lemma PutNew(v: View, v': View, root: nat, L': Layout, i: nat, e: Slot, ch: seq<nat>)
    requires Lays(v', root, L') && i < |L'.files| && Slots(v'.data, L'.root)[i] == e && Live(e)
    requires L'.files[i] == ch && InData(v.data, ch)
    requires forall x :: x in ch ==> x < |v.data| && x < |v'.data| && v'.data[x] == v.data[x]
    ensures Name(e) in Files(v', root, L') && Files(v', root, L')[Name(e)] == EntryOf(v.data, e, ch)
  {
    FilesAt(v', root, L', -1, i);
    ConcatFrame(v.data, v'.data, ch);
  }

  lemma MapPut(f: map<Key, Entry>, f': map<Key, Entry>, n: Key, x: Entry)
    requires forall k :: k in f ==> k in f' && f'[k] == f[k]
    requires forall k :: k in f' ==> k in f || k == n
    requires n !in f && n in f' && f'[n] == x
    ensures f' == f[n := x]
  {
  }

  lemma PutKey(v: View, root: nat, L: Layout, v': View, L': Layout, i: nat, e: Slot, k: Key)
    requires LaysBut(v, root, L, i) && Lays(v', root, L') && i < |L.files| == |L'.files|
    requires Slots(v'.data, L'.root) == Slots(v.data, L.root)[i := e]
    requires k in Files(v', root, L')
    ensures k in FilesBut(v, root, L, i) || (Live(e) && k == Name(e))
  {
    var n := FilesFrom(v', root, L', -1, k);
    if n != i {
      FilesAt(v, root, L, i, n);
    }
  }

  lemma PutData(v: View, root: nat, L: Layout, i: nat, j: nat, o: nat, e: Slot, ch: seq<nat>, cb: nat)
    requires Sized(v, cb) && LaysBut(v, root, L, i) && At(v, L, i, j, o)
    requires 32 * o + 32 <= |v.data[L.root[j]]| && i < |L.files|
    requires var v', L' := Put(v, L, j, o, e), L.(files := L.files[i := ch]);
            && Sized(v', cb) && Lays(v', root, L')
            && Slots(v'.data, L'.root) == Slots(v.data, L.root)[i := e]
    ensures var v', L' := Put(v, L, j, o, e), L.(files := L.files[i := ch]);
            && Carried(v, L, i, v', L', -1)
            && forall x :: x in ch ==> x < |v.data| && v'.data[x] == v.data[x]
  {
    var v', L' := Put(v, L, j, o, e), L.(files := L.files[i := ch]);
    LaysInData(v', root, L', -1);
    forall k, x | 0 <= k < |L'.files| && x in L'.files[k]
      ensures x < |v.data| && v'.data[x] == v.data[x]
    {
      assert Disjoint(L'.root, L'.files[k]) && L.root[j] in L.root;
      assert Owned(L', x);
    }
    assert L'.files[i] == ch;
    var s, s' := Slots(v.data, L.root), Slots(v'.data, L'.root);
    assert forall n :: 0 <= n < |s| && n != i ==> s'[n] == s[n] && L'.files[n] == L.files[n];
  }

  // ---- emptying an entry, and filling it again ----

  /** Leaving the entry of k out of the layout leaves k out of the map. */
  lemma FilesWithout(v: View, root: nat, L: Layout, i: nat, k: Key)
    requires Lays(v, root, L) && i < |L.files| && LaysBut(v, root, Without(L, i), i)
    requires var e := Slots(v.data, L.root)[i]; if Live(e) then Name(e) == k else k !in Files(v, root, L)
    ensures FilesBut(v, root, Without(L, i), i) == Files(v, root, L) - {k}
  {
    forall n | n in Files(v, root, L) && n != k
      ensures n in FilesBut(v, root, Without(L, i), i)
      ensures FilesBut(v, root, Without(L, i), i)[n] == Files(v, root, L)[n]
    {
      WithoutOld(v, root, L, i, k, n);
    }
    forall n | n in FilesBut(v, root, Without(L, i), i)
      ensures n in Files(v, root, L) && n != k
    {
      WithoutBack(v, root, L, i, k, n);
    }
    MapMinus(Files(v, root, L), FilesBut(v, root, Without(L, i), i), k);
  }

  lemma WithoutOld(v: View, root: nat, L: Layout, i: nat, k: Key, n: Key)
    requires Lays(v, root, L) && i < |L.files| && LaysBut(v, root, Without(L, i), i)
    requires Live(Slots(v.data, L.root)[i]) ==> Name(Slots(v.data, L.root)[i]) == k
    requires n in Files(v, root, L) && n != k
    ensures n in FilesBut(v, root, Without(L, i), i)
    ensures FilesBut(v, root, Without(L, i), i)[n] == Files(v, root, L)[n]
  {
    var m := FilesFrom(v, root, L, -1, n);
    FilesAt(v, root, Without(L, i), i, m);
  }

  lemma WithoutBack(v: View, root: nat, L: Layout, i: nat, k: Key, n: Key)
    requires Lays(v, root, L) && i < |L.files| && LaysBut(v, root, Without(L, i), i)
    requires var e := Slots(v.data, L.root)[i]; if Live(e) then Name(e) == k else k !in Files(v, root, L)
    requires n in FilesBut(v, root, Without(L, i), i)
    ensures n in Files(v, root, L) && n != k
  {
    var m := FilesFrom(v, root, Without(L, i), i, n);
    FilesAt(v, root, L, -1, m);
    assert NamesApart(Slots(v.data, L.root), -1);
  }

  lemma MapMinus(f: map<Key, Entry>, f': map<Key, Entry>, k: Key)
    requires forall n :: n in f && n != k ==> n in f' && f'[n] == f[n]
    requires forall n :: n in f' ==> n in f && n != k
    ensures f' == f - {k}
  {
  }

  /** Freeing what the entry of k owns leaves everything else, and room in entry i. */
  lemma EmptySlot(v: View, root: nat, L: Layout, i: nat, k: Key, cb: nat)
    requires Sized(v, cb) && Lays(v, root, L) && i < |L.files|
    requires var e := Slots(v.data, L.root)[i]; if Live(e) then Name(e) == k else k !in Files(v, root, L)
    ensures var v' := v.(fat := ZeroAll(v.fat, SetOf(L.files[i])));
            && Sized(v', cb) && LaysBut(v', root, Without(L, i), i)
            && FilesBut(v', root, Without(L, i), i) == Files(v, root, L) - {k}
            && Foreign(v', Without(L, i)) == Foreign(v, L)
            && |FreeSet(v'.fat)| == |FreeSet(v.fat)| + |L.files[i]|
  {
    FreeKeeps(v, root, L, i, cb);
    FilesWithout(v, root, L, i, k);
  }

  lemma ZeroNone(fat: seq<nat>)
    ensures ZeroAll(fat, SetOf([])) == fat
  {
  }

  lemma AtFrame(v: View, v': View, L: Layout, L': Layout, i: nat, j: nat, o: nat)
    requires At(v, L, i, j, o) && L'.root == L.root && |v'.data| == |v.data|
    requires forall x :: x in L.root ==> x < |v.data| && v'.data[x] == v.data[x]
    ensures At(v', L', i, j, o)
  {
    assert L.root[j] in L.root;
    assert forall x :: x in L.root[..j] ==> x in L.root;
    SlotsFrame(v.data, v'.data, L.root[..j]);
  }

  /** Filling entry i, whose clusters nc were free, adds one name, or nothing if the entry reads as deleted. */
  lemma FillSlot(v: View, v': View, root: nat, L: Layout, i: nat, j: nat, o: nat, e: Slot, nc: seq<nat>, cb: nat)
    requires Sized(v', cb) && LaysBut(v, root, L, i) && At(v, L, i, j, o)
    requires TakenCells(v, v', SetOf(nc))
    requires SlotOk(v'.fat, e, if Live(e) then nc else [])
    requires e[0] != 0
    requires forall n :: 0 <= n < i && n < |L.files| ==> Slots(v.data, L.root)[n][0] != 0
    requires Live(e) ==> Name(e) !in FilesBut(v, root, L, i)
    ensures i < |L.files| && InData(v'.data, nc)
    ensures j < |L.root| && L.root[j] < |v'.data| && 32 * o + 32 <= |v'.data[L.root[j]]|
    ensures var w, L' := Put(v', L, j, o, e), L.(files := L.files[i := if Live(e) then nc else []]);
            && Sized(w, cb) && Lays(w, root, L')
            && Files(w, root, L') == (if Live(e) then FilesBut(v, root, L, i)[Name(e) := EntryOf(v'.data, e, nc)]
                                      else FilesBut(v, root, L, i))
            && Foreign(w, L') == Foreign(v, L) + (if Live(e) then {} else SetOf(nc))
  {
    BuildKeeps(v, v', root, L, i, SetOf(nc));
    LaysInData(v, root, L, i);
    forall x | x in L.root
      ensures x < |v.data| && v'.data[x] == v.data[x]
    {
      assert Owned(L, x);
    }
    AtFrame(v, v', L, L, i, j, o);
    var ch := if Live(e) then nc else [];
    assert forall x :: x in ch ==> x in SetOf(nc);
    PutKeeps(v', root, L, i, j, o, e, ch, cb);
    assert forall n :: 0 <= n < |nc| ==> nc[n] in SetOf(nc);
  }
}
