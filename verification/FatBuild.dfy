/** Building the chain of a new file, cluster by cluster. */
module FatBuild {
  import opened Bytes
  import opened FatChains
  import opened FatLayout
  import opened FatSteps

  /** How many clusters of cb bytes hold len bytes. */
  function Need(len: nat, cb: nat): nat
    requires cb > 0
  {
    if len == 0 then 0 else 1 + Need(len - Min(len, cb), cb)
  }

  lemma NeedNext(len: nat, pos: nat, next: nat, cb: nat)
    requires cb > 0 && pos < len && next == pos + Min(len - pos, cb)
    ensures pos < next <= len && Need(len - pos, cb) == 1 + Need(len - next, cb)
  {
  }

  /** Only the clusters nc differ between v0 and v, and they were free in v0. */
  ghost predicate Taken(v0: View, v: View, nc: seq<nat>) {
    TakenCells(v0, v, SetOf(nc)) && Distinct(nc)
  }

  /** Exactly the clusters taken are no longer free. */
  lemma TakenFree(v0: View, v: View, nc: seq<nat>)
    requires Taken(v0, v, nc)
    ensures FreeSet(v.fat) == FreeSet(v0.fat) - SetOf(nc)
    ensures |FreeSet(v.fat)| + |nc| == |FreeSet(v0.fat)|
  {
    DistinctCard(nc);
    assert FreeSet(v.fat) == FreeSet(v0.fat) - SetOf(nc);
    assert SetOf(nc) <= FreeSet(v0.fat);
    assert FreeSet(v0.fat) == FreeSet(v.fat) + SetOf(nc);
  }

  /** nc is a chain of its own, ending in the end mark the driver writes, or empty. */
  ghost predicate ChainOrNone(fat: seq<nat>, nc: seq<nat>) {
    nc != [] ==> IsChain(fat, nc[0], nc) && nc[|nc| - 1] < |fat| && fat[nc[|nc| - 1]] == END_MARK
  }

  /** The clusters nc hold the first pos bytes of text. */
  ghost predicate Holds(data: seq<seq<byte>>, nc: seq<nat>, text: seq<byte>, pos: nat) {
    && InData(data, nc) && pos <= |text|
    && pos <= |Concat(data, nc)|
    && (pos < |text| ==> pos == |Concat(data, nc)|)
    && Concat(data, nc)[..pos] == text[..pos]
  }

  /** One more cluster c, linked behind the last one and holding the next chunk. */
  ghost function Appended(v: View, nc: seq<nat>, c: nat, cl: seq<byte>): View
    requires c < |v.fat| == |v.data|
    requires nc != [] ==> nc[|nc| - 1] < |v.fat|
  {
    var fat := v.fat[c := END_MARK];
    View(if nc == [] then fat else fat[nc[|nc| - 1] := c], v.data[c := cl])
  }

  lemma AppendTaken(v0: View, v: View, nc: seq<nat>, c: nat, cl: seq<byte>)
    requires Taken(v0, v, nc) && (nc != [] ==> nc[|nc| - 1] < |v.fat|)
    requires InFat(v.fat, c) && v.fat[c] == 0
    ensures Taken(v0, Appended(v, nc, c, cl), nc + [c])
  {
    AppendTakenCells(v0, v, nc, c, cl);
    assert c !in SetOf(nc);
  }

  lemma AppendTakenCells(v0: View, v: View, nc: seq<nat>, c: nat, cl: seq<byte>)
    requires TakenCells(v0, v, SetOf(nc)) && (nc != [] ==> nc[|nc| - 1] < |v.fat|)
    requires InFat(v.fat, c) && v.fat[c] == 0
    ensures TakenCells(v0, Appended(v, nc, c, cl), SetOf(nc + [c]))
  {
    AppendedCells(v, nc, c, cl);
    AppendCells(v0, v, Appended(v, nc, c, cl), SetOf(nc), c);
    assert SetOf(nc + [c]) == SetOf(nc) + {c};
  }

  lemma AppendedCells(v: View, nc: seq<nat>, c: nat, cl: seq<byte>)
    requires |v.fat| == |v.data| && (nc != [] ==> nc[|nc| - 1] < |v.fat|) && InFat(v.fat, c)
    ensures var v' := Appended(v, nc, c, cl);
            && |v'.fat| == |v.fat| && |v'.data| == |v.data| && v'.fat[c] != 0
            && forall x: nat :: x < |v.fat| && x != c ==>
                 v'.data[x] == v.data[x] && (v'.fat[x] == v.fat[x] || (x in SetOf(nc) && v'.fat[x] != 0))
  {
    assert nc != [] ==> nc[|nc| - 1] in SetOf(nc);
  }

  lemma AppendCells(v0: View, v: View, v': View, nc: set<nat>, c: nat)
    requires TakenCells(v0, v, nc) && InFat(v.fat, c) && v.fat[c] == 0
    requires |v'.fat| == |v.fat| && |v'.data| == |v.data| && v'.fat[c] != 0
    requires forall x: nat :: x < |v.fat| && x != c ==>
               v'.data[x] == v.data[x] && (v'.fat[x] == v.fat[x] || (x in nc && v'.fat[x] != 0))
    ensures TakenCells(v0, v', nc + {c})
  {
  }

  lemma FreeAfter(fat: seq<nat>, fat': seq<nat>, c: nat)
    requires InFat(fat, c) && fat[c] == 0 && |fat'| == |fat|
    requires forall x: nat :: x < |fat| ==> (fat'[x] == 0 <==> x != c && fat[x] == 0)
    ensures FreeSet(fat') == FreeSet(fat) - {c}
    ensures |FreeSet(fat')| == |FreeSet(fat)| - 1
  {
    assert FreeSet(fat') == FreeSet(fat) - {c};
    assert c in FreeSet(fat);
  }

  lemma AppendChain(v: View, nc: seq<nat>, c: nat, cl: seq<byte>)
    requires |v.fat| == |v.data| && |v.fat| < EOC && ChainOrNone(v.fat, nc)
    requires InFat(v.fat, c) && v.fat[c] == 0
    ensures ChainOrNone(Appended(v, nc, c, cl).fat, nc + [c])
  {
    var fat' := Appended(v, nc, c, cl).fat;
    if nc != [] {
      ChainMembers(v.fat, nc[0], nc);
      ChainExtend(v.fat, fat', nc[0], nc, c);
    }
  }

  lemma AppendHolds(v: View, nc: seq<nat>, c: nat, cl: seq<byte>, text: seq<byte>, pos: nat, chunk: nat)
    requires |v.fat| == |v.data| && ChainOrNone(v.fat, nc) && Holds(v.data, nc, text, pos)
    requires c < |v.fat| && c !in nc
    requires pos < |text| && chunk == Min(|text| - pos, |cl|) && cl[..chunk] == text[pos..pos + chunk]
    ensures Holds(Appended(v, nc, c, cl).data, nc + [c], text, pos + chunk)
  {
    var data' := Appended(v, nc, c, cl).data;
    ConcatFrame(v.data, data', nc);
    ConcatSnoc(data', nc, c);
    assert (Concat(data', nc) + cl)[..pos + chunk] == Concat(data', nc) + cl[..chunk];
    assert text[..pos] + text[pos..pos + chunk] == text[..pos + chunk];
  }

  /** text[..pos] has gone into the new clusters nc, and nothing else has changed since v0. */
  ghost predicate Writing(v0: View, v: View, nc: seq<nat>, text: seq<byte>, pos: nat) {
    Taken(v0, v, nc) && ChainOrNone(v.fat, nc) && Holds(v.data, nc, text, pos)
  }

  /** A free cluster is on no chain. */
  lemma NotOnChain(fat: seq<nat>, nc: seq<nat>, c: nat)
    requires ChainOrNone(fat, nc) && c < |fat| && fat[c] == 0
    ensures c !in nc && (nc != [] ==> nc[|nc| - 1] < |fat|)
  {
    if nc != [] {
      ChainMembers(fat, nc[0], nc);
    }
  }

  lemma WritingChain(v0: View, v: View, nc: seq<nat>, text: seq<byte>, pos: nat)
    requires Writing(v0, v, nc, text, pos)
    ensures ChainOrNone(v.fat, nc)
  {
  }

  lemma WritingCount(v0: View, v: View, nc: seq<nat>, text: seq<byte>, pos: nat)
    requires Writing(v0, v, nc, text, pos)
    ensures |FreeSet(v.fat)| + |nc| == |FreeSet(v0.fat)|
  {
    TakenFree(v0, v, nc);
  }

  lemma WritingStart(v: View, text: seq<byte>)
    requires |v.data| == |v.fat|
    ensures Writing(v, v, [], text, 0)
  {
  }

  lemma WritingIs(v0: View, v: View, nc: seq<nat>, text: seq<byte>, pos: nat)
    ensures Writing(v0, v, nc, text, pos) <==>
            Taken(v0, v, nc) && ChainOrNone(v.fat, nc) && Holds(v.data, nc, text, pos)
  {
  }
}
