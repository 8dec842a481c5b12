/**
  The file allocation table as a sequence of 28-bit entries, and the cluster chains in it.
  An entry of EOC or more ends a chain, 0 marks a free cluster, anything else names the next cluster.
 */
module FatChains {
  const EOC := 0x0FFF_FFF8
  const END_MARK := 0x0FFF_FFFF

  predicate InFat(fat: seq<nat>, c: nat) {
    2 <= c < |fat|
  }

  /** ch is the whole chain that starts at c: every link is in range and the last entry is an end mark. */
  ghost predicate IsChain(fat: seq<nat>, c: nat, ch: seq<nat>)
    decreases |ch|
  {
    && |ch| > 0
    && ch[0] == c
    && InFat(fat, c)
    && (if |ch| == 1 then fat[c] >= EOC else IsChain(fat, fat[c], ch[1..]))
  }

  /** A chain ends at a cluster whose entry is 0x0FFFFFF8 or more. */
  lemma ChainEnds(fat: seq<nat>, c: nat)
    ensures IsChain(fat, c, [c]) <==> 2 <= c < |fat| && fat[c] >= 0x0FFF_FFF8
  {
  }

  ghost predicate Disjoint(a: seq<nat>, b: seq<nat>) {
    forall x :: x in a ==> x !in b
  }

  ghost predicate Distinct(s: seq<nat>) {
    forall i, j :: 0 <= i < j < |s| ==> s[i] != s[j]
  }

  function SetOf(s: seq<nat>): set<nat> {
    set x | x in s
  }

  /** The free clusters, and the clusters in use. */
  function FreeSet(fat: seq<nat>): set<nat> {
    set c | 2 <= c < |fat| && fat[c] == 0
  }

  function UsedSet(fat: seq<nat>): set<nat> {
    set c | 2 <= c < |fat| && fat[c] != 0
  }

  function ZeroAll(fat: seq<nat>, s: set<nat>): (r: seq<nat>) {
    seq(|fat|, i requires 0 <= i < |fat| => if i in s then 0 else fat[i])
  }

  lemma {:induction false} ChainMembers(fat: seq<nat>, c: nat, ch: seq<nat>)
    requires IsChain(fat, c, ch)
    ensures forall x :: x in ch ==> InFat(fat, x) && fat[x] != 0 && (fat[x] >= EOC || fat[x] in ch)
    decreases |ch|
  {
    if |ch| > 1 {
      ChainMembers(fat, fat[c], ch[1..]);
      assert ch == [ch[0]] + ch[1..];
      assert fat[c] == ch[1];
    }
  }

  lemma {:induction false} ChainUnique(fat: seq<nat>, c: nat, a: seq<nat>, b: seq<nat>)
    requires |fat| < EOC
    requires IsChain(fat, c, a) && IsChain(fat, c, b)
    ensures a == b
    decreases |a|
  {
    if |a| > 1 && |b| > 1 {
      ChainUnique(fat, fat[c], a[1..], b[1..]);
      assert a == [c] + a[1..] && b == [c] + b[1..];
    }
  }

  /** The tail of a chain is the chain of its own first cluster. */
  lemma {:induction false} ChainSuffix(fat: seq<nat>, c: nat, ch: seq<nat>, i: nat)
    requires IsChain(fat, c, ch) && i < |ch|
    ensures IsChain(fat, ch[i], ch[i..])
    decreases i
  {
    if i > 0 {
      ChainSuffix(fat, fat[c], ch[1..], i - 1);
      assert ch[1..][i - 1..] == ch[i..];
    } else {
      assert ch[0..] == ch;
    }
  }

  /** A chain that ends is acyclic: no cluster comes twice. */
  lemma ChainDistinct(fat: seq<nat>, c: nat, ch: seq<nat>)
    requires |fat| < EOC
    requires IsChain(fat, c, ch)
    ensures Distinct(ch)
  {
    forall i, j | 0 <= i < j < |ch|
      ensures ch[i] != ch[j]
    {
      ChainSuffix(fat, c, ch, i);
      ChainSuffix(fat, c, ch, j);
      if ch[i] == ch[j] {
        ChainUnique(fat, ch[i], ch[i..], ch[j..]);
        assert false;
      }
    }
  }

  /** A change of the table outside a chain leaves the chain as it is. */
  lemma {:induction false} ChainFrame(fat: seq<nat>, fat': seq<nat>, c: nat, ch: seq<nat>)
    requires IsChain(fat, c, ch)
    requires |fat'| == |fat|
    requires forall x :: x in ch ==> x < |fat| && fat'[x] == fat[x]
    ensures IsChain(fat', c, ch)
    decreases |ch|
  {
    assert c in ch;
    if |ch| > 1 {
      assert forall x :: x in ch[1..] ==> x in ch;
      ChainFrame(fat, fat', fat[c], ch[1..]);
    }
  }

  /** Linking a fresh end-marked cluster behind the last one extends the chain by it. */
  lemma {:induction false} ChainExtend(fat: seq<nat>, fat': seq<nat>, c: nat, ch: seq<nat>, n: nat)
    requires |fat| < EOC
    requires IsChain(fat, c, ch)
    requires InFat(fat, n) && n !in ch
    requires |fat'| == |fat| && fat'[n] >= EOC
    requires forall x :: x in ch ==> x < |fat| && fat'[x] == if x == ch[|ch| - 1] then n else fat[x]
    ensures IsChain(fat', c, ch + [n])
    decreases |ch|
  {
    ChainDistinct(fat, c, ch);
    assert c in ch;
    if |ch| > 1 {
      assert ch[|ch| - 1] != ch[0];
      assert ch[1..][|ch[1..]| - 1] == ch[|ch| - 1];
      assert forall x :: x in ch[1..] ==> x in ch;
      ChainExtend(fat, fat', fat[c], ch[1..], n);
      assert (ch + [n])[1..] == ch[1..] + [n];
    } else {
      assert (ch + [n])[1..] == [n];
      assert IsChain(fat', n, [n]);
    }
  }

  lemma {:induction false} DistinctCard(s: seq<nat>)
    requires Distinct(s)
    ensures |SetOf(s)| == |s|
  {
    if s != [] {
      var t := s[..|s| - 1];
      DistinctCard(t);
      assert s == t + [s[|s| - 1]];
      assert SetOf(s) == SetOf(t) + {s[|s| - 1]};
      assert s[|s| - 1] !in SetOf(t);
    }
  }

  /** Every cluster is either free or in use. */
  lemma {:induction false} FreeUsed(fat: seq<nat>)
    requires |fat| >= 2
    ensures |FreeSet(fat)| + |UsedSet(fat)| == |fat| - 2
  {
    if |fat| == 2 {
      assert FreeSet(fat) == {} && UsedSet(fat) == {};
    } else {
      var n := |fat| - 1;
      var t := fat[..n];
      FreeUsed(t);
      var free, used := FreeSet(t), UsedSet(t);
      assert n !in free && n !in used;
      if fat[n] == 0 {
        assert FreeSet(fat) == free + {n} && UsedSet(fat) == used;
      } else {
        assert FreeSet(fat) == free && UsedSet(fat) == used + {n};
      }
    }
  }

  // ---- what freeing a chain reaches, on any table ----

  /** p is a path of links from c to d; every cluster on it is in range. */
  ghost predicate IsPath(fat: seq<nat>, c: nat, d: nat, p: seq<nat>)
    decreases |p|
  {
    && |p| > 0
    && p[|p| - 1] == d
    && InFat(fat, d)
    && (if |p| == 1 then c == d
        else InFat(fat, p[|p| - 2]) && fat[p[|p| - 2]] == d && IsPath(fat, c, p[|p| - 2], p[..|p| - 1]))
  }

  ghost predicate Reach(fat: seq<nat>, c: nat, d: nat) {
    exists p :: IsPath(fat, c, d, p)
  }

  lemma ReachSelf(fat: seq<nat>, c: nat)
    requires InFat(fat, c)
    ensures Reach(fat, c, c)
  {
    assert IsPath(fat, c, c, [c]);
  }

  lemma ReachStep(fat: seq<nat>, c: nat, d: nat)
    requires Reach(fat, c, d)
    requires InFat(fat, d) && InFat(fat, fat[d])
    ensures Reach(fat, c, fat[d])
  {
    var p :| IsPath(fat, c, d, p);
    var q := p + [fat[d]];
    assert q[..|q| - 1] == p;
    assert IsPath(fat, c, fat[d], q);
  }

  /** A set that holds c and is closed under in-range links holds everything reachable from c. */
  lemma {:induction false} ReachClosed(fat: seq<nat>, c: nat, s: set<nat>, d: nat, p: seq<nat>)
    requires InFat(fat, c) ==> c in s
    requires forall x :: x in s && InFat(fat, x) && InFat(fat, fat[x]) ==> fat[x] in s
    requires IsPath(fat, c, d, p)
    ensures d in s
    decreases |p|
  {
    if |p| > 1 {
      ReachClosed(fat, c, s, p[|p| - 2], p[..|p| - 1]);
    }
  }

  /** On a proper chain, what is reachable is the chain. */
  lemma ReachChain(fat: seq<nat>, c: nat, ch: seq<nat>)
    requires |fat| < EOC
    requires IsChain(fat, c, ch)
    ensures forall d :: Reach(fat, c, d) <==> d in ch
  {
    ChainMembers(fat, c, ch);
    forall d | Reach(fat, c, d)
      ensures d in ch
    {
      var p :| IsPath(fat, c, d, p);
      ReachClosed(fat, c, SetOf(ch), d, p);
    }
    forall d | d in ch
      ensures Reach(fat, c, d)
    {
      var i :| 0 <= i < |ch| && ch[i] == d;
      ChainReaches(fat, c, ch, i);
    }
  }

  lemma {:induction false} ChainReaches(fat: seq<nat>, c: nat, ch: seq<nat>, i: nat)
    requires |fat| < EOC
    requires IsChain(fat, c, ch) && i < |ch|
    ensures Reach(fat, c, ch[i])
  {
    if i == 0 {
      ReachSelf(fat, c);
    } else {
      ChainReaches(fat, c, ch, i - 1);
      ChainSuffix(fat, c, ch, i - 1);
      assert ch[i - 1..][1..] == ch[i..];
      assert fat[ch[i - 1]] == ch[i];
      ReachStep(fat, c, ch[i - 1]);
    }
  }

  /** Where freeing from c stands: it is about to free `cluster`, and z has been freed. */
  ghost predicate Freeing(fat: seq<nat>, c: nat, cluster: nat, z: set<nat>) {
    && (forall x :: x in z ==> InFat(fat, x) && Reach(fat, c, x))
    && (2 <= cluster < EOC ==> InFat(fat, cluster) && Reach(fat, c, cluster))
    && (InFat(fat, c) ==> c in z || c == cluster)
    && (forall x :: x in z && InFat(fat, fat[x]) ==> fat[x] in z || fat[x] == cluster)
  }

  lemma FreeingStep(fat: seq<nat>, c: nat, cluster: nat, z: set<nat>)
    requires |fat| < EOC
    requires Freeing(fat, c, cluster, z) && 2 <= cluster < EOC
    requires fat[cluster] < |fat| || fat[cluster] >= EOC
    ensures Freeing(fat, c, if cluster in z then 0 else fat[cluster], z + {cluster})
    ensures ZeroAll(fat, z)[cluster] == if cluster in z then 0 else fat[cluster]
    ensures ZeroAll(fat, z)[cluster := 0] == ZeroAll(fat, z + {cluster})
  {
    if cluster !in z && InFat(fat, fat[cluster]) {
      ReachStep(fat, c, cluster);
    }
  }

  lemma FreeingMeasure(fat: seq<nat>, cluster: nat)
    requires InFat(fat, cluster)
    ensures fat[cluster] != 0 ==> |UsedSet(fat[cluster := 0])| < |UsedSet(fat)|
    ensures fat[cluster] == 0 ==> fat[cluster := 0] == fat
  {
    if fat[cluster] != 0 {
      assert UsedSet(fat[cluster := 0]) == UsedSet(fat) - {cluster};
      assert cluster in UsedSet(fat);
    }
  }

  lemma FreeingDone(fat: seq<nat>, c: nat, cluster: nat, z: set<nat>)
    requires |fat| < EOC
    requires Freeing(fat, c, cluster, z) && !(2 <= cluster < EOC)
    ensures forall d: nat :: Reach(fat, c, d) <==> d in z
  {
    forall d: nat | Reach(fat, c, d)
      ensures d in z
    {
      var p :| IsPath(fat, c, d, p);
      ReachClosed(fat, c, z, d, p);
    }
  }
}
