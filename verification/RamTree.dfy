/** The node table of the RAM filesystem as a value: when it is a tree, and who lies below whom. */
module RamTree {
  // The limits of the table: 256 nodes, names below 48 characters, files below 8192 bytes.

  datatype Kind = Free | Dir | File
  datatype Node = Node(kind: Kind, name: string, parent: int, content: string)
  type Table = seq<Node>

  const ROOT: Node := Node(Dir, "/", -1, "")
  const EMPTY: Node := Node(Free, "", -1, "")

  predicate ValidName(s: string) {
    s != "" && s != "." && s != ".." && |s| < 48
  }

  predicate Live(n: Table, i: int) {
    0 <= i < |n| && !n[i].kind.Free?
  }

  predicate IsDir(n: Table, i: int) {
    0 <= i < |n| && n[i].kind.Dir?
  }

  /** i sits in a directory under a valid name, and a file is below the size limit. */
  predicate Placed(n: Table, i: int)
    requires Live(n, i)
  {
    IsDir(n, n[i].parent) && ValidName(n[i].name) && (n[i].kind.File? ==> |n[i].content| < 8192)
  }

  predicate Child(n: Table, i: int, dir: int, name: string) {
    Live(n, i) && n[i].parent == dir && n[i].name == name
  }

  /** rank proves that no parent walk runs in a circle. */
  ghost predicate Below(n: Table, rank: seq<nat>, i: int)
    requires Live(n, i) && |rank| == |n|
  {
    0 <= n[i].parent < |n| && rank[n[i].parent] < rank[i]
  }

  ghost predicate Ranked(n: Table, rank: seq<nat>) {
    |rank| == |n| && forall i :: 0 < i < |n| && Live(n, i) ==> Below(n, rank, i)
  }

  ghost predicate Siblings(n: Table) {
    forall i, j, dir, name :: Child(n, i, dir, name) && Child(n, j, dir, name) ==> i == j
  }

  /**
    Node 0 is the root directory; every other live node is in a directory, under a name of its own, and
    below the root.
   */
  ghost predicate Tree(n: Table) {
    && |n| == 256 && n[0].kind.Dir? && n[0].parent == -1
    && (forall i :: 0 < i < |n| && Live(n, i) ==> Placed(n, i))
    && Siblings(n)
    && exists rank :: Ranked(n, rank)
  }

  // ---- parent walks ----

  /** p leads from i up to the root, parent by parent. */
  ghost predicate IsUp(n: Table, i: int, p: seq<int>)
    decreases |p|
  {
    && p != [] && p[0] == i && Live(n, i)
    && (if i == 0 then |p| == 1 else IsUp(n, n[i].parent, p[1..]))
  }

  lemma {:induction false} UpUnique(n: Table, i: int, p: seq<int>, q: seq<int>)
    requires IsUp(n, i, p) && IsUp(n, i, q)
    ensures p == q
    decreases |p|
  {
    if i != 0 {
      UpUnique(n, n[i].parent, p[1..], q[1..]);
      assert p == [p[0]] + p[1..] && q == [q[0]] + q[1..];
    }
  }

  /** Every live node's parent walk reaches the root, and never comes by a node twice. */
  lemma {:induction false} UpExists(n: Table, rank: seq<nat>, i: int) returns (p: seq<int>)
    requires Tree(n) && Ranked(n, rank) && Live(n, i)
    ensures IsUp(n, i, p)
    ensures forall k :: 0 < k < |p| ==> Live(n, p[k]) && rank[p[k]] < rank[i]
    decreases rank[i]
  {
    if i == 0 {
      p := [0];
    } else {
      assert Below(n, rank, i) && Placed(n, i);
      var q := UpExists(n, rank, n[i].parent);
      p := [i] + q;
      assert p[1..] == q;
    }
  }

  /** i is r or lies somewhere below it. */
  ghost predicate Inside(n: Table, i: int, r: int) {
    exists p :: IsUp(n, i, p) && r in p
  }

  lemma InsideSelf(n: Table, i: int)
    requires Tree(n) && Live(n, i)
    ensures Inside(n, i, i)
  {
    var rank :| Ranked(n, rank);
    var p := UpExists(n, rank, i);
    assert i in p;
  }

  lemma InsideChild(n: Table, i: int, r: int)
    requires Live(n, i) && i != 0 && Inside(n, n[i].parent, r)
    ensures Inside(n, i, r)
  {
    var p :| IsUp(n, n[i].parent, p) && r in p;
    var q := [i] + p;
    assert q[1..] == p;
    assert IsUp(n, i, q) && r in q;
  }

  /** A directory is not inside its own child. */
  lemma ParentOutside(n: Table, i: int)
    requires Tree(n) && Live(n, i) && i != 0
    ensures !Inside(n, n[i].parent, i)
  {
    var rank :| Ranked(n, rank);
    assert Below(n, rank, i) && Placed(n, i);
    var p := UpExists(n, rank, n[i].parent);
    if Inside(n, n[i].parent, i) {
      var q :| IsUp(n, n[i].parent, q) && i in q;
      UpUnique(n, n[i].parent, p, q);
    }
  }

  /** A set with r that has with every node its children has all that is inside r. */
  lemma {:induction false} ClosedHasAll(n: Table, r: int, s: set<int>, i: int, p: seq<int>)
    requires r in s && (forall j :: Live(n, j) && j != 0 && n[j].parent in s ==> j in s)
    requires IsUp(n, i, p) && r in p
    ensures i in s
    decreases |p|
  {
    if i != r {
      assert p == [p[0]] + p[1..];
      assert i != 0 ==> r in p[1..];
      ClosedHasAll(n, r, s, n[i].parent, p[1..]);
    }
  }

  // ---- what the operations do to the table ----

  /** A new node under dir, in a free slot. */
  lemma AddKeeps(n: Table, k: int, node: Node)
    requires Tree(n) && 0 < k < 256 && n[k].kind.Free? && !node.kind.Free?
    requires IsDir(n, node.parent) && ValidName(node.name) && (node.kind.File? ==> |node.content| < 8192)
    requires forall i :: !Child(n, i, node.parent, node.name)
    ensures Tree(n[k := node])
  {
    var m := n[k := node];
    var rank :| Ranked(n, rank);
    var rank' := rank[k := rank[node.parent] + 1];
    forall i | 0 < i < |m| && Live(m, i)
      ensures Placed(m, i) && Below(m, rank', i)
    {
      if i != k {
        assert Live(n, i) && Placed(n, i) && Below(n, rank, i);
      }
    }
    assert Ranked(m, rank');
    forall i, j, dir, name | Child(m, i, dir, name) && Child(m, j, dir, name)
      ensures i == j
    {
      assert i != k ==> Child(n, i, dir, name);
      assert j != k ==> Child(n, j, dir, name);
    }
  }

  /** New contents for a file. */
  lemma RewriteKeeps(n: Table, k: int, content: string)
    requires Tree(n) && 0 <= k < 256 && n[k].kind.File? && |content| < 8192
    ensures Tree(n[k := n[k].(content := content)])
  {
    var m := n[k := n[k].(content := content)];
    var rank :| Ranked(n, rank);
    forall i | 0 < i < |m| && Live(m, i)
      ensures Placed(m, i) && Below(m, rank, i)
    {
      assert Live(n, i) && Placed(n, i) && Below(n, rank, i);
    }
    assert Ranked(m, rank);
    forall i, j, dir, name | Child(m, i, dir, name) && Child(m, j, dir, name)
      ensures i == j
    {
      assert Child(n, i, dir, name) && Child(n, j, dir, name);
    }
  }

  /** A new name in the same directory. */
  lemma RenameKeeps(n: Table, k: int, name: string)
    requires Tree(n) && 0 < k < 256 && Live(n, k) && ValidName(name) && forall i :: !Child(n, i, n[k].parent, name)
    ensures Tree(n[k := n[k].(name := name)])
  {
    var m := n[k := n[k].(name := name)];
    var rank :| Ranked(n, rank);
    forall i | 0 < i < |m| && Live(m, i)
      ensures Placed(m, i) && Below(m, rank, i)
    {
      assert Live(n, i) && Placed(n, i) && Below(n, rank, i);
    }
    assert Ranked(m, rank);
    forall i, j, dir, x | Child(m, i, dir, x) && Child(m, j, dir, x)
      ensures i == j
    {
      assert i != k ==> Child(n, i, dir, x);
      assert j != k ==> Child(n, j, dir, x);
    }
  }

  /** The table without the nodes of s. */
  ghost function Without(n: Table, s: set<int>): Table {
    seq(|n|, i requires 0 <= i < |n| => if i in s then EMPTY else n[i])
  }

  lemma RemoveKeeps(n: Table, s: set<int>)
    requires Tree(n) && 0 !in s && forall j :: Live(n, j) && j != 0 && n[j].parent in s ==> j in s
    ensures Tree(Without(n, s))
  {
    var m := Without(n, s);
    var rank :| Ranked(n, rank);
    forall i | 0 < i < |m| && Live(m, i)
      ensures Placed(m, i) && Below(m, rank, i)
    {
      assert Live(n, i) && Placed(n, i) && Below(n, rank, i);
    }
    assert Ranked(m, rank);
    forall i, j, dir, name | Child(m, i, dir, name) && Child(m, j, dir, name)
      ensures i == j
    {
      assert Child(n, i, dir, name) && Child(n, j, dir, name);
    }
  }

  lemma NewTree()
    ensures Tree([ROOT] + seq(255, _ => EMPTY))
  {
    var n := [ROOT] + seq(255, _ => EMPTY);
    assert Ranked(n, seq(256, _ => 0));
  }
}
