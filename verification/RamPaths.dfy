/** Paths in the RAM filesystem: how they are printed, how they are read, and that the two undo each other. */
module RamPaths {
  import opened RamTree

  datatype Result =
    | Ok | NotFound | AlreadyExists | NotADirectory | IsADirectory | NoSpace | DirNotEmpty | InvalidName | TooBig

  datatype Reading = Content(text: string) | Failed(why: Result)

  // ---- looking a name up in a directory ----

  function LookupFrom(n: Table, dir: int, name: string, i: nat): (k: int)
    requires i <= |n|
    ensures k == -1 ==> forall j :: j >= i ==> !Child(n, j, dir, name)
    ensures k != -1 ==> i <= k < |n| && Child(n, k, dir, name)
    decreases |n| - i
  {
    if i == |n| then -1
    else if Child(n, i, dir, name) then i
    else LookupFrom(n, dir, name, i + 1)
  }

  function Lookup(n: Table, dir: int, name: string): (k: int)
    ensures k == -1 <==> forall j :: !Child(n, j, dir, name)
    ensures k != -1 ==> 0 <= k < |n| && Child(n, k, dir, name)
  {
    LookupFrom(n, dir, name, 0)
  }

  function ReadIn(n: Table, dir: int, name: string): Reading {
    var k := Lookup(n, dir, name);
    if k == -1 then Failed(NotFound)
    else if !n[k].kind.File? then Failed(IsADirectory)
    else Content(n[k].content)
  }

  // ---- components ----

  function Component(p: string): (c: string)
    ensures |c| <= |p| && '/' !in c
  {
    if p == "" || p[0] == '/' then "" else [p[0]] + Component(p[1..])
  }

  /** What follows the first component and one slash after it. */
  function After(p: string): (r: string)
    ensures |r| <= |p| && (p != "" ==> |r| < |p|)
  {
    if p == "" then "" else if p[0] == '/' then p[1..] else After(p[1..])
  }

  lemma {:induction false} ComponentOf(c: string, rest: string)
    requires '/' !in c
    ensures Component(c + "/" + rest) == c && After(c + "/" + rest) == rest
  {
    var p := c + "/" + rest;
    if c == "" {
      assert p == ['/'] + rest;
    } else {
      ComponentOf(c[1..], rest);
      assert p[1..] == c[1..] + "/" + rest;
    }
  }

  lemma {:induction false} LastComponent(c: string)
    requires '/' !in c
    ensures Component(c) == c && After(c) == ""
  {
    if c != "" {
      LastComponent(c[1..]);
      assert c == [c[0]] + c[1..];
    }
  }

  // ---- reading a path ----

  function Up(n: Table, dir: int): int
    requires 0 <= dir < |n|
  {
    if n[dir].parent != -1 then n[dir].parent else dir
  }

  /** fs_read_path from directory dir on. */
  function ReadFrom(n: Table, dir: int, p: string): Reading
    requires Tree(n) && IsDir(n, dir)
    decreases |p|
  {
    var c, rest := Component(p), After(p);
    if p == "" then Failed(NotFound)
    else if |c| >= 48 then Failed(InvalidName)
    else if c == "" || c == "." then ReadFrom(n, dir, rest)
    else if c == ".." then
      UpIsDir(n, dir);
      ReadFrom(n, Up(n, dir), rest)
    else
      var k := Lookup(n, dir, c);
      if k == -1 then Failed(NotFound)
      else if rest == "" then (if n[k].kind.File? then Content(n[k].content) else Failed(IsADirectory))
      else if !n[k].kind.Dir? then Failed(NotADirectory)
      else ReadFrom(n, k, rest)
  }

  function ReadPath(n: Table, cwd: int, path: string): Reading
    requires Tree(n) && IsDir(n, cwd)
  {
    if path == "" then Failed(NotFound)
    else if path[0] == '/' then ReadFrom(n, 0, path[1..])
    else ReadFrom(n, cwd, path)
  }

  lemma UpIsDir(n: Table, dir: int)
    requires Tree(n) && IsDir(n, dir)
    ensures IsDir(n, Up(n, dir))
  {
    if dir != 0 {
      assert Live(n, dir) && Placed(n, dir);
    }
  }

  /** A path from the root is read from the root, any other from the current directory. */
  lemma RelativePath(n: Table, cwd: int, p: string)
    requires Tree(n) && IsDir(n, cwd)
    ensures ReadPath(n, cwd, "/" + p) == ReadPath(n, 0, "/" + p) == ReadFrom(n, 0, p)
    ensures p != "" && p[0] != '/' ==> ReadPath(n, cwd, p) == ReadFrom(n, cwd, p)
  {
    assert ("/" + p)[1..] == p;
  }

  lemma ReadDots(n: Table, dir: int, path: string, p: string)
    requires Tree(n) && IsDir(n, dir) && path != "" && After(path) == p
    ensures Component(path) == ".." ==>
              (dir == 0 || IsDir(n, n[dir].parent))
              && ReadFrom(n, dir, path) == ReadFrom(n, if dir == 0 then 0 else n[dir].parent, p)
    ensures Component(path) == "." || Component(path) == "" ==> ReadFrom(n, dir, path) == ReadFrom(n, dir, p)
  {
    assert dir != 0 ==> Placed(n, dir);
    UpIsDir(n, dir);
  }

  /** Two dots lead to the directory above, and at the root stay there. */
  lemma DotsLead(n: Table, dir: int, p: string)
    requires Tree(n) && IsDir(n, dir)
    ensures dir != 0 ==> IsDir(n, n[dir].parent) && ReadFrom(n, dir, ".." + "/" + p) == ReadFrom(n, n[dir].parent, p)
    ensures dir == 0 ==> ReadFrom(n, dir, ".." + "/" + p) == ReadFrom(n, 0, p)
  {
    ComponentOf("..", p);
    ReadDots(n, dir, ".." + "/" + p, p);
  }

  /** One dot, and no name at all, lead nowhere. */
  lemma DotStays(n: Table, dir: int, c: string, p: string)
    requires Tree(n) && IsDir(n, dir) && (c == "." || c == "")
    ensures ReadFrom(n, dir, c + "/" + p) == ReadFrom(n, dir, p)
  {
    ComponentOf(c, p);
    ReadDots(n, dir, c + "/" + p, p);
  }

  /** A name leads to the directory of that name, and on from there; to nothing else does it lead. */
  lemma NameLeads(n: Table, dir: int, k: int, c: string, p: string)
    requires Tree(n) && IsDir(n, dir) && '/' !in c && c != "" && c != "." && c != ".." && |c| < 48 && p != ""
    ensures Child(n, k, dir, c) && IsDir(n, k) ==> ReadFrom(n, dir, c + "/" + p) == ReadFrom(n, k, p)
    ensures Child(n, k, dir, c) && !IsDir(n, k) ==> ReadFrom(n, dir, c + "/" + p) == Failed(NotADirectory)
    ensures (forall j :: !Child(n, j, dir, c)) ==> ReadFrom(n, dir, c + "/" + p) == Failed(NotFound)
  {
    ComponentOf(c, p);
    assert c + "/" + p != "";
    if Child(n, k, dir, c) {
      assert Child(n, Lookup(n, dir, c), dir, c);
    }
  }

  // ---- printing a path ----

  /** The names on the walk from the root down to p[0], with slashes between them; p itself leads upwards. */
  ghost function Trail(n: Table, p: seq<int>): string
    requires forall k :: 0 <= k < |p| ==> 0 <= p[k] < |n|
  {
    if |p| <= 1 then ""
    else if |p| == 2 then n[p[0]].name
    else Trail(n, p[1..]) + "/" + n[p[0]].name
  }

  /** What fs_pwd prints for the directory whose walk is p. */
  ghost function PwdText(n: Table, p: seq<int>): string
    requires forall k :: 0 <= k < |p| ==> 0 <= p[k] < |n|
  {
    "/" + Trail(n, p)
  }

  ghost predicate Slashless(n: Table) {
    forall i :: Live(n, i) && i != 0 ==> '/' !in n[i].name
  }

  lemma {:induction false} UpInRange(n: Table, i: int, p: seq<int>)
    requires IsUp(n, i, p)
    ensures forall k :: 0 <= k < |p| ==> Live(n, p[k])
    decreases |p|
  {
    if i != 0 {
      UpInRange(n, n[i].parent, p[1..]);
      assert p == [p[0]] + p[1..];
    }
  }

  lemma OneUp(n: Table, i: int, p: seq<int>)
    requires IsUp(n, i, p) && |p| == 1
    ensures i == 0
  {
  }

  lemma Joints(a: string, b: string, c: string)
    ensures (a + "/" + b) + "/" + c == a + "/" + (b + "/" + c)
  {
  }

  /** Reading from the root along a printed path arrives in its directory. */
  lemma {:induction false} Descend(n: Table, dir: int, p: seq<int>, rest: string)
    requires Tree(n) && Slashless(n) && IsUp(n, dir, p) && IsDir(n, dir) && |p| > 1 && rest != ""
    requires forall k :: 0 <= k < |p| ==> 0 <= p[k] < |n|
    ensures ReadFrom(n, 0, Trail(n, p) + "/" + rest) == ReadFrom(n, dir, rest)
    decreases |p|
  {
    var up, name, q := n[dir].parent, n[dir].name, p[1..];
    assert Live(n, dir) && Placed(n, dir);
    EnterChild(n, up, dir, rest);
    if |p| == 2 {
      OneUp(n, up, q);
    } else {
      Descend(n, up, q, name + "/" + rest);
      Joints(Trail(n, q), name, rest);
    }
  }

  lemma EnterChild(n: Table, up: int, dir: int, rest: string)
    requires Tree(n) && Slashless(n) && IsDir(n, up) && IsDir(n, dir) && dir != 0 && n[dir].parent == up && rest != ""
    ensures ReadFrom(n, up, n[dir].name + "/" + rest) == ReadFrom(n, dir, rest)
  {
    var name := n[dir].name;
    assert Live(n, dir) && Placed(n, dir) && Child(n, dir, up, name);
    ComponentOf(name, rest);
    var k := Lookup(n, up, name);
    assert Child(n, k, up, name);
    assert name + "/" + rest != "";
  }

  lemma NoSuchName(n: Table, dir: int, f: string)
    requires Tree(n) && IsDir(n, dir) && !ValidName(f)
    ensures Lookup(n, dir, f) == -1
  {
    forall k
      ensures !Child(n, k, dir, f)
    {
      assert k != 0 && Live(n, k) ==> Placed(n, k);
    }
  }

  /** At the last component, reading a path is reading a name, except for names too long for any file. */
  lemma ReadLast(n: Table, dir: int, f: string)
    requires Tree(n) && IsDir(n, dir) && '/' !in f && f != ""
    ensures ReadFrom(n, dir, f) == if |f| < 48 then ReadIn(n, dir, f) else Failed(InvalidName)
    ensures ReadIn(n, dir, f) != Failed(InvalidName)
  {
    LastComponent(f);
    if f == "." || f == ".." {
      NoSuchName(n, dir, f);
      UpIsDir(n, dir);
    }
  }

  /**
    Printing the current directory and reading f below what was printed is reading f here, for every
    f without a slash except the empty one (away from the root) and those too long for any file.
   */
  lemma PrintedPath(n: Table, cwd: int, p: seq<int>, f: string)
    requires Tree(n) && Slashless(n) && IsDir(n, cwd) && IsUp(n, cwd, p) && '/' !in f
    requires forall k :: 0 <= k < |p| ==> 0 <= p[k] < |n|
    ensures ReadPath(n, cwd, PwdText(n, p) + "/" + f) == ReadIn(n, cwd, f) <==> |f| < 48 && (f != "" || cwd == 0)
  {
    SlashFirst(Trail(n, p), f);
    RelativePath(n, cwd, Trail(n, p) + "/" + f);
    if cwd == 0 {
      AtRoot(n, f);
    } else if f == "" {
      EmptyName(n, cwd, p, f);
    } else {
      Descend(n, cwd, p, f);
      ReadLast(n, cwd, f);
    }
  }

  lemma SlashFirst(a: string, f: string)
    ensures "/" + a + "/" + f == "/" + (a + "/" + f)
  {
  }

  lemma AtRoot(n: Table, f: string)
    requires Tree(n) && '/' !in f
    ensures ReadFrom(n, 0, "" + "/" + f) == ReadIn(n, 0, f) <==> |f| < 48
  {
    ComponentOf("", f);
    if f == "" {
      NoSuchName(n, 0, f);
    } else {
      ReadLast(n, 0, f);
    }
  }

  /** A path that ends in a slash names the directory itself. */
  lemma EmptyName(n: Table, cwd: int, p: seq<int>, f: string)
    requires f == "" && Tree(n) && Slashless(n) && IsDir(n, cwd) && IsUp(n, cwd, p) && |p| > 1
    requires forall k :: 0 <= k < |p| ==> 0 <= p[k] < |n|
    ensures ReadFrom(n, 0, Trail(n, p) + "/" + f) == Failed(IsADirectory)
    ensures ReadIn(n, cwd, f) == Failed(NotFound)
  {
    NoSuchName(n, cwd, f);
    var up, name, q := n[cwd].parent, n[cwd].name, p[1..];
    assert Live(n, cwd) && Placed(n, cwd);
    EndsHere(n, up, cwd, f);
    if |p| == 2 {
      OneUp(n, up, q);
    } else {
      Descend(n, up, q, name + "/" + f);
      Joints(Trail(n, q), name, f);
    }
  }

  lemma EndsHere(n: Table, up: int, dir: int, f: string)
    requires f == "" && Tree(n) && Slashless(n) && IsDir(n, up) && IsDir(n, dir) && dir != 0 && n[dir].parent == up
    ensures ReadFrom(n, up, n[dir].name + "/" + f) == Failed(IsADirectory)
  {
    var name := n[dir].name;
    assert Live(n, dir) && Placed(n, dir) && Child(n, dir, up, name);
    ComponentOf(name, f);
    var k := Lookup(n, up, name);
    assert Child(n, k, up, name);
  }

  // ---- directories along a path ----

  /** The components of p that are not empty. */
  function Components(p: string): seq<string>
    decreases |p|
  {
    if p == "" then []
    else if Component(p) == "" then Components(After(p))
    else [Component(p)] + Components(After(p))
  }

  /** Where the names cs lead from dir through directories, or -1. */
  function DirAt(n: Table, dir: int, cs: seq<string>): (d: int)
    requires IsDir(n, dir)
    ensures d == -1 || IsDir(n, d)
    decreases |cs|
  {
    if cs == [] then dir
    else
      var k := Lookup(n, dir, cs[0]);
      if k == -1 || !IsDir(n, k) then -1 else DirAt(n, k, cs[1..])
  }

  lemma {:induction false} DirAtSteps(n: Table, dir: int, a: seq<string>, b: seq<string>)
    requires IsDir(n, dir)
    ensures DirAt(n, dir, a + b) == var d := DirAt(n, dir, a); if d == -1 then -1 else DirAt(n, d, b)
    decreases |a|
  {
    if a == [] {
      assert a + b == b;
    } else {
      assert (a + b)[1..] == a[1..] + b;
      var k := Lookup(n, dir, a[0]);
      if k != -1 && IsDir(n, k) {
        DirAtSteps(n, k, a[1..], b);
      }
    }
  }

  /** m has every node of n, unchanged. */
  ghost predicate Grown(n: Table, m: Table) {
    |m| == |n| && forall i :: Live(n, i) ==> m[i] == n[i]
  }

  /** What was found before is still found after nodes have been added. */
  lemma {:induction false} DirAtGrown(n: Table, m: Table, dir: int, cs: seq<string>)
    requires Tree(m) && Grown(n, m) && IsDir(n, dir) && DirAt(n, dir, cs) != -1
    ensures IsDir(m, dir) && DirAt(m, dir, cs) == DirAt(n, dir, cs)
    decreases |cs|
  {
    if cs != [] {
      var k := Lookup(n, dir, cs[0]);
      assert Child(m, k, dir, cs[0]);
      var k' := Lookup(m, dir, cs[0]);
      assert Child(m, k', dir, cs[0]);
      DirAtGrown(n, m, k, cs[1..]);
    }
  }

  lemma GrownBy(n: Table, k: int, node: Node)
    requires 0 <= k < |n| && n[k].kind.Free?
    ensures Grown(n, n[k := node])
  {
  }

  /** The components are all shorter than a name may be. */
  predicate ShortComponents(p: string)
    decreases |p|
  {
    p == "" || (|Component(p)| < 48 && ShortComponents(After(p)))
  }

  function Cut(s: string, room: nat): string {
    if |s| <= room then s else s[..room]
  }
}
