/** The mount table: which mount owns a path, and what is left of the path below it. */
module MountTable {
  import RamTree
  import opened RamPaths
  import opened RamFs

  datatype Fs = NONE | RAM | FAT32
  datatype Mount = Mount(used: bool, path: string, fs: Fs)
  type Table = seq<Mount>

  // There are 4 mounts, and a stored path has at most 15 characters.

  /** The root is always there, and every mounted path is absolute. */
  ghost predicate Rooted(t: Table) {
    && |t| == 4 && t[0] == Mount(true, "/", RAM)
    && forall i :: 0 <= i < 4 && t[i].used ==> t[i].path != "" && t[i].path[0] == '/'
  }

  /** No path is mounted twice. */
  ghost predicate Distinct(t: Table) {
    forall i, j :: 0 <= i < j < |t| && t[i].used && t[j].used ==> t[i].path != t[j].path
  }

  // ---- which mount owns a path ----

  predicate Begins(m: string, path: string) {
    |m| <= |path| && path[..|m|] == m
  }

  /** vfs_resolve's test: m is a prefix of the path that ends where a component does. */
  predicate Matches(m: string, path: string) {
    Begins(m, path) && (|m| == |path| || path[|m|] == '/' || m == "/")
  }

  /** The components of a path, without the slash it starts with. */
  function Parts(p: string): (ps: seq<string>)
    ensures ps != []
    decreases |p|
  {
    if '/' !in p then [p] else [Component(p)] + Parts(After(p))
  }

  lemma {:induction false} SplitAtSlash(p: string)
    requires '/' in p
    ensures p == Component(p) + "/" + After(p)
  {
    if p[0] == '/' {
      assert p == ['/'] + p[1..];
    } else {
      SplitAtSlash(p[1..]);
      assert p == [p[0]] + p[1..];
    }
  }

  /** m and then either the end or a slash. */
  predicate Heads(m: string, p: string) {
    Begins(m, p) && (|m| == |p| || p[|m|] == '/')
  }

  lemma HeadsFirst(m: string, p: string)
    requires '/' !in m
    ensures Heads(m, p) <==> m == Parts(p)[0]
  {
    if '/' in p {
      SplitAtSlash(p);
      var c := Component(p);
      assert p[..|c|] == c && p[|c|] == '/';
    }
  }

  /** The test for the boundary makes the match one of whole components. */
  lemma {:induction false} ComponentWise(m: string, p: string)
    ensures Heads(m, p) <==> Parts(m) <= Parts(p)
    decreases |m|
  {
    if '/' !in m {
      HeadsFirst(m, p);
      assert Parts(m) == [m];
      assert Parts(m) <= Parts(p) <==> Parts(p)[0] == m;
    } else {
      var c, rest := Component(m), After(m);
      SplitAtSlash(m);
      HeadsStep(c, rest, p);
      if '/' in p {
        ComponentWise(rest, After(p));
        PrefixStep(c, Parts(rest), Component(p), Parts(After(p)));
      }
    }
  }

  lemma PrefixStep(c: string, cs: seq<string>, d: string, ds: seq<string>)
    ensures [c] + cs <= [d] + ds <==> c == d && cs <= ds
  {
    assert ([c] + cs)[1..] == cs && ([d] + ds)[1..] == ds;
    if [c] + cs <= [d] + ds {
      assert ([c] + cs)[0] == c && ([d] + ds)[0] == d;
      assert forall i :: 0 <= i < |cs| ==> cs[i] == ([c] + cs)[i + 1] == ([d] + ds)[i + 1] == ds[i];
    }
  }

  lemma HeadsStep(c: string, rest: string, p: string)
    requires '/' !in c
    ensures Heads(c + "/" + rest, p) <==> '/' in p && Component(p) == c && Heads(rest, After(p))
  {
    var m := c + "/" + rest;
    if '/' in p {
      SplitAtSlash(p);
      var d, q := Component(p), After(p);
      assert p == d + "/" + q;
      if c == d {
        SameHead(c, rest, q);
      } else {
        OtherHead(c, rest, d, q);
      }
    } else {
      assert m[|c|] == '/';
    }
  }

  lemma OtherHead(c: string, rest: string, d: string, q: string)
    requires c != d && '/' !in c && '/' !in d
    ensures !Begins(c + "/" + rest, d + "/" + q)
  {
    var m, p := c + "/" + rest, d + "/" + q;
    assert m[|c|] == '/' && p[|d|] == '/' && m[..|c|] == c && p[..|d|] == d;
    assert |c| < |d| ==> p[|c|] == d[|c|];
    assert |d| < |c| ==> m[|d|] == c[|d|];
    assert |c| == |d| ==> exists i :: 0 <= i < |c| && c[i] != d[i];
  }

  lemma SameHead(c: string, rest: string, q: string)
    ensures Heads(c + "/" + rest, c + "/" + q) <==> Heads(rest, q)
  {
    var m, p, k := c + "/" + rest, c + "/" + q, |c| + 1;
    if |rest| <= |q| {
      assert p[..|m|] == c + "/" + q[..|rest|];
      assert m[k..] == rest && (c + "/" + q[..|rest|])[k..] == q[..|rest|];
    }
  }

  /** A mount other than the root owns exactly the paths that have its components in front. */
  lemma MatchIsComponentPrefix(m: string, path: string)
    requires m != "" && m[0] == '/' && m != "/" && path != "" && path[0] == '/'
    ensures Matches(m, path) <==> Parts(m[1..]) <= Parts(path[1..])
  {
    assert m == "/" + m[1..] && path == "/" + path[1..];
    SlashHead(m[1..], path[1..]);
    ComponentWise(m[1..], path[1..]);
  }

  lemma SlashHead(m: string, p: string)
    ensures Heads("/" + m, "/" + p) <==> Heads(m, p)
  {
    SameHead("", m, p);
    assert "" + "/" + m == "/" + m && "" + "/" + p == "/" + p;
  }

  // ---- the longest match ----

  predicate Owns(t: Table, i: int, path: string) {
    0 <= i < |t| && t[i].used && Matches(t[i].path, path)
  }

  /** b is the mount with the longest match, or -1 if none matches. */
  ghost predicate IsBest(t: Table, path: string, b: int) {
    if b == -1 then forall i :: !Owns(t, i, path)
    else Owns(t, b, path) && forall i :: Owns(t, i, path) ==> |t[i].path| <= |t[b].path|
  }

  lemma BestUnique(t: Table, path: string, a: int, b: int)
    requires Distinct(t) && IsBest(t, path, a) && IsBest(t, path, b)
    ensures a == b
  {
    if a != -1 && b != -1 {
      assert t[a].path == path[..|t[a].path|] == t[b].path;
    }
  }

  /** Every absolute path has an owner, and no other path has one. */
  lemma Owned(t: Table, path: string, b: int)
    requires Rooted(t) && IsBest(t, path, b)
    ensures b != -1 <==> path != "" && path[0] == '/'
  {
    if path != "" && path[0] == '/' {
      assert path[..1] == "/";
      assert Owns(t, 0, path);
    }
  }

  /** What is left of the path below its owner: one slash is dropped. */
  function Below(m: string, path: string): string
    requires Begins(m, path)
  {
    if |m| < |path| && path[|m|] == '/' then path[|m| + 1..] else path[|m|..]
  }

  /** Owner, the slash between them if there is one, and the rest make up the path again. */
  lemma Rebuilt(m: string, path: string)
    requires Begins(m, path)
    ensures path == m ==> Below(m, path) == ""
    ensures path != m && path[|m|] == '/' ==> path == m + "/" + Below(m, path)
    ensures path != m && path[|m|] != '/' ==> path == m + Below(m, path)
  {
    assert path == path[..|m|] + path[|m|..];
    if |m| < |path| && path[|m|] == '/' {
      assert path[|m|..] == "/" + path[|m| + 1..];
    }
  }

  function FindFrom(t: Table, path: string, i: nat): (k: int)
    requires i <= |t|
    ensures k == -1 ==> forall j :: i <= j < |t| ==> !(t[j].used && t[j].path == path)
    ensures k != -1 ==> i <= k < |t| && t[k].used && t[k].path == path
    ensures k != -1 ==> forall j :: i <= j < k ==> !(t[j].used && t[j].path == path)
    decreases |t| - i
  {
    if i == |t| then -1 else if t[i].used && t[i].path == path then i else FindFrom(t, path, i + 1)
  }

  function UnusedFrom(t: Table, i: nat): (k: int)
    requires i <= |t|
    ensures k == -1 ==> forall j :: i <= j < |t| ==> t[j].used
    ensures k != -1 ==> i <= k < |t| && !t[k].used && forall j :: i <= j < k ==> t[j].used
    decreases |t| - i
  {
    if i == |t| then -1 else if !t[i].used then i else UnusedFrom(t, i + 1)
  }

  /** What vfs_mount answers; `disk` tells whether a FAT volume is, or can be, mounted. */
  function MountCode(t: Table, path: string, fs: Fs, disk: bool): Result {
    if path == "" || path[0] != '/' || fs == NONE then InvalidName
    else if path == "/" || FindFrom(t, path, 0) != -1 then AlreadyExists
    else if fs == FAT32 && !disk then NotFound
    else if UnusedFrom(t, 0) == -1 then NoSpace
    else Ok
  }

  /**
    What a mount point's directories add to the RAM file system: nothing but directories named in the path, and
    the whole path if there is room for what is missing and no file in the way.
   */
  ghost predicate Marked(n: RamTree.Table, n': RamTree.Table, cs: seq<string>)
  {
    && Grown(n, n')
    && (forall i :: RamTree.Live(n', i) && !RamTree.Live(n, i) ==> n'[i].kind.Dir? && n'[i].name in cs)
    && (MakeAllCode(n, 0, cs) == Ok ==> RamTree.IsDir(n', 0) && DirAt(n', 0, cs) != -1)
  }

  lemma {:induction false} ShortPath(p: string)
    requires |p| < 48
    ensures ShortComponents(p)
    decreases |p|
  {
    if p != "" {
      ShortPath(After(p));
    }
  }

  class Mounts {
    const mounts: array<Mount>

    ghost predicate Valid()
      reads this, mounts
    {
      mounts.Length == 4 && Rooted(mounts[..])
    }

    ghost function Now(): Table
      reads this, mounts
    {
      mounts[..]
    }

    constructor ()
      ensures Valid() && fresh(mounts) && Distinct(Now()) && forall i :: 1 <= i < 4 ==> !mounts[i].used
    {
      mounts := new Mount[4](i => if i == 0 then Mount(true, "/", RAM) else Mount(false, "", NONE));
    }

    method FindMount(path: string) returns (k: int)
      requires mounts.Length == 4
      ensures k == FindFrom(Now(), path, 0)
    {
      k := 0;
      while k < 4
        invariant 0 <= k <= 4 && FindFrom(Now(), path, 0) == FindFrom(Now(), path, k)
      {
        if mounts[k].used && mounts[k].path == path {
          return;
        }
        k := k + 1;
      }
      return -1;
    }

    /**
      vfs_mount. The stored path is cut to 15 characters; only a longer one can end up mounted twice. For a FAT
      mount the RAM file system gets the directories of the path that are missing, as far as it has room.
     */
    method MountAt(ram: FileSystem, path: string, fs: Fs, disk: bool) returns (r: Result)
      requires Valid() && ram.Valid()
      requires MountCode(Now(), path, fs, disk) == Ok && fs == FAT32 ==> ShortComponents(path)
      modifies mounts, ram`cwd, ram.nodes
      ensures Valid() && r == MountCode(old(Now()), path, fs, disk)
      ensures r == InvalidName <==> path == "" || path[0] != '/' || fs == NONE
      ensures r == AlreadyExists <==> fs != NONE && path != "" && path[0] == '/' && FindFrom(old(Now()), path, 0) != -1
      ensures r == NotFound ==> fs == FAT32 && !disk
      ensures r == NoSpace ==> (fs == FAT32 ==> disk) && forall i :: 0 <= i < 4 ==> old(Now())[i].used
      ensures r == Ok ==> (fs == FAT32 ==> disk) && exists i :: 0 <= i < 4 && !old(Now())[i].used
      ensures r != Ok ==> Now() == old(Now())
      ensures r == Ok ==> var k := UnusedFrom(old(Now()), 0);
                Now() == old(Now())[k := Mount(true, if |path| <= 15 then path else path[..15], fs)]
      ensures Distinct(old(Now())) ==> (Distinct(Now()) <==> r != Ok || FindFrom(old(Now()), Cut(path, 15), 0) == -1)
      ensures Distinct(old(Now())) && |path| <= 15 ==> Distinct(Now())
      ensures ram.Valid() && ram.cwd == old(ram.cwd)
      ensures r != Ok || fs != FAT32 ==> ram.Now() == old(ram.Now())
      ensures r == Ok && fs == FAT32 ==> Marked(old(ram.Now()), ram.Now(), Components(path[1..]))
    {
      if path == "" || path[0] != '/' || fs == NONE {
        return InvalidName;
      }
      if path == "/" {
        return AlreadyExists;
      }
      var k := FindMount(path);
      if k >= 0 {
        return AlreadyExists;
      }
      if fs == FAT32 && !disk {
        return NotFound;
      }
      var slot := 0;
      while slot < 4 && mounts[slot].used
        invariant 0 <= slot <= 4 && UnusedFrom(Now(), 0) == UnusedFrom(Now(), slot)
      {
        slot := slot + 1;
      }
      if slot == 4 {
        return NoSpace;
      }
      if Distinct(Now()) {
        MountDistinct(Now(), slot, Cut(path, 15), fs);
      }
      mounts[slot] := Mount(true, Cut(path, 15), fs);
      if fs == FAT32 {
        var _ := ram.MkdirP(path);
      }
      return Ok;
    }

    method Umount(path: string) returns (r: Result)
      requires Valid()
      modifies mounts
      ensures Valid() && (Distinct(old(Now())) ==> Distinct(Now()))
      ensures r == if path == "/" then InvalidName else if FindFrom(old(Now()), path, 0) == -1 then NotFound else Ok
      ensures Now() == if r == Ok then old(Now())[FindFrom(old(Now()), path, 0) := Mount(false, "", NONE)]
                       else old(Now())
    {
      if path == "/" {
        return InvalidName;
      }
      var k := FindMount(path);
      if k < 0 {
        return NotFound;
      }
      mounts[k] := Mount(false, "", NONE);
      return Ok;
    }

    /** vfs_resolve: the file system of the owner and the path below it, cut to `max - 1` characters. */
    method Resolve(path: string, max: nat) returns (fs: Fs, rest: string, ghost b: int)
      requires Valid() && max > 0
      ensures IsBest(Now(), path, b) && -1 <= b < 4
      ensures b == -1 ==> forall i :: 0 <= i < 4 && mounts[i].used ==> !Matches(mounts[i].path, path)
      ensures b != -1 ==> mounts[b].used && Matches(mounts[b].path, path)
      ensures forall i :: b != -1 && 0 <= i < 4 && mounts[i].used && Matches(mounts[i].path, path) ==>
                |mounts[i].path| <= |mounts[b].path|
      ensures if b == -1 then fs == RAM && rest == Cut(path, max - 1)
              else fs == mounts[b].fs && rest == Cut(Below(mounts[b].path, path), max - 1)
    {
      if path == "" {
        return RAM, "", -1;
      }
      var best, bestLen := -1, -1;
      var i := 0;
      while i < 4
        invariant 0 <= i <= 4 && -1 <= best < i
        invariant best == -1 ==> bestLen == -1
        invariant best != -1 ==> Owns(Now(), best, path) && bestLen == |mounts[best].path|
        invariant forall j :: 0 <= j < i && Owns(Now(), j, path) ==> best != -1 && |Now()[j].path| <= bestLen
      {
        if mounts[i].used && Matches(mounts[i].path, path) && |mounts[i].path| > bestLen {
          best, bestLen := i, |mounts[i].path|;
        }
        i := i + 1;
      }
      b := best;
      if best == -1 {
        return RAM, Cut(path, max - 1), b;
      }
      return mounts[best].fs, Cut(Below(mounts[best].path, path), max - 1), b;
    }

    /** A mount and its umount leave the owner of every path as it was, for paths that are stored whole. */
    method MountThenUmount(ram: FileSystem, path: string, fs: Fs, disk: bool) returns (made: Result, gone: Result)
      requires Valid() && ram.Valid() && |path| <= 15
      modifies mounts, ram`cwd, ram.nodes
      ensures Valid() && (made == Ok ==> gone == Ok)
      ensures made == Ok ==> forall p, b :: IsBest(Now(), p, b) <==> IsBest(old(Now()), p, b)
      ensures made == Ok ==> forall i :: 0 <= i < 4 && old(Now())[i].used ==> Now()[i] == old(Now())[i]
    {
      ghost var t := Now();
      ShortPath(path);
      made := MountAt(ram, path, fs, disk);
      gone := made;
      if made == Ok {
        ghost var k := UnusedFrom(t, 0);
        assert Cut(path, 15) == path;
        assert Now()[k].used && Now()[k].path == path;
        gone := Umount(path);
        assert Now() == t[k := Mount(false, "", NONE)];
        forall p, b
          ensures IsBest(Now(), p, b) <==> IsBest(t, p, b)
        {
          assert forall i :: Owns(Now(), i, p) <==> Owns(t, i, p);
        }
      }
    }
  }

  lemma MountDistinct(t: Table, k: int, path: string, fs: Fs)
    requires Distinct(t) && |t| == 4 && 0 <= k < 4 && !t[k].used
    ensures Distinct(t[k := Mount(true, path, fs)]) <==> FindFrom(t, path, 0) == -1
  {
    var m := t[k := Mount(true, path, fs)];
    var j := FindFrom(t, path, 0);
    if j != -1 {
      assert m[j].used && m[k].used && m[j].path == m[k].path && j != k;
    }
  }

  /** A path of more than 15 characters is stored cut, so umount does not find it under its own name. */
  lemma LongMount(t: Table, path: string, fs: Fs, disk: bool)
    requires Rooted(t) && |path| > 15 && MountCode(t, path, fs, disk) == Ok
    ensures FindFrom(t[UnusedFrom(t, 0) := Mount(true, Cut(path, 15), fs)], path, 0) == -1
  {
    var m := t[UnusedFrom(t, 0) := Mount(true, Cut(path, 15), fs)];
    assert |Cut(path, 15)| == 15;
  }
}
