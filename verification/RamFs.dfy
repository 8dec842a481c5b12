/** The RAM filesystem: a fixed table of nodes and a current directory, changed in place. */
module RamFs {
  import opened RamTree
  import opened RamPaths

  function FirstFreeFrom(n: Table, i: nat): (k: int)
    requires i <= |n|
    ensures k == -1 ==> forall j :: i <= j < |n| ==> !n[j].kind.Free?
    ensures k != -1 ==> i <= k < |n| && n[k].kind.Free? && forall j :: i <= j < k ==> !n[j].kind.Free?
    decreases |n| - i
  {
    if i == |n| then -1 else if n[i].kind.Free? then i else FirstFreeFrom(n, i + 1)
  }

  /** The slot a new node goes to, or -1. */
  function FirstFree(n: Table): (k: int)
    ensures k == -1 ==> forall j :: 0 <= j < |n| ==> !n[j].kind.Free?
    ensures k != -1 ==> 0 <= k < |n| && n[k].kind.Free? && forall j :: 0 <= j < k ==> !n[j].kind.Free?
  {
    FirstFreeFrom(n, 0)
  }

  /** What creating `name` in directory cwd answers. */
  function MakeCode(n: Table, cwd: int, name: string): Result {
    if !ValidName(name) then InvalidName
    else if Lookup(n, cwd, name) != -1 then AlreadyExists
    else if FirstFree(n) == -1 then NoSpace
    else Ok
  }

  /** The nodes below r, with r itself. */
  ghost function Subtree(n: Table, r: int): set<int> {
    set i | 0 <= i < |n| && Live(n, i) && Inside(n, i, r)
  }

  lemma SubtreeClosed(n: Table, r: int)
    requires Tree(n)
    ensures forall j :: Live(n, j) && j != 0 && n[j].parent in Subtree(n, r) ==> j in Subtree(n, r)
  {
    forall j | Live(n, j) && j != 0 && n[j].parent in Subtree(n, r)
      ensures j in Subtree(n, r)
    {
      InsideChild(n, j, r);
    }
  }

  lemma RootOutside(n: Table, r: int)
    requires r != 0
    ensures !Inside(n, 0, r)
  {
  }

  /** A node without children is a subtree by itself. */
  lemma LeafSubtree(n: Table, r: int)
    requires Tree(n) && Live(n, r) && forall i :: Live(n, i) ==> n[i].parent != r
    ensures Subtree(n, r) == {r}
  {
    InsideSelf(n, r);
    forall i | i in Subtree(n, r)
      ensures i == r
    {
      var p :| IsUp(n, i, p) && r in p;
      LeafIsLast(n, r, i, p);
    }
  }

  lemma {:induction false} LeafIsLast(n: Table, r: int, i: int, p: seq<int>)
    requires IsUp(n, i, p) && r in p && forall j :: Live(n, j) ==> n[j].parent != r
    ensures i == r
    decreases |p|
  {
    if i != r {
      assert p == [p[0]] + p[1..];
      LeafIsLast(n, r, n[i].parent, p[1..]);
    }
  }

  /** fs_append's new contents: a newline between old and new text, and what fits below 8192 bytes. */
  function Appended(content: string, text: string): (r: string)
    requires |content| < 8192
    ensures |r| < 8192 && content <= r
  {
    var base := if 0 < |content| < 8191 then content + "\n" else content;
    var room := 8191 - |base|;
    base + text[..if |text| <= room then |text| else room]
  }

  /** To an empty file the text is written, to another one a newline and the text, and what is too long is cut. */
  lemma AppendedIs(content: string, text: string)
    requires |content| < 8192
    ensures content == "" && |text| < 8192 ==> Appended(content, text) == text
    ensures content != "" && |content| + 1 + |text| < 8192 ==> Appended(content, text) == content + "\n" + text
    ensures content == "" && |text| >= 8192 ==> Appended(content, text) == text[..8191]
    ensures content != "" && |content| + 1 + |text| >= 8192 ==>
              Appended(content, text) == (content + "\n" + text)[..8191]
  {
    var all := content + "\n" + text;
    if content != "" && |all| >= 8192 {
      if |content| < 8191 {
        assert all[..8191] == content + "\n" + text[..8190 - |content|];
      } else {
        assert all[..8191] == content;
      }
    }
  }

  // ---- the breadth-first sweep of fs_rm_subtree ----

  /** What the queue has in it: distinct nodes of the subtree, the first qh of them with all their children. */
  ghost predicate Swept(n: Table, r: int, queue: seq<int>, seen: seq<bool>, qh: nat) {
    && |seen| == |n| == 256 && qh <= |queue| && queue != [] && queue[0] == r
    && (forall k :: 0 <= k < |queue| ==> Live(n, queue[k]) && Inside(n, queue[k], r))
    && (forall i :: 0 <= i < 256 ==> (seen[i] <==> i in queue))
    && (forall k, l :: 0 <= k < l < |queue| ==> queue[k] != queue[l])
    && (forall k, i :: 0 <= k < qh && Live(n, i) && i != 0 && n[i].parent == queue[k] ==> i in queue)
  }

  /** All children of u below index i are in the queue. */
  ghost predicate Fanned(n: Table, u: int, queue: seq<int>, i: int) {
    forall j :: 0 <= j < i && Live(n, j) && j != 0 && n[j].parent == u ==> j in queue
  }

  lemma {:induction false} Bounded(s: set<int>, m: nat)
    requires forall x :: x in s ==> 0 <= x < m
    ensures |s| <= m
  {
    if m == 0 {
      forall x
        ensures x !in s
      {
      }
      assert s == {};
    } else {
      Bounded(s - {m - 1}, m - 1);
    }
  }

  lemma {:induction false} Elements(q: seq<int>)
    requires forall k, l :: 0 <= k < l < |q| ==> q[k] != q[l]
    ensures |set k | 0 <= k < |q| :: q[k]| == |q|
  {
    if q != [] {
      var h := q[..|q| - 1];
      Elements(h);
      assert (set k | 0 <= k < |q| :: q[k]) == (set k | 0 <= k < |h| :: h[k]) + {q[|q| - 1]};
    }
  }

  /** The queue has room for a node that is not in it. */
  lemma RoomInQueue(queue: seq<int>, i: int)
    requires (forall k :: 0 <= k < |queue| ==> 0 <= queue[k] < 256) && 0 <= i < 256 && i !in queue
    requires forall k, l :: 0 <= k < l < |queue| ==> queue[k] != queue[l]
    ensures |queue| < 256
  {
    var q := queue + [i];
    Elements(q);
    Bounded(set k | 0 <= k < |q| :: q[k], 256);
  }

  /** When the queue is worked off, it holds exactly the subtree. */
  lemma SweptAll(n: Table, r: int, queue: seq<int>, seen: seq<bool>)
    requires Tree(n) && Swept(n, r, queue, seen, |queue|)
    ensures forall i :: i in queue <==> i in Subtree(n, r)
  {
    var s := set i | i in queue;
    forall i | i in Subtree(n, r)
      ensures i in queue
    {
      var p :| IsUp(n, i, p) && r in p;
      assert r in s;
      ClosedHasAll(n, r, s, i, p);
    }
  }

  class FileSystem {
    const nodes: array<Node>
    var cwd: int

    ghost predicate Valid()
      reads this, nodes
    {
      nodes.Length == 256 && Tree(nodes[..]) && IsDir(nodes[..], cwd)
    }

    ghost function Now(): Table
      reads this, nodes
    {
      nodes[..]
    }

    method FindChild(dir: int, name: string) returns (k: int)
      requires nodes.Length == 256
      ensures k == Lookup(Now(), dir, name)
    {
      k := 0;
      while k < 256
        invariant 0 <= k <= 256 && Lookup(Now(), dir, name) == LookupFrom(Now(), dir, name, k)
      {
        if !nodes[k].kind.Free? && nodes[k].parent == dir && nodes[k].name == name {
          return;
        }
        k := k + 1;
      }
      return -1;
    }

    method AllocNode() returns (k: int)
      requires nodes.Length == 256
      ensures k == FirstFree(Now())
    {
      k := 0;
      while k < 256
        invariant 0 <= k <= 256 && FirstFree(Now()) == FirstFreeFrom(Now(), k)
      {
        if nodes[k].kind.Free? {
          return;
        }
        k := k + 1;
      }
      return -1;
    }

    method Mkdir(name: string) returns (r: Result)
      requires Valid()
      modifies nodes
      ensures Valid() && r == MakeCode(old(Now()), cwd, name)
      ensures r != Ok ==> Now() == old(Now())
      ensures r == Ok ==> var k := FirstFree(old(Now()));
                Now() == old(Now())[k := Node(Dir, name, cwd, old(Now())[k].content)]
    {
      if !ValidName(name) {
        return InvalidName;
      }
      var c := FindChild(cwd, name);
      if c != -1 {
        return AlreadyExists;
      }
      var k := AllocNode();
      if k == -1 {
        return NoSpace;
      }
      AddKeeps(Now(), k, Node(Dir, name, cwd, nodes[k].content));
      nodes[k] := nodes[k].(kind := Dir, name := name, parent := cwd);
      return Ok;
    }

    method Touch(name: string) returns (r: Result)
      requires Valid()
      modifies nodes
      ensures Valid() && r == MakeCode(old(Now()), cwd, name)
      ensures r != Ok ==> Now() == old(Now())
      ensures r == Ok ==> Now() == old(Now())[FirstFree(old(Now())) := Node(File, name, cwd, "")]
    {
      if !ValidName(name) {
        return InvalidName;
      }
      var c := FindChild(cwd, name);
      if c != -1 {
        return AlreadyExists;
      }
      var k := AllocNode();
      if k == -1 {
        return NoSpace;
      }
      AddKeeps(Now(), k, Node(File, name, cwd, ""));
      nodes[k] := Node(File, name, cwd, "");
      return Ok;
    }

    method Cd(name: string) returns (r: Result)
      requires Valid()
      modifies this`cwd
      ensures Valid()
      ensures var k := Lookup(Now(), old(cwd), name);
              if name == "." then r == Ok && cwd == old(cwd)
              else if name == ".." then r == Ok && cwd == if old(cwd) == 0 then 0 else Now()[old(cwd)].parent
              else if name == "/" then r == Ok && cwd == 0
              else if k == -1 then r == NotFound && cwd == old(cwd)
              else if !IsDir(Now(), k) then r == NotADirectory && cwd == old(cwd)
              else r == Ok && cwd == k
    {
      if name == "." {
        return Ok;
      }
      if name == ".." {
        assert cwd != 0 ==> Placed(Now(), cwd);
        if nodes[cwd].parent != -1 {
          cwd := nodes[cwd].parent;
        }
        return Ok;
      }
      if name == "/" {
        cwd := 0;
        return Ok;
      }
      var k := FindChild(cwd, name);
      if k == -1 {
        return NotFound;
      }
      if !nodes[k].kind.Dir? {
        return NotADirectory;
      }
      cwd := k;
      return Ok;
    }

    /** Into a directory and out of it again. */
    method CdAndBack(name: string) returns (there: Result, back: Result)
      requires Valid() && name != "." && name != ".." && name != "/"
      modifies this`cwd
      ensures Valid() && back == Ok && (there == Ok ==> cwd == old(cwd))
    {
      there := Cd(name);
      assert there == Ok ==> Child(Now(), cwd, old(cwd), name);
      back := Cd("..");
    }

    /** Whether cwd is r or below it: a walk up to the root. */
    method CwdInSubtree(r: int) returns (inside: bool)
      requires Valid() && r != -1
      ensures inside <==> Inside(Now(), cwd, r)
    {
      ghost var rank :| Ranked(Now(), rank);
      ghost var p := UpExists(Now(), rank, cwd);
      ghost var q := p;
      var walk := cwd;
      while walk != -1
        invariant walk == -1 || IsUp(Now(), walk, q)
        invariant if walk == -1 then r !in p else r in p <==> r in q
        decreases |q|, if walk == -1 then 0 else 1
      {
        if walk == r {
          return true;
        }
        assert q == [q[0]] + q[1..];
        if walk != 0 {
          q := q[1..];
        }
        walk := nodes[walk].parent;
      }
      if Inside(Now(), cwd, r) {
        ghost var p' :| IsUp(Now(), cwd, p') && r in p';
        UpUnique(Now(), cwd, p, p');
        assert false;
      }
      return false;
    }

    /** Frees the slots of a list of nodes, the last first. */
    method FreeSlots(queue: seq<int>)
      requires nodes.Length == 256 && forall k :: 0 <= k < |queue| ==> 0 <= queue[k] < 256
      modifies nodes
      ensures forall i :: 0 <= i < 256 ==> nodes[i] == if i in queue then EMPTY else old(nodes[i])
    {
      var k := |queue|;
      while k > 0
        invariant 0 <= k <= |queue|
        invariant forall i :: 0 <= i < 256 ==> nodes[i] == if i in queue[k..] then EMPTY else old(nodes[i])
      {
        k := k - 1;
        assert queue[k..] == [queue[k]] + queue[k + 1..];
        nodes[queue[k]] := EMPTY;
      }
      assert queue[0..] == queue;
    }

    /** Adds the children of one node to the queue. The exit for a full queue is never taken. */
    method Fan(r: int, u: int, queue: seq<int>, seen: seq<bool>, ghost qh: nat)
      returns (queue': seq<int>, seen': seq<bool>)
      requires Valid() && qh < |queue| && queue[qh] == u && Swept(Now(), r, queue, seen, qh)
      ensures queue <= queue' && Swept(Now(), r, queue', seen', qh + 1)
    {
      queue', seen' := queue, seen;
      SweptHas(Now(), r, queue, seen, qh);
      if !nodes[u].kind.Dir? {
        FileHasNone(Now(), u);
        SweptNext(Now(), r, queue, seen, qh);
        return;
      }
      var i := 0;
      while i < 256
        invariant 0 <= i <= 256 && queue <= queue' && Swept(Now(), r, queue', seen', qh)
        invariant Fanned(Now(), u, queue', i)
      {
        SweptHas(Now(), r, queue', seen', qh);
        if !nodes[i].kind.Free? && nodes[i].parent == u && !seen'[i] {
          RoomInQueue(queue', i);
          if |queue'| >= 256 {
            assert false;
          }
          SweptMore(Now(), r, queue', seen', qh, i);
          seen' := seen'[i := true];
          queue' := queue' + [i];
        }
        i := i + 1;
      }
      SweptNext(Now(), r, queue', seen', qh);
    }

    /** fs_rm_subtree: exactly the subtree is freed, and cwd leaves it if it was inside. */
    method RmSubtree(r: int) returns (res: Result)
      requires Valid()
      modifies this`cwd, nodes
      ensures Valid()
      ensures if !(0 <= r < 256) then res == NotFound
              else if !Live(old(Now()), r) then res == Ok
              else if r == 0 then res == InvalidName
              else res == Ok
      ensures res != Ok || !Live(old(Now()), r) ==> Now() == old(Now()) && cwd == old(cwd)
      ensures res == Ok && Live(old(Now()), r) ==>
                && Now() == Without(old(Now()), Subtree(old(Now()), r))
                && cwd == if Inside(old(Now()), old(cwd), r) then old(Now())[r].parent else old(cwd)
    {
      if r < 0 || r >= 256 {
        return NotFound;
      }
      if nodes[r].kind.Free? {
        return Ok;
      }
      if r == 0 {
        return InvalidName;
      }
      var queue := [r];
      var seen := seq(256, i => i == r);
      SweptStart(Now(), r);
      var qh := 0;
      while qh < |queue|
        invariant Valid() && Now() == old(Now()) && cwd == old(cwd)
        invariant qh <= |queue| && Swept(Now(), r, queue, seen, qh)
        decreases 256 - qh
      {
        SweptFits(Now(), r, queue, seen, qh);
        SweptHas(Now(), r, queue, seen, qh);
        queue, seen := Fan(r, queue[qh], queue, seen, qh);
        qh := qh + 1;
      }
      SweptAll(Now(), r, queue, seen);
      SweptHas(Now(), r, queue, seen, qh);
      var inside := CwdInSubtree(r);
      ghost var n := Now();
      LeaveKeeps(n, r, cwd);
      if inside {
        var p := nodes[r].parent;
        cwd := if p >= 0 then p else 0;
      }
      FreeSlots(queue);
      assert Now() == Without(n, Subtree(n, r));
      return Ok;
    }

    /** fs_rm: a file or an empty directory. */
    method Rm(name: string) returns (r: Result)
      requires Valid()
      modifies this`cwd, nodes
      ensures Valid() && cwd == old(cwd)
      ensures r == RmCode(old(Now()), cwd, name)
      ensures Now() == if r == Ok then old(Now())[Lookup(old(Now()), cwd, name) := EMPTY] else old(Now())
    {
      if name == "" || name == "/" {
        return InvalidName;
      }
      var k := FindChild(cwd, name);
      if k == -1 {
        return NotFound;
      }
      if nodes[k].kind.Dir? {
        for i := 0 to 256
          invariant forall j :: 0 <= j < i ==> !(Live(Now(), j) && Now()[j].parent == k)
        {
          if !nodes[i].kind.Free? && nodes[i].parent == k {
            assert Live(Now(), i);
            return DirNotEmpty;
          }
        }
      } else {
        FileHasNone(Now(), k);
      }
      ghost var n := Now();
      ChildOfCwd(n, k, cwd);
      LeafSubtree(n, k);
      r := RmSubtree(k);
      assert Without(n, {k}) == n[k := EMPTY];
    }

    /** fs_rm_rf: a file or a whole directory tree. */
    method RmRf(name: string) returns (r: Result)
      requires Valid()
      modifies this`cwd, nodes
      ensures Valid() && cwd == old(cwd)
      ensures var k := Lookup(old(Now()), cwd, name);
              if name == "" || name == "/" then r == InvalidName && Now() == old(Now())
              else if k == -1 then r == NotFound && Now() == old(Now())
              else r == Ok && Now() == Without(old(Now()), Subtree(old(Now()), k))
    {
      if name == "" || name == "/" {
        return InvalidName;
      }
      var k := FindChild(cwd, name);
      if k == -1 {
        return NotFound;
      }
      ChildOfCwd(Now(), k, cwd);
      r := RmSubtree(k);
    }

    /** The file called name, created if there is none; -1 with the reason if that cannot be. */
    method OpenFile(name: string) returns (k: int, r: Result)
      requires Valid()
      modifies nodes
      ensures Valid() && r == OpenCode(old(Now()), cwd, name)
      ensures r != Ok ==> Now() == old(Now())
      ensures r == Ok ==> k == Slot(old(Now()), cwd, name) && 0 <= k < 256 && Child(Now(), k, cwd, name)
      ensures r == Ok ==> Now()[k].kind.File?
                          && Now() == old(Now())[k := Opened(old(Now()), cwd, name)]
    {
      k := FindChild(cwd, name);
      if k == -1 {
        r := Touch(name);
        if r != Ok {
          return;
        }
        ghost var n := Now();
        k := FindChild(cwd, name);
        assert Child(n, FirstFree(old(Now())), cwd, name);
      }
      if !nodes[k].kind.File? {
        return k, IsADirectory;
      }
      return k, Ok;
    }

    method WriteBin(name: string, data: string) returns (r: Result)
      requires Valid()
      modifies nodes
      ensures Valid()
      ensures r == if |data| >= 8192 then TooBig else OpenCode(old(Now()), cwd, name)
      ensures Now() == if r == Ok then old(Now())[Slot(old(Now()), cwd, name) := Node(File, name, cwd, data)]
                       else old(Now())
    {
      if |data| >= 8192 {
        return TooBig;
      }
      var k;
      k, r := OpenFile(name);
      if r != Ok {
        return;
      }
      RewriteKeeps(Now(), k, data);
      nodes[k] := nodes[k].(content := data);
    }

    method Append(name: string, text: string) returns (r: Result)
      requires Valid()
      modifies nodes
      ensures Valid() && r == OpenCode(old(Now()), cwd, name)
      ensures r != Ok ==> Now() == old(Now())
      ensures r == Ok ==> var before := Opened(old(Now()), cwd, name);
                |before.content| < 8192 &&
                var k := Slot(old(Now()), cwd, name);
                Now() == old(Now())[k := Node(File, name, cwd, Appended(before.content, text))]
    {
      var k;
      k, r := OpenFile(name);
      if r != Ok {
        return;
      }
      assert Live(Now(), k);
      SizeBound(Now(), k);
      var content := nodes[k].content;
      var data := content;
      if 0 < |content| < 8191 {
        data := data + "\n";
      }
      var i := 0;
      ghost var base := data;
      while i < |text| && |data| < 8191
        invariant 0 <= i <= |text| && |data| == |base| + i <= 8191 && data == base + text[..i]
      {
        data := data + [text[i]];
        i := i + 1;
      }
      assert data == Appended(content, text);
      RewriteKeeps(Now(), k, data);
      nodes[k] := nodes[k].(content := data);
    }

    method Read(name: string) returns (r: Reading)
      requires Valid()
      ensures r == ReadIn(Now(), cwd, name)
    {
      var k := FindChild(cwd, name);
      if k == -1 {
        return Failed(NotFound);
      }
      if !nodes[k].kind.File? {
        return Failed(IsADirectory);
      }
      return Content(nodes[k].content);
    }

    method ReadThrough(path: string) returns (r: Reading)
      requires Valid()
      ensures r == ReadPath(Now(), cwd, path)
    {
      if path == "" {
        return Failed(NotFound);
      }
      var dir, p := cwd, path;
      if path[0] == '/' {
        dir, p := 0, path[1..];
      }
      while p != ""
        invariant IsDir(Now(), dir) && ReadPath(Now(), cwd, path) == ReadFrom(Now(), dir, p)
        decreases |p|
      {
        var c := Component(p);
        if |c| >= 48 {
          return Failed(InvalidName);
        }
        p := After(p);
        if c == "" || c == "." {
          continue;
        }
        if c == ".." {
          UpIsDir(Now(), dir);
          if nodes[dir].parent != -1 {
            dir := nodes[dir].parent;
          }
          continue;
        }
        var k := FindChild(dir, c);
        if k == -1 {
          return Failed(NotFound);
        }
        if p == "" {
          if !nodes[k].kind.File? {
            return Failed(IsADirectory);
          }
          return Content(nodes[k].content);
        }
        if !nodes[k].kind.Dir? {
          return Failed(NotADirectory);
        }
        dir := k;
      }
      return Failed(NotFound);
    }

    method Cp(src: string, dst: string) returns (r: Result)
      requires Valid()
      modifies nodes
      ensures Valid()
      ensures r == CpCode(old(Now()), cwd, src, dst)
      ensures r != Ok ==> Now() == old(Now())
      ensures r == Ok ==>
                var n := old(Now());
                Now() == n[FirstFree(n) := Node(File, dst, cwd, n[Lookup(n, cwd, src)].content)]
    {
      var s := FindChild(cwd, src);
      if s == -1 {
        return NotFound;
      }
      if !nodes[s].kind.File? {
        return IsADirectory;
      }
      if !ValidName(dst) {
        return InvalidName;
      }
      var d := FindChild(cwd, dst);
      if d != -1 {
        return AlreadyExists;
      }
      var k := AllocNode();
      if k == -1 {
        return NoSpace;
      }
      SizeBound(Now(), s);
      AddKeeps(Now(), k, Node(File, dst, cwd, nodes[s].content));
      nodes[k] := Node(File, dst, cwd, nodes[s].content);
      return Ok;
    }

    method Mv(src: string, dst: string) returns (r: Result)
      requires Valid()
      modifies nodes
      ensures Valid()
      ensures r == MvCode(old(Now()), cwd, src, dst)
      ensures r != Ok ==> Now() == old(Now())
      ensures r == Ok ==> var k := Lookup(old(Now()), cwd, src); Now() == old(Now())[k := old(Now())[k].(name := dst)]
    {
      var k := FindChild(cwd, src);
      if k == -1 {
        return NotFound;
      }
      if !ValidName(dst) {
        return InvalidName;
      }
      var d := FindChild(cwd, dst);
      if d != -1 {
        return AlreadyExists;
      }
      ChildOfCwd(Now(), k, cwd);
      RenameKeeps(Now(), k, dst);
      nodes[k] := nodes[k].(name := dst);
      return Ok;
    }

    /**
      fs_mkdir_p: makes the directories of an absolute path that are missing. Nothing else changes, and
      nothing at all if they are all there.
     */
    method MkdirP(path: string) returns (r: Result)
      requires Valid() && ShortComponents(path)
      modifies this`cwd, nodes
      ensures Valid() && cwd == old(cwd) && Grown(old(Now()), Now())
      ensures path == "" || path[0] != '/' ==> r == InvalidName && Now() == old(Now())
      ensures r == Ok ==> path != "" && DirAt(Now(), 0, Components(path[1..])) != -1
      ensures path != "" && path[0] == '/' ==> r == MakeAllCode(old(Now()), 0, Components(path[1..]))
      ensures path != "" && path[0] == '/' && DirAt(old(Now()), 0, Components(path[1..])) != -1 ==>
                r == Ok && Now() == old(Now())
      ensures forall i :: Live(Now(), i) && !Live(old(Now()), i) ==>
                path != "" && Now()[i].kind.Dir? && Now()[i].name in Components(path[1..])
    {
      if path == "" || path[0] != '/' {
        return InvalidName;
      }
      var saved := cwd;
      cwd := 0;
      var p := path[1..];
      ghost var all, done: seq<string> := Components(p), [];
      while p != ""
        invariant Valid() && IsDir(Now(), saved) && Grown(old(Now()), Now())
        invariant all == done + Components(p) && DirAt(Now(), 0, done) == cwd
        invariant DirAt(old(Now()), 0, all) != -1 ==> Now() == old(Now())
        invariant MakeAllCode(old(Now()), 0, all) == MakeAllCode(Now(), cwd, Components(p))
        invariant forall i :: Live(Now(), i) && !Live(old(Now()), i) ==> Now()[i].kind.Dir? && Now()[i].name in done
        decreases |p|
      {
        var c := Component(p);
        p := After(p);
        if c == "" {
          continue;
        }
        ghost var n, dir := Now(), cwd;
        NextDir(n, done, c, Components(p));
        r := Enter(c, saved);
        if r != Ok {
          cwd := saved;
          return;
        }
        EnteredDir(n, Now(), done, c, dir, cwd);
        done := done + [c];
      }
      assert all == done;
      cwd := saved;
      return Ok;
    }

    /** One step of fs_mkdir_p: into c, which is made if it is missing. */
    method Enter(c: string, saved: int) returns (r: Result)
      requires Valid() && IsDir(Now(), saved)
      modifies this`cwd, nodes
      ensures Valid() && IsDir(Now(), saved) && Grown(old(Now()), Now())
      ensures var k := Lookup(old(Now()), old(cwd), c);
              k != -1 ==> Now() == old(Now()) && (r == Ok <==> IsDir(Now(), k))
      ensures r == Ok ==> IsDir(Now(), old(cwd)) && Lookup(Now(), old(cwd), c) == cwd
      ensures r != Ok ==> cwd == old(cwd) && Now() == old(Now())
      ensures forall i :: Live(Now(), i) && !Live(old(Now()), i) ==>
                Now()[i].kind.Dir? && Now()[i].name == c && Now()[i].parent == old(cwd)
      ensures forall cs ::
                MakeAllCode(old(Now()), old(cwd), [c] + cs) == if r == Ok then MakeAllCode(Now(), cwd, cs) else r
    {
      forall cs: seq<string>
        ensures ([c] + cs)[0] == c && ([c] + cs)[1..] == cs
      {
      }
      var k := FindChild(cwd, c);
      if k == -1 {
        ghost var n := Now();
        r := Mkdir(c);
        MissingFirst(n, cwd, c);
        if r != Ok {
          return;
        }
        MissingNext(n, FirstFree(n), Now()[FirstFree(n)], Now());
        GrownBy(n, FirstFree(n), Now()[FirstFree(n)]);
        assert Live(n, saved) && Live(n, cwd);
        assert Child(Now(), FirstFree(n), cwd, c);
        k := FindChild(cwd, c);
      }
      if !nodes[k].kind.Dir? {
        return NotADirectory;
      }
      cwd := k;
      return Ok;
    }

    // ---- fs_pwd ----

    /** Copies s behind what is in the buffer, as far as there is room. */
    method Put(buffer: string, s: string, size: nat) returns (r: string)
      requires size > 0
      ensures |buffer| < size ==> r == Cut(buffer + s, size - 1)
    {
      r := buffer;
      var j := 0;
      while j < |s| && |r| + 1 < size
        invariant 0 <= j <= |s| && r == buffer + s[..j] && (j > 0 ==> |r| < size)
      {
        r := r + [s[j]];
        j := j + 1;
      }
    }

    /**
      fs_pwd: the path of the current directory, cut to the buffer. Of a walk of more than 16 nodes
      only the lowest 16 count, and the topmost of those is taken for the root.
     */
    method Pwd(size: nat) returns (text: string, ghost p: seq<int>)
      requires Valid() && size > 0
      ensures IsUp(Now(), cwd, p) && (forall k :: 0 <= k < |p| ==> 0 <= p[k] < 256)
      ensures text == Cut(PwdText(Now(), Lowest(p)), size - 1)
    {
      ghost var rank :| Ranked(Now(), rank);
      p := UpExists(Now(), rank, cwd);
      UpInRange(Now(), cwd, p);
      var path: seq<int> := [];
      var cur := cwd;
      while cur != -1 && |path| < 16
        decreases 16 - |path|
        invariant |path| <= 16 && |path| <= |p| && path == p[..|path|]
        invariant if |path| == |p| then cur == -1 else cur == p[|path|] && IsUp(Now(), cur, p[|path|..])
      {
        ghost var d := |path|;
        WalkOn(Now(), p, d);
        path := path + [cur];
        cur := nodes[cur].parent;
      }
      assert path == Lowest(p);
      text := Print(path, size);
    }

    method Print(path: seq<int>, size: nat) returns (text: string)
      requires nodes.Length == 256 && size > 0 && path != [] && forall k :: 0 <= k < |path| ==> 0 <= path[k] < 256
      ensures text == Cut(PwdText(Now(), path), size - 1)
    {
      if |path| == 1 {
        return Cut("/", size - 1);
      }
      text := "";
      var i := |path| - 1;
      while i > 0
        invariant 0 <= i < |path| && Shows(Now(), path, i, size - 1, text)
      {
        i := i - 1;
        ghost var before := text;
        text := Put(text, "/" + nodes[path[i]].name, size);
        ShowsNext(Now(), path, i, size - 1, before, text);
      }
      ShowsAll(Now(), path, size - 1, text);
    }

    /** Going by what fs_pwd printed finds the same file as the name alone. */
    method PwdThenRead(f: string, size: nat) returns (here: Reading, there: Reading, ghost p: seq<int>)
      requires Valid() && size > 0 && Slashless(Now()) && '/' !in f
      ensures IsUp(Now(), cwd, p) && (forall k :: 0 <= k < |p| ==> 0 <= p[k] < 256)
      ensures |p| <= 16 && |PwdText(Now(), p)| < size ==> (here == there <==> |f| < 48 && (f != "" || cwd == 0))
    {
      var text;
      text, p := Pwd(size);
      here := Read(f);
      there := ReadThrough(text + "/" + f);
      if |p| <= 16 && |PwdText(Now(), p)| < size {
        assert Lowest(p) == p;
        PrintedPath(Now(), cwd, p, f);
      }
    }

    /** fs_init: the root with /lib, /bin, /usr and /usr/lib. */
    constructor ()
      ensures Valid() && fresh(nodes) && cwd == 0 && Stage(Now(), 5)
    {
      nodes := new Node[256](i => if i == 0 then ROOT else EMPTY);
      cwd := 0;
      new;
      NewTree();
      assert Now() == [ROOT] + seq(255, _ => EMPTY);
      MakeAll();
    }

    method MakeAll()
      requires Valid() && cwd == 0 && Stage(Now(), 1)
      modifies this`cwd, nodes
      ensures Valid() && cwd == 0 && Stage(Now(), 5)
    {
      MakeInitial("lib", 1);
      MakeInitial("bin", 2);
      MakeInitial("usr", 3);
      assert Child(Now(), 3, 0, "usr");
      var r := Cd("usr");
      assert Child(Now(), cwd, 0, "usr");
      MakeInitial("lib", 4);
      r := Cd("/");
    }

    method MakeInitial(name: string, k: nat)
      requires Valid() && k < 5 && Stage(Now(), k) && INITIAL[k] == Node(Dir, name, cwd, "") && ValidName(name)
      requires forall i :: 0 <= i < k ==> INITIAL[i].name != name || INITIAL[i].parent != cwd
      modifies nodes
      ensures Valid() && Stage(Now(), k + 1)
    {
      StageFree(Now(), k, cwd, name);
      var r := Mkdir(name);
    }

    // ---- any sequence of calls ----

    method Perform(op: Op)
      requires Valid() && op.Allowed()
      modifies this`cwd, nodes
      ensures Valid()
    {
      match op
      case MkdirOp(name) => var r := Mkdir(name);
      case TouchOp(name) => var r := Touch(name);
      case CdOp(name) => var r := Cd(name);
      case RmOp(name) => var r := Rm(name);
      case RmRfOp(name) => var r := RmRf(name);
      case WriteOp(name, data) => var r := WriteBin(name, data);
      case AppendOp(name, text) => var r := Append(name, text);
      case MkdirPOp(path) => var r := MkdirP(path);
      case CpOp(src, dst) => var r := Cp(src, dst);
      case MvOp(src, dst) => var r := Mv(src, dst);
    }

    /** One more directory, and into it. */
    method DigOne(k: nat)
      requires Valid() && k < 251 && Deep(Now(), k) && cwd == Bottom(k)
      modifies this`cwd, nodes
      ensures Valid() && Deep(Now(), k + 1) && cwd == Bottom(k + 1)
    {
      DeepFree(Now(), k);
      var r := Mkdir("a");
      assert Child(Now(), 5 + k, cwd, "a");
      r := Cd("a");
    }

    /** After any sequence of calls the table is a tree and cwd one of its directories. */
    method Run(ops: seq<Op>)
      requires Valid() && forall i :: 0 <= i < |ops| ==> ops[i].Allowed()
      modifies this`cwd, nodes
      ensures Valid()
    {
      for i := 0 to |ops|
        invariant Valid()
      {
        Perform(ops[i]);
      }
    }
  }

  datatype Op =
    | MkdirOp(name: string) | TouchOp(name: string) | CdOp(name: string) | RmOp(name: string) | RmRfOp(name: string)
    | WriteOp(name: string, data: string) | AppendOp(name: string, data: string) | MkdirPOp(path: string)
    | CpOp(src: string, dst: string) | MvOp(src: string, dst: string)
  {
    predicate Allowed() {
      MkdirPOp? ==> ShortComponents(path)
    }
  }

  const INITIAL: seq<Node> :=
    [ROOT, Node(Dir, "lib", 0, ""), Node(Dir, "bin", 0, ""), Node(Dir, "usr", 0, ""), Node(Dir, "lib", 3, "")]

  /** The first k of the initial nodes are there, and nothing else. */
  ghost predicate Stage(n: Table, k: nat)
    requires k <= 5
  {
    |n| == 256 && forall i :: 0 <= i < 256 ==> n[i] == if i < k then INITIAL[i] else EMPTY
  }

  /** The finished table, node by node. */
  lemma InitialNodes(n: Table)
    requires Stage(n, 5)
    ensures n[0] == Node(Dir, "/", -1, "") && n[1] == Node(Dir, "lib", 0, "") && n[2] == Node(Dir, "bin", 0, "")
    ensures n[3] == Node(Dir, "usr", 0, "") && n[4] == Node(Dir, "lib", 3, "")
    ensures forall i :: 5 <= i < 256 ==> n[i] == Node(Free, "", -1, "")
  {
  }

  lemma StageFree(n: Table, k: nat, dir: int, name: string)
    requires k < 5 && Stage(n, k) && ValidName(name)
    requires forall i :: 0 <= i < k ==> INITIAL[i].name != name || INITIAL[i].parent != dir
    ensures MakeCode(n, dir, name) == Ok && FirstFree(n) == k
  {
    forall j
      ensures !Child(n, j, dir, name)
    {
    }
    assert n[k] == EMPTY;
  }

  /** The slots that are free. */
  ghost function FreeSlots(n: Table): set<int> {
    set i | 0 <= i < |n| && n[i].kind.Free?
  }

  /** What making directories for all of cs answers, one inside the other, with so many slots free. */
  function MissingCode(cs: seq<string>, free: nat): Result {
    if cs == [] then Ok
    else if !ValidName(cs[0]) then InvalidName
    else if free == 0 then NoSpace
    else MissingCode(cs[1..], free - 1)
  }

  /** What fs_mkdir_p answers for the components cs below dir. */
  ghost function MakeAllCode(n: Table, dir: int, cs: seq<string>): Result
    decreases |cs|
  {
    if cs == [] then Ok
    else
      var k := Lookup(n, dir, cs[0]);
      if k == -1 then MissingCode(cs, |FreeSlots(n)|)
      else if !IsDir(n, k) then NotADirectory
      else MakeAllCode(n, k, cs[1..])
  }

  lemma MissingFirst(n: Table, dir: int, c: string)
    requires Tree(n) && Lookup(n, dir, c) == -1
    ensures MakeCode(n, dir, c) == if !ValidName(c) then InvalidName else if |FreeSlots(n)| == 0 then NoSpace else Ok
  {
    var k := FirstFree(n);
    if k == -1 {
      assert FreeSlots(n) == {};
    } else {
      assert k in FreeSlots(n);
    }
  }

  /** In the directory just made nothing is found, so the rest is missing too, with one slot less. */
  lemma MissingNext(n: Table, k: int, node: Node, m: Table)
    requires Tree(n) && 0 < k < 256 && n[k].kind.Free? && node.kind.Dir? && IsDir(n, node.parent) && m == n[k := node]
    ensures |FreeSlots(n)| > 0
    ensures forall cs :: MakeAllCode(m, k, cs) == MissingCode(cs, |FreeSlots(n)| - 1)
  {
    assert k in FreeSlots(n);
    assert FreeSlots(m) == FreeSlots(n) - {k};
    forall j, c
      ensures !Child(m, j, k, c)
    {
      assert 0 < j && Live(n, j) ==> Placed(n, j);
    }
    assert forall c :: Lookup(m, k, c) == -1;
  }

  lemma NextDir(n: Table, done: seq<string>, c: string, rest: seq<string>)
    requires Tree(n) && DirAt(n, 0, done) != -1
    ensures done + ([c] + rest) == (done + [c]) + rest
    ensures DirAt(n, 0, done + ([c] + rest)) != -1 ==> var k := Lookup(n, DirAt(n, 0, done), c); k != -1 && IsDir(n, k)
  {
    DirAtSteps(n, 0, done, [c] + rest);
    assert ([c] + rest)[0] == c;
  }

  lemma EnteredDir(n: Table, m: Table, done: seq<string>, c: string, dir: int, dir': int)
    requires Tree(n) && Tree(m) && Grown(n, m) && DirAt(n, 0, done) == dir != -1
    requires IsDir(m, dir) && IsDir(m, dir') && Lookup(m, dir, c) == dir'
    ensures DirAt(m, 0, done + [c]) == dir'
  {
    DirAtGrown(n, m, 0, done);
    DirAtSteps(m, 0, done, [c]);
    assert [c][1..] == [];
  }

  /** The part of a parent walk that fs_pwd looks at. */
  function Lowest(p: seq<int>): seq<int> {
    if |p| <= 16 then p else p[..16]
  }

  lemma {:induction false} WalkOn(n: Table, p: seq<int>, d: nat)
    requires d < |p| && IsUp(n, p[d], p[d..]) && n[0..] == n && |n| > 0 && n[0].parent == -1
    ensures Live(n, p[d])
    ensures if d + 1 == |p| then p[d] == 0
            else p[d] != 0 && n[p[d]].parent == p[d + 1] && IsUp(n, p[d + 1], p[d + 1..])
  {
    assert p[d..][1..] == p[d + 1..];
    if p[d] == 0 {
    } else {
      assert IsUp(n, n[p[d]].parent, p[d + 1..]);
    }
  }

  /** fs_pwd prints the whole path exactly when the walk has at most 16 nodes. */
  lemma PwdComplete(n: Table, cwd: int, p: seq<int>)
    requires Tree(n) && IsUp(n, cwd, p) && forall k :: 0 <= k < |p| ==> 0 <= p[k] < |n|
    ensures PwdText(n, Lowest(p)) == PwdText(n, p) <==> |p| <= 16
  {
    if |p| > 16 {
      Nameful(n, cwd, p);
      TrailShorter(n, p, 16);
    }
  }

  lemma {:induction false} Nameful(n: Table, i: int, p: seq<int>)
    requires Tree(n) && IsUp(n, i, p)
    ensures forall k :: 0 <= k < |p| - 1 ==> Live(n, p[k]) && n[p[k]].name != ""
    decreases |p|
  {
    if i != 0 {
      assert Placed(n, i);
      Nameful(n, n[i].parent, p[1..]);
      assert p == [p[0]] + p[1..];
    }
  }

  lemma {:induction false} TrailShorter(n: Table, p: seq<int>, k: nat)
    requires 1 <= k < |p| && (forall i :: 0 <= i < |p| ==> 0 <= p[i] < |n|)
    requires forall i :: 0 <= i < |p| - 1 ==> n[p[i]].name != ""
    ensures |Trail(n, p[..k])| < |Trail(n, p)|
    decreases |p|
  {
    if k > 1 {
      assert p[..k][1..] == p[1..][..k - 1];
      TrailShorter(n, p[1..], k - 1);
    }
  }

  // ---- a directory too deep to be printed, made by calls ----

  /** The initial nodes, and after them k directories called a, each in the one before. */
  ghost predicate Deep(n: Table, k: nat) {
    && |n| == 256 && k <= 251
    && (forall i :: 0 <= i < 5 ==> n[i] == INITIAL[i])
    && (forall i :: 5 <= i < 5 + k ==> n[i] == Node(Dir, "a", Bottom(i - 5), ""))
    && (forall i :: 5 + k <= i < 256 ==> n[i] == EMPTY)
  }

  /** The slot of the k-th of them. */
  function Bottom(k: int): int {
    if k == 0 then 0 else 4 + k
  }

  lemma DeepFree(n: Table, k: nat)
    requires Deep(n, k) && k < 251
    ensures MakeCode(n, Bottom(k), "a") == Ok && FirstFree(n) == 5 + k
  {
    forall j
      ensures !Child(n, j, Bottom(k), "a")
    {
      if 5 <= j < 5 + k {
        assert n[j].parent == Bottom(j - 5);
      }
    }
    assert n[5 + k] == EMPTY;
  }

  lemma {:induction false} DeepUp(n: Table, k: nat, j: nat) returns (p: seq<int>)
    requires Deep(n, k) && j <= k
    ensures IsUp(n, Bottom(j), p) && |p| == j + 1
  {
    if j == 0 {
      p := [0];
    } else {
      var q := DeepUp(n, k, j - 1);
      p := [Bottom(j)] + q;
      assert p[1..] == q && n[4 + j].parent == Bottom(j - 1);
    }
  }

  /**
    Any number of directories, each made in the one before, as far as the table has room: fs_pwd prints the whole
    path of the last one exactly when there are fewer than 16.
   */
  method DigDown(depth: nat) returns (fs: FileSystem, ghost p: seq<int>)
    requires depth <= 251
    ensures fresh(fs) && fs.Valid() && IsUp(fs.Now(), fs.cwd, p) && |p| == depth + 1
    ensures forall k :: 0 <= k < |p| ==> 0 <= p[k] < |fs.Now()|
    ensures PwdText(fs.Now(), Lowest(p)) == PwdText(fs.Now(), p) <==> depth < 16
  {
    fs := new FileSystem();
    for k := 0 to depth
      invariant fresh(fs) && fresh(fs.nodes) && fs.Valid() && Deep(fs.Now(), k) && fs.cwd == Bottom(k)
    {
      fs.DigOne(k);
    }
    p := DeepUp(fs.Now(), depth, depth);
    UpInRange(fs.Now(), fs.cwd, p);
    PwdComplete(fs.Now(), fs.cwd, p);
  }

  /** What is printed once the names from the top down to path[i] are out. */
  ghost function Printed(n: Table, path: seq<int>, i: nat): string
    requires i < |path| && forall k :: 0 <= k < |path| ==> 0 <= path[k] < |n|
  {
    if i == |path| - 1 then "" else "/" + Trail(n, path[i..])
  }

  ghost predicate Shows(n: Table, path: seq<int>, i: nat, room: nat, text: string)
    requires i < |path| && forall k :: 0 <= k < |path| ==> 0 <= path[k] < |n|
  {
    |text| <= room && text == Cut(Printed(n, path, i), room)
  }

  lemma ShowsNext(n: Table, path: seq<int>, i: nat, room: nat, before: string, text: string)
    requires i + 1 < |path| && forall k :: 0 <= k < |path| ==> 0 <= path[k] < |n|
    requires Shows(n, path, i + 1, room, before) && text == Cut(before + ("/" + n[path[i]].name), room)
    ensures Shows(n, path, i, room, text)
  {
    var full, more := Printed(n, path, i + 1), "/" + n[path[i]].name;
    PrintedNext(n, path, i);
    CutTwice(full, more, room);
  }

  lemma PrintedNext(n: Table, path: seq<int>, i: nat)
    requires i + 1 < |path| && forall k :: 0 <= k < |path| ==> 0 <= path[k] < |n|
    ensures Printed(n, path, i) == Printed(n, path, i + 1) + ("/" + n[path[i]].name)
  {
    assert path[i..][1..] == path[i + 1..];
    Slashes(Trail(n, path[i + 1..]), n[path[i]].name);
  }

  lemma Slashes(a: string, b: string)
    ensures "/" + (a + "/" + b) == ("/" + a) + ("/" + b)
  {
  }

  lemma ShowsAll(n: Table, path: seq<int>, room: nat, text: string)
    requires |path| > 1 && forall k :: 0 <= k < |path| ==> 0 <= path[k] < |n|
    requires Shows(n, path, 0, room, text)
    ensures text == Cut(PwdText(n, path), room)
  {
    assert path[0..] == path;
  }

  lemma CutTwice(a: string, b: string, room: nat)
    ensures Cut(Cut(a, room) + b, room) == Cut(a + b, room)
  {
  }

  lemma ChildOfCwd(n: Table, k: int, cwd: int)
    requires Tree(n) && Live(n, k) && n[k].parent == cwd && IsDir(n, cwd)
    ensures k != 0 && !Inside(n, cwd, k)
  {
    ParentOutside(n, k);
  }

  lemma SizeBound(n: Table, k: int)
    requires Tree(n) && Live(n, k) && n[k].kind.File?
    ensures |n[k].content| < 8192
  {
    assert k != 0 ==> Placed(n, k);
  }

  ghost predicate HasChild(n: Table, k: int) {
    exists i :: Live(n, i) && n[i].parent == k
  }

  ghost function RmCode(n: Table, cwd: int, name: string): Result {
    var k := Lookup(n, cwd, name);
    if name == "" || name == "/" then InvalidName
    else if k == -1 then NotFound
    else if n[k].kind.Dir? && HasChild(n, k) then DirNotEmpty
    else Ok
  }

  /** What opening `name` for writing answers: an existing file, or a new one. */
  function OpenCode(n: Table, cwd: int, name: string): Result {
    var k := Lookup(n, cwd, name);
    if k == -1 then MakeCode(n, cwd, name) else if n[k].kind.File? then Ok else IsADirectory
  }

  function Slot(n: Table, cwd: int, name: string): int {
    if Lookup(n, cwd, name) == -1 then FirstFree(n) else Lookup(n, cwd, name)
  }

  function Opened(n: Table, cwd: int, name: string): Node {
    var k := Lookup(n, cwd, name);
    if k == -1 then Node(File, name, cwd, "") else n[k]
  }

  function CpCode(n: Table, cwd: int, src: string, dst: string): Result {
    var s := Lookup(n, cwd, src);
    if s == -1 then NotFound else if !n[s].kind.File? then IsADirectory else MakeCode(n, cwd, dst)
  }

  function MvCode(n: Table, cwd: int, src: string, dst: string): Result {
    if Lookup(n, cwd, src) == -1 then NotFound
    else if !ValidName(dst) then InvalidName
    else if Lookup(n, cwd, dst) != -1 then AlreadyExists
    else Ok
  }

  lemma FileHasNone(n: Table, u: int)
    requires Tree(n) && Live(n, u) && !IsDir(n, u)
    ensures forall i :: Live(n, i) ==> n[i].parent != u
  {
    forall i | Live(n, i)
      ensures n[i].parent != u
    {
      assert i != 0 ==> Placed(n, i);
    }
  }

  lemma SweptHas(n: Table, r: int, queue: seq<int>, seen: seq<bool>, qh: nat)
    requires Swept(n, r, queue, seen, qh)
    ensures |seen| == |n| == 256 && qh <= |queue| && (forall k :: 0 <= k < |queue| ==> Live(n, queue[k]))
    ensures forall i :: 0 <= i < 256 ==> (seen[i] <==> i in queue)
    ensures forall k, l :: 0 <= k < l < |queue| ==> queue[k] != queue[l]
  {
  }

  lemma SweptStart(n: Table, r: int)
    requires Tree(n) && Live(n, r)
    ensures Swept(n, r, [r], seq(256, i => i == r), 0)
  {
    InsideSelf(n, r);
  }

  lemma SweptNext(n: Table, r: int, queue: seq<int>, seen: seq<bool>, qh: nat)
    requires Swept(n, r, queue, seen, qh) && qh < |queue| && Fanned(n, queue[qh], queue, 256)
    ensures Swept(n, r, queue, seen, qh + 1)
  {
  }

  lemma SweptFits(n: Table, r: int, queue: seq<int>, seen: seq<bool>, qh: nat)
    requires Swept(n, r, queue, seen, qh)
    ensures |queue| <= 256
  {
    Elements(queue);
    Bounded(set k | 0 <= k < |queue| :: queue[k], 256);
  }

  lemma SweptMore(n: Table, r: int, queue: seq<int>, seen: seq<bool>, qh: nat, i: int)
    requires Tree(n) && Swept(n, r, queue, seen, qh) && qh < |queue|
    requires Live(n, i) && n[i].parent == queue[qh] && !seen[i]
    ensures Swept(n, r, queue + [i], seen[i := true], qh)
  {
    assert i != 0;
    InsideChild(n, i, r);
  }

  /** Once the subtree is gone, the table is a tree and cwd, moved out of it, is a directory. */
  lemma LeaveKeeps(n: Table, r: int, cwd: int)
    requires Tree(n) && Live(n, r) && r != 0 && IsDir(n, cwd)
    ensures Tree(Without(n, Subtree(n, r)))
    ensures IsDir(Without(n, Subtree(n, r)), if Inside(n, cwd, r) then n[r].parent else cwd)
  {
    RootOutside(n, r);
    SubtreeClosed(n, r);
    RemoveKeeps(n, Subtree(n, r));
    assert Placed(n, r);
    ParentOutside(n, r);
  }

  // ---- what the calls answer, and what is read after them ----

  /** The answers of the calls that make, open, copy, rename and remove, in terms of what the directory holds. */
  lemma Answers(n: Table, cwd: int, name: string, dst: string)
    requires Tree(n) && IsDir(n, cwd)
    ensures var bad := name == "" || name == "." || name == ".." || |name| >= 48;
            var known := exists i :: Child(n, i, cwd, name);
            var full := forall i :: 0 <= i < 256 ==> n[i].kind != Free;
            && MakeCode(n, cwd, name)
               == (if bad then InvalidName else if known then AlreadyExists else if full then NoSpace else Ok)
            && (!known ==> OpenCode(n, cwd, name) == MakeCode(n, cwd, name))
            && (!known ==> CpCode(n, cwd, name, dst) == MvCode(n, cwd, name, dst) == NotFound)
            && (!known && name != "" && name != "/" ==> RmCode(n, cwd, name) == NotFound)
    ensures forall i :: Child(n, i, cwd, name) ==>
              && OpenCode(n, cwd, name) == (if n[i].kind == File then Ok else IsADirectory)
              && CpCode(n, cwd, name, dst) == (if n[i].kind == File then MakeCode(n, cwd, dst) else IsADirectory)
              && MvCode(n, cwd, name, dst)
                 == (if MakeCode(n, cwd, dst) == NoSpace then Ok else MakeCode(n, cwd, dst))
              && (name != "/" ==>
                    RmCode(n, cwd, name)
                    == if n[i].kind == Dir && exists j :: Live(n, j) && n[j].parent == i then DirNotEmpty else Ok)
  {
    forall i | Child(n, i, cwd, name)
      ensures Lookup(n, cwd, name) == i && name != ""
    {
      assert Child(n, Lookup(n, cwd, name), cwd, name);
      assert i != 0 ==> Placed(n, i);
    }
  }

  /** Another name reads as it did if the node k alone has changed and neither was nor is of that name. */
  lemma OthersRead(n: Table, k: int, node: Node, dir: int, other: string)
    requires Siblings(n) && 0 <= k < |n| && !Child(n, k, dir, other) && !Child(n[k := node], k, dir, other)
    ensures ReadIn(n[k := node], dir, other) == ReadIn(n, dir, other)
  {
    var m := n[k := node];
    assert forall j :: Child(m, j, dir, other) <==> Child(n, j, dir, other);
    if Lookup(n, dir, other) != -1 {
      assert Child(m, Lookup(n, dir, other), dir, other);
      assert Child(n, Lookup(m, dir, other), dir, other);
    }
  }

  lemma ChildReads(n: Table, k: int, dir: int, name: string)
    requires Siblings(n) && Child(n, k, dir, name)
    ensures ReadIn(n, dir, name) == if n[k].kind.File? then Content(n[k].content) else Failed(IsADirectory)
  {
    assert Child(n, Lookup(n, dir, name), dir, name);
  }

  /** A copy reads as its original, and everything else as before. */
  lemma CopyReads(n: Table, cwd: int, src: string, dst: string, dir: int, other: string)
    requires Tree(n) && IsDir(n, cwd) && CpCode(n, cwd, src, dst) == Ok
    ensures var m := n[FirstFree(n) := Node(File, dst, cwd, n[Lookup(n, cwd, src)].content)];
            && ReadIn(m, cwd, dst) == ReadIn(n, cwd, src)
            && (dir != cwd || other != dst ==> ReadIn(m, dir, other) == ReadIn(n, dir, other))
  {
    var k, node := FirstFree(n), Node(File, dst, cwd, n[Lookup(n, cwd, src)].content);
    SizeBound(n, Lookup(n, cwd, src));
    AddKeeps(n, k, node);
    ChildReads(n[k := node], k, cwd, dst);
    if dir != cwd || other != dst {
      OthersRead(n, k, node, dir, other);
    }
  }

  /** After a rename the new name reads as the old one did, the old one is gone, and everything else is as before. */
  lemma MoveReads(n: Table, cwd: int, src: string, dst: string, dir: int, other: string)
    requires Tree(n) && IsDir(n, cwd) && MvCode(n, cwd, src, dst) == Ok
    ensures var k := Lookup(n, cwd, src);
            var m := n[k := n[k].(name := dst)];
            && ReadIn(m, cwd, dst) == ReadIn(n, cwd, src) && ReadIn(m, cwd, src) == Failed(NotFound)
            && (dir != cwd || (other != dst && other != src) ==> ReadIn(m, dir, other) == ReadIn(n, dir, other))
  {
    var k := Lookup(n, cwd, src);
    ChildOfCwd(n, k, cwd);
    RenameKeeps(n, k, dst);
    var m := n[k := n[k].(name := dst)];
    ChildReads(m, k, cwd, dst);
    forall j
      ensures !Child(m, j, cwd, src)
    {
      assert j != k ==> (Child(m, j, cwd, src) <==> Child(n, j, cwd, src));
      assert Child(n, k, cwd, src);
    }
    if dir != cwd || (other != dst && other != src) {
      OthersRead(n, k, n[k].(name := dst), dir, other);
    }
  }

  /** What has been removed is not found, and everything else is as before. */
  lemma RemoveReads(n: Table, cwd: int, name: string, dir: int, other: string)
    requires Tree(n) && IsDir(n, cwd) && RmCode(n, cwd, name) == Ok
    ensures var m := n[Lookup(n, cwd, name) := EMPTY];
            && ReadIn(m, cwd, name) == Failed(NotFound)
            && (dir != cwd || other != name ==> ReadIn(m, dir, other) == ReadIn(n, dir, other))
  {
    var k := Lookup(n, cwd, name);
    var m := n[k := EMPTY];
    forall j
      ensures !Child(m, j, cwd, name)
    {
      assert j != k ==> (Child(m, j, cwd, name) <==> Child(n, j, cwd, name));
      assert Child(n, k, cwd, name);
    }
    if dir != cwd || other != name {
      OthersRead(n, k, EMPTY, dir, other);
    }
  }

  /** What is written is what is read back, and every other name in every directory reads as before. */
  lemma WrittenReads(n: Table, cwd: int, name: string, data: string, dir: int, other: string)
    requires Tree(n) && IsDir(n, cwd) && OpenCode(n, cwd, name) == Ok && |data| < 8192
    ensures var m := n[Slot(n, cwd, name) := Node(File, name, cwd, data)];
            && ReadIn(m, cwd, name) == Content(data)
            && (dir != cwd || other != name ==> ReadIn(m, dir, other) == ReadIn(n, dir, other))
  {
    var k := Slot(n, cwd, name);
    var m := n[k := Node(File, name, cwd, data)];
    WrittenTree(n, cwd, name, data);
    assert Child(m, k, cwd, name);
    assert Child(m, Lookup(m, cwd, name), cwd, name);
    if dir != cwd || other != name {
      forall j
        ensures Child(m, j, dir, other) <==> Child(n, j, dir, other)
      {
        assert Child(n, k, cwd, name) || n[k].kind.Free?;
      }
      var a, b := Lookup(n, dir, other), Lookup(m, dir, other);
      assert a != -1 ==> Child(m, a, dir, other) && a == b && a != k;
    }
  }

  lemma WrittenTree(n: Table, cwd: int, name: string, data: string)
    requires Tree(n) && IsDir(n, cwd) && OpenCode(n, cwd, name) == Ok && |data| < 8192
    ensures Tree(n[Slot(n, cwd, name) := Node(File, name, cwd, data)])
  {
    var k := Slot(n, cwd, name);
    if Lookup(n, cwd, name) == -1 {
      AddKeeps(n, k, Node(File, name, cwd, data));
    } else {
      RewriteKeeps(n, k, data);
    }
  }
}
