/** The kernel heap as a list of blocks: the headers in memory that make it up, and what merging does to it. */
module HeapBlocks {
  import opened Bytes

  const START := 0x20_0000
  const SIZE := 0x10_0000

  /** size is the payload; every block has a header of twelve bytes before it. */
  datatype Blk = Blk(size: nat, free: bool)

  ghost function Span(bs: seq<Blk>): nat {
    if bs == [] then 0 else 12 + bs[0].size + Span(bs[1..])
  }

  /** The address in a header that says the next block is at offset z. */
  function Link(z: nat): nat {
    if z == SIZE then 0 else START + z
  }

  function Flag(free: bool): nat {
    if free then 1 else 0
  }

  ghost predicate HeaderIs(mem: seq<byte>, a: nat, b: Blk) {
    && a + 12 <= |mem|
    && Le32(mem, a) == b.size
    && Le32(mem, a + 4) == Flag(b.free)
    && Le32(mem, a + 8) == Link(a + 12 + b.size)
  }

  /** From offset a on, memory holds the blocks bs back to back, each header naming the next. */
  ghost predicate Seg(mem: seq<byte>, a: nat, bs: seq<Blk>)
    decreases |bs|
  {
    bs == [] || (HeaderIs(mem, a, bs[0]) && Seg(mem, a + 12 + bs[0].size, bs[1..]))
  }

  lemma {:induction false} SpanConcat(xs: seq<Blk>, ys: seq<Blk>)
    ensures Span(xs + ys) == Span(xs) + Span(ys)
    decreases |xs|
  {
    if xs == [] {
      assert xs + ys == ys;
    } else {
      SpanConcat(xs[1..], ys);
      assert (xs + ys)[1..] == xs[1..] + ys;
    }
  }

  lemma {:induction false} SegConcat(mem: seq<byte>, a: nat, xs: seq<Blk>, ys: seq<Blk>)
    ensures Seg(mem, a, xs + ys) <==> Seg(mem, a, xs) && Seg(mem, a + Span(xs), ys)
    decreases |xs|
  {
    if xs == [] {
      assert xs + ys == ys;
    } else {
      SegConcat(mem, a + 12 + xs[0].size, xs[1..], ys);
      assert (xs + ys)[1..] == xs[1..] + ys;
    }
  }

  /** Memory that agrees over the blocks, headers and payloads, holds the same blocks. */
  lemma {:induction false} SegFrame(mem: seq<byte>, mem': seq<byte>, a: nat, bs: seq<Blk>)
    requires Seg(mem, a, bs) && |mem'| == |mem|
    requires forall i :: a <= i < a + Span(bs) && i < |mem| ==> mem'[i] == mem[i]
    ensures Seg(mem', a, bs)
    decreases |bs|
  {
    if bs != [] {
      SegFrame(mem, mem', a + 12 + bs[0].size, bs[1..]);
    }
  }

  /** One block in the middle of the list: its own header, and the blocks around it. */
  lemma SegAt(mem: seq<byte>, a: nat, pre: seq<Blk>, b: Blk, post: seq<Blk>)
    ensures Seg(mem, a, pre + [b] + post)
            <==> Seg(mem, a, pre) && HeaderIs(mem, a + Span(pre), b) && Seg(mem, a + Span(pre) + 12 + b.size, post)
    ensures Span(pre + [b] + post) == Span(pre) + 12 + b.size + Span(post)
  {
    SegConcat(mem, a, pre, [b] + post);
    SpanConcat(pre, [b] + post);
    assert pre + [b] + post == pre + ([b] + post);
    assert ([b] + post)[1..] == post;
  }

  // ---- live blocks ----

  /** Which pointers are live, and the size behind each, for the blocks from offset a on. */
  ghost function LiveFrom(bs: seq<Blk>, a: nat): map<nat, nat> {
    if bs == [] then map[]
    else
      var rest := LiveFrom(bs[1..], a + 12 + bs[0].size);
      if bs[0].free then rest else rest[START + a + 12 := bs[0].size]
  }

  lemma {:induction false} LiveBounds(bs: seq<Blk>, a: nat)
    ensures forall p :: p in LiveFrom(bs, a) ==> START + a + 12 <= p && p + LiveFrom(bs, a)[p] <= START + a + Span(bs)
    decreases |bs|
  {
    if bs != [] {
      LiveBounds(bs[1..], a + 12 + bs[0].size);
    }
  }

  /** Live payloads lie apart from one another, with a header between them. */
  lemma {:induction false} LiveApart(bs: seq<Blk>, a: nat)
    ensures forall p, q :: p in LiveFrom(bs, a) && q in LiveFrom(bs, a) && p < q ==> p + LiveFrom(bs, a)[p] + 12 <= q
    decreases |bs|
  {
    if bs != [] {
      LiveApart(bs[1..], a + 12 + bs[0].size);
      LiveBounds(bs[1..], a + 12 + bs[0].size);
    }
  }

  lemma {:induction false} LiveConcat(xs: seq<Blk>, ys: seq<Blk>, a: nat)
    ensures LiveFrom(xs + ys, a) == LiveFrom(xs, a) + LiveFrom(ys, a + Span(xs))
    ensures LiveFrom(xs, a).Keys !! LiveFrom(ys, a + Span(xs)).Keys
    decreases |xs|
  {
    LiveBounds(xs, a);
    LiveBounds(ys, a + Span(xs));
    if xs == [] {
      assert xs + ys == ys;
    } else {
      LiveConcat(xs[1..], ys, a + 12 + xs[0].size);
      assert (xs + ys)[1..] == xs[1..] + ys;
    }
  }

  /** A block in the middle adds its pointer if live, and nothing if free. */
  lemma LiveAt(pre: seq<Blk>, b: Blk, post: seq<Blk>)
    ensures var p := START + Span(pre) + 12;
            var others := LiveFrom(pre, 0) + LiveFrom(post, Span(pre) + 12 + b.size);
            p !in others && LiveFrom(pre + [b] + post, 0) == if b.free then others else others[p := b.size]
  {
    LiveConcat(pre, [b] + post, 0);
    assert pre + [b] + post == pre + ([b] + post);
    assert ([b] + post)[1..] == post;
    LiveBounds(pre, 0);
    LiveBounds(post, Span(pre) + 12 + b.size);
  }

  // ---- sums ----

  ghost function Used(bs: seq<Blk>): nat {
    if bs == [] then 0 else (if bs[0].free then 0 else bs[0].size) + Used(bs[1..])
  }

  ghost function FreeBytes(bs: seq<Blk>): nat {
    if bs == [] then 0 else (if bs[0].free then bs[0].size else 0) + FreeBytes(bs[1..])
  }

  lemma {:induction false} SumsConcat(xs: seq<Blk>, ys: seq<Blk>)
    ensures Used(xs + ys) == Used(xs) + Used(ys) && FreeBytes(xs + ys) == FreeBytes(xs) + FreeBytes(ys)
    decreases |xs|
  {
    if xs == [] {
      assert xs + ys == ys;
    } else {
      SumsConcat(xs[1..], ys);
      assert (xs + ys)[1..] == xs[1..] + ys;
    }
  }

  /** Headers, used bytes and free bytes fill the window. */
  lemma {:induction false} SumsFill(bs: seq<Blk>)
    ensures Used(bs) + FreeBytes(bs) + 12 * |bs| == Span(bs)
  {
    if bs != [] {
      SumsFill(bs[1..]);
    }
  }

  // ---- merging ----

  ghost predicate Merged(bs: seq<Blk>) {
    forall i :: 0 <= i < |bs| - 1 ==> !(bs[i].free && bs[i + 1].free)
  }

  /** What the pass over the list comes to, with `done` behind it, cur looked at and post still to come. */
  ghost function Walk(done: seq<Blk>, cur: Blk, post: seq<Blk>): seq<Blk>
    decreases |post|
  {
    if post == [] then done + [cur]
    else if cur.free && post[0].free then Walk(done, Joined(cur, post[0]), post[1..])
    else Walk(done + [cur], post[0], post[1..])
  }

  function Joined(x: Blk, y: Blk): Blk {
    Blk(x.size + 12 + y.size, true)
  }

  ghost function Coalesce(bs: seq<Blk>): seq<Blk> {
    if bs == [] then [] else Walk([], bs[0], bs[1..])
  }

  lemma {:induction false} NothingLive(bs: seq<Blk>, a: nat)
    requires LiveFrom(bs, a) == map[]
    ensures forall i :: 0 <= i < |bs| ==> bs[i].free
    decreases |bs|
  {
    if bs != [] {
      assert !bs[0].free ==> START + a + 12 in LiveFrom(bs, a);
      NothingLive(bs[1..], a + 12 + bs[0].size);
    }
  }

  /** With nothing live, the merged list is the single block the heap started with. */
  lemma AllFree(bs: seq<Blk>)
    requires bs != [] && Merged(bs) && Span(bs) == SIZE && LiveFrom(bs, 0) == map[]
    ensures bs == [Blk(SIZE - 12, true)] && Used(bs) == 0
  {
    NothingLive(bs, 0);
    assert bs[0].free;
    assert bs[1..] == [];
  }

  // ---- finding blocks ----

  predicate Fits(b: Blk, n: nat) {
    b.free && b.size >= n
  }

  /** Index of the first block that n bytes fit into, or the number of blocks. */
  ghost function FirstFit(bs: seq<Blk>, n: nat): (k: nat)
    ensures k <= |bs|
  {
    if bs == [] || Fits(bs[0], n) then 0 else 1 + FirstFit(bs[1..], n)
  }

  lemma {:induction false} FirstFitIs(bs: seq<Blk>, n: nat, k: nat)
    requires k <= |bs| && (forall i :: 0 <= i < k ==> !Fits(bs[i], n)) && (k < |bs| ==> Fits(bs[k], n))
    ensures FirstFit(bs, n) == k
    decreases |bs|
  {
    if k > 0 {
      FirstFitIs(bs[1..], n, k - 1);
    }
  }

  /** A live pointer is the payload of one block of the list. */
  lemma {:induction false} LiveIndex(bs: seq<Blk>, a: nat, p: nat) returns (k: nat)
    requires p in LiveFrom(bs, a)
    ensures k < |bs| && !bs[k].free && bs[k].size == LiveFrom(bs, a)[p] && p == START + a + Span(bs[..k]) + 12
    decreases |bs|
  {
    if !bs[0].free && p == START + a + 12 {
      LiveBounds(bs[1..], a + 12 + bs[0].size);
      k := 0;
    } else {
      k := LiveIndex(bs[1..], a + 12 + bs[0].size, p);
      k := k + 1;
      assert bs[..k][1..] == bs[1..][..k - 1];
    }
  }

  /** Headers lie outside every live payload. */
  lemma HeaderClear(pre: seq<Blk>, b: Blk, post: seq<Blk>)
    ensures var live := LiveFrom(pre + [b] + post, 0);
            forall q :: q in live ==> q + live[q] <= START + Span(pre) || q >= START + Span(pre) + 12
  {
    LiveAt(pre, b, post);
    LiveBounds(pre, 0);
    LiveBounds(post, Span(pre) + 12 + b.size);
  }

  lemma Around(mem: seq<byte>, mem': seq<byte>, pre: seq<Blk>, z: nat, post: seq<Blk>)
    requires Seg(mem, 0, pre) && Seg(mem, z, post) && Span(pre) <= z && |mem'| == |mem|
    requires forall i :: 0 <= i < |mem| && !(Span(pre) <= i < z) ==> mem'[i] == mem[i]
    ensures Seg(mem', 0, pre) && Seg(mem', z, post)
  {
    SegFrame(mem, mem', 0, pre);
    SegFrame(mem, mem', z, post);
  }

  /** Memory is tiled by the blocks pre, then b, then post. */
  ghost predicate Parts(mem: seq<byte>, pre: seq<Blk>, b: Blk, post: seq<Blk>) {
    && |mem| == SIZE
    && Span(pre) + 12 + b.size + Span(post) == SIZE
    && Seg(mem, 0, pre) && HeaderIs(mem, Span(pre), b) && Seg(mem, Span(pre) + 12 + b.size, post)
  }

  ghost predicate Tiling(mem: seq<byte>, bs: seq<Blk>) {
    |mem| == SIZE && bs != [] && Span(bs) == SIZE && Seg(mem, 0, bs)
  }

  lemma PartsTile(mem: seq<byte>, pre: seq<Blk>, b: Blk, post: seq<Blk>)
    ensures Parts(mem, pre, b, post) <==> Tiling(mem, pre + [b] + post)
  {
    SegAt(mem, 0, pre, b, post);
  }

  lemma PartsFrom(bs: seq<Blk>, k: nat)
    requires k < |bs|
    ensures bs == bs[..k] + [bs[k]] + bs[k + 1..]
  {
  }

  /** Cutting b in two, or back: seen from x the list is pre, x, then y and post. */
  lemma PartsCut(mem: seq<byte>, mem': seq<byte>, pre: seq<Blk>, b: Blk, x: Blk, y: Blk, post: seq<Blk>)
    requires Parts(mem, pre, b, post) && |mem'| == |mem| && x.size + 12 + y.size == b.size
    requires HeaderIs(mem', Span(pre), x) && HeaderIs(mem', Span(pre) + 12 + x.size, y)
    requires forall i :: 0 <= i < |mem| && !(Span(pre) <= i < Span(pre) + 12 + b.size) ==> mem'[i] == mem[i]
    ensures Parts(mem', pre, x, [y] + post)
  {
    Around(mem, mem', pre, Span(pre) + 12 + b.size, post);
    assert ([y] + post)[1..] == post;
  }

  /** A new header in place of b's, for a block that ends where b did. */
  lemma PartsSwap(mem: seq<byte>, mem': seq<byte>, pre: seq<Blk>, b: Blk, b': Blk, post: seq<Blk>)
    requires Parts(mem, pre, b, post) && |mem'| == |mem| && b'.size == b.size && HeaderIs(mem', Span(pre), b')
    requires forall i :: 0 <= i < |mem| && !(Span(pre) <= i < Span(pre) + 12 + b.size) ==> mem'[i] == mem[i]
    ensures Parts(mem', pre, b', post)
  {
    Around(mem, mem', pre, Span(pre) + 12 + b.size, post);
  }

  /** One header over two neighbours. */
  lemma PartsJoin(mem: seq<byte>, mem': seq<byte>, pre: seq<Blk>, x: Blk, y: Blk, z: Blk, post: seq<Blk>)
    requires Parts(mem, pre, x, [y] + post) && |mem'| == |mem| && z.size == x.size + 12 + y.size
    requires HeaderIs(mem', Span(pre), z)
    requires forall i :: 0 <= i < |mem| && !(Span(pre) <= i < Span(pre) + 12) ==> mem'[i] == mem[i]
    ensures Parts(mem', pre, z, post)
  {
    assert ([y] + post)[1..] == post;
    Around(mem, mem', pre, Span(pre) + 12 + z.size, post);
  }

  // ---- what taking and giving back a block does to the list ----

  lemma SumsAt(pre: seq<Blk>, b: Blk, post: seq<Blk>)
    ensures Used(pre + [b] + post) == Used(pre) + (if b.free then 0 else b.size) + Used(post)
  {
    SumsConcat(pre, [b] + post);
    assert pre + [b] + post == pre + ([b] + post);
    assert ([b] + post)[1..] == post;
  }

  /** The size a request for n bytes gets out of a block, and the blocks that come of it. */
  function Granted(b: Blk, n: nat): nat {
    if b.size < n + 20 then b.size else n
  }

  ghost function AfterTaking(b: Blk, n: nat, post: seq<Blk>): seq<Blk>
    requires b.size >= n
  {
    if b.size < n + 20 then post else [Blk(b.size - n - 12, true)] + post
  }

  lemma TakeLive(pre: seq<Blk>, b: Blk, post: seq<Blk>, n: nat)
    requires b.free && b.size >= n
    ensures var p, live := START + Span(pre) + 12, LiveFrom(pre + [b] + post, 0);
            && p !in live
            && LiveFrom(pre + [Blk(Granted(b, n), false)] + AfterTaking(b, n, post), 0) == live[p := Granted(b, n)]
  {
    LiveAt(pre, b, post);
    LiveAt(pre, Blk(Granted(b, n), false), AfterTaking(b, n, post));
    if b.size >= n + 20 {
      assert AfterTaking(b, n, post)[1..] == post;
    }
  }

  lemma TakeUsed(pre: seq<Blk>, b: Blk, post: seq<Blk>, n: nat)
    requires b.free && b.size >= n
    ensures Used(pre + [Blk(Granted(b, n), false)] + AfterTaking(b, n, post)) == Used(pre + [b] + post) + Granted(b, n)
  {
    SumsAt(pre, b, post);
    SumsAt(pre, Blk(Granted(b, n), false), AfterTaking(b, n, post));
    if b.size >= n + 20 {
      assert AfterTaking(b, n, post)[1..] == post;
    }
  }

  lemma TakeMerged(pre: seq<Blk>, b: Blk, post: seq<Blk>, n: nat)
    requires Merged(pre + [b] + post) && b.free && b.size >= n
    ensures Merged(pre + [Blk(Granted(b, n), false)] + AfterTaking(b, n, post))
  {
    var bs := pre + [b] + post;
    var bs' := pre + [Blk(Granted(b, n), false)] + AfterTaking(b, n, post);
    var k := |pre|;
    forall i | 0 <= i < |bs'| - 1
      ensures !(bs'[i].free && bs'[i + 1].free)
    {
      if i + 1 < k {
        assert !(bs[i].free && bs[i + 1].free);
      } else if i > k {
        var j := i + |bs| - |bs'|;
        assert bs'[i + 1] == bs[j + 1];
        assert !(bs[j].free && bs[j + 1].free);
      }
    }
  }

  /** Nothing live lies in a free block. */
  lemma FreeClear(pre: seq<Blk>, b: Blk, post: seq<Blk>)
    requires b.free
    ensures var live := LiveFrom(pre + [b] + post, 0);
            forall q :: q in live ==> q + live[q] <= START + Span(pre) || q >= START + Span(pre) + 12 + b.size
  {
    LiveAt(pre, b, post);
    LiveBounds(pre, 0);
    LiveBounds(post, Span(pre) + 12 + b.size);
  }

  // ---- the merging pass, step by step ----

  /** Moving on to the next block. */
  lemma PartsShift(mem: seq<byte>, pre: seq<Blk>, b: Blk, post: seq<Blk>)
    requires Parts(mem, pre, b, post) && post != []
    ensures Parts(mem, pre + [b], post[0], post[1..])
  {
    assert pre + [b] + [post[0]] + post[1..] == pre + [b] + post;
    PartsTile(mem, pre, b, post);
    PartsTile(mem, pre + [b], post[0], post[1..]);
  }

  /** The live pointers of a list seen as pre, b and post. */
  ghost function LiveParts(pre: seq<Blk>, b: Blk, post: seq<Blk>): map<nat, nat> {
    var others := LiveFrom(pre, 0) + LiveFrom(post, Span(pre) + 12 + b.size);
    if b.free then others else others[START + Span(pre) + 12 := b.size]
  }

  /** Joining two free neighbours changes nothing for the live. */
  lemma JoinLive(pre: seq<Blk>, x: Blk, post: seq<Blk>)
    requires post != [] && x.free && post[0].free
    ensures LiveParts(pre, Joined(x, post[0]), post[1..]) == LiveParts(pre, x, post)
  {
  }

  lemma ShiftLive(pre: seq<Blk>, x: Blk, post: seq<Blk>)
    requires post != []
    ensures LiveParts(pre + [x], post[0], post[1..]) == LiveParts(pre, x, post)
  {
    LiveIs(pre, x, post);
    LiveIs(pre + [x], post[0], post[1..]);
    assert pre + [x] + [post[0]] + post[1..] == pre + [x] + post;
  }

  lemma LiveIs(pre: seq<Blk>, b: Blk, post: seq<Blk>)
    ensures LiveFrom(pre + [b] + post, 0) == LiveParts(pre, b, post)
  {
    LiveAt(pre, b, post);
  }

  lemma {:induction false} WalkLive(done: seq<Blk>, cur: Blk, post: seq<Blk>)
    ensures LiveFrom(Walk(done, cur, post), 0) == LiveParts(done, cur, post)
    decreases |post|
  {
    if post == [] {
      LiveIs(done, cur, []);
      assert done + [cur] + [] == done + [cur];
    } else if cur.free && post[0].free {
      WalkLive(done, Joined(cur, post[0]), post[1..]);
      JoinLive(done, cur, post);
    } else {
      WalkLive(done + [cur], post[0], post[1..]);
      ShiftLive(done, cur, post);
    }
  }

  lemma {:induction false} WalkMerges(done: seq<Blk>, cur: Blk, post: seq<Blk>)
    requires Merged(done + [cur])
    ensures Merged(Walk(done, cur, post)) && Walk(done, cur, post) != []
    decreases |post|
  {
    if post != [] {
      if cur.free && post[0].free {
        StillMerged(done, cur, Joined(cur, post[0]));
        WalkMerges(done, Joined(cur, post[0]), post[1..]);
      } else {
        WalkMerges(done + [cur], post[0], post[1..]);
      }
    }
  }

  lemma StillMerged(done: seq<Blk>, x: Blk, y: Blk)
    requires Merged(done + [x]) && x.free == y.free
    ensures Merged(done + [y])
  {
    var a, b := done + [x], done + [y];
    forall i | 0 <= i < |b| - 1
      ensures !(b[i].free && b[i + 1].free)
    {
      assert !(a[i].free && a[i + 1].free);
    }
  }

  lemma {:induction false} WalkSums(done: seq<Blk>, cur: Blk, post: seq<Blk>)
    ensures Span(Walk(done, cur, post)) == Span(done) + 12 + cur.size + Span(post)
    ensures Used(Walk(done, cur, post)) == Used(done) + (if cur.free then 0 else cur.size) + Used(post)
    decreases |post|
  {
    SpanConcat(done, [cur]);
    SumsConcat(done, [cur]);
    if post != [] {
      if cur.free && post[0].free {
        WalkSums(done, Joined(cur, post[0]), post[1..]);
      } else {
        WalkSums(done + [cur], post[0], post[1..]);
      }
    }
  }

  /** The pass leaves no two free neighbours and keeps the extent, the bytes in use and the live pointers. */
  lemma CoalesceMerges(bs: seq<Blk>)
    requires bs != []
    ensures Merged(Coalesce(bs)) && Coalesce(bs) != [] && Span(Coalesce(bs)) == Span(bs)
            && Used(Coalesce(bs)) == Used(bs)
    ensures LiveFrom(Coalesce(bs), 0) == LiveFrom(bs, 0)
  {
    WalkMerges([], bs[0], bs[1..]);
    WalkSums([], bs[0], bs[1..]);
    WalkLive([], bs[0], bs[1..]);
    LiveIs([], bs[0], bs[1..]);
    assert [] + [bs[0]] + bs[1..] == bs;
  }

  /** Changing the flag of a live block to free takes its pointer out. */
  lemma ReleaseLive(pre: seq<Blk>, b: Blk, post: seq<Blk>)
    requires !b.free
    ensures var p, live := START + Span(pre) + 12, LiveFrom(pre + [b] + post, 0);
            p in live && LiveFrom(pre + [b.(free := true)] + post, 0) == live - {p}
    ensures Used(pre + [b.(free := true)] + post) == Used(pre + [b] + post) - b.size
  {
    LiveAt(pre, b, post);
    LiveAt(pre, b.(free := true), post);
    SumsAt(pre, b, post);
    SumsAt(pre, b.(free := true), post);
  }
}
