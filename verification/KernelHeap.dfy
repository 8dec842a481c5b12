/** The first-fit kernel allocator, working in place on its one-megabyte window. */
module KernelHeap {
  import opened Bytes
  import opened HeapBlocks

  /** align_up in 32-bit arithmetic. */
  function AlignUp(n: nat): (r: nat)
    requires n < 0x1_0000_0000
  {
    (n + 7) % 0x1_0000_0000 / 8 * 8
  }

  /** Rounding up gives at least what was asked for exactly when it does not wrap around. */
  lemma AlignWraps(n: nat)
    requires n < 0x1_0000_0000
    ensures AlignUp(n) % 8 == 0 && AlignUp(n) < n + 8
    ensures AlignUp(n) >= n <==> n <= 0xFFFF_FFF8
    ensures n > 0xFFFF_FFF8 ==> AlignUp(n) == 0
  {
    var w := if n + 7 < 0x1_0000_0000 then n + 7 else n + 7 - 0x1_0000_0000;
    assert (n + 7) % 0x1_0000_0000 == w;
    assert w / 8 * 8 <= w < w / 8 * 8 + 8;
  }

  function Less(a: nat, b: nat): nat {
    if a >= b then a - b else 0
  }

  /** Between two states of memory, the payloads of all live pointers in m are the same. */
  ghost predicate SamePayloads(mem: seq<byte>, mem': seq<byte>, m: map<nat, nat>) {
    && |mem'| == |mem|
    && forall q, i :: q in m && q <= START + i < q + m[q] && 0 <= i < |mem| ==> mem'[i] == mem[i]
  }

  /** The n bytes at pointer r of mem' are those that were at pointer p of mem. */
  ghost predicate Copied(mem: seq<byte>, p: nat, mem': seq<byte>, r: nat, n: nat) {
    && START <= p && START <= r && p - START + n <= |mem| && r - START + n <= |mem'|
    && mem'[r - START..r - START + n] == mem[p - START..p - START + n]
  }

  /** p lies behind twelve bytes of the window that, read as a header, say that their block is free. */
  predicate MarkedFree(mem: seq<byte>, p: nat) {
    START + 12 <= p <= START + SIZE && |mem| == SIZE && Le32(mem, p - START - 8) != 0
  }

  /** A request for n bytes finds no block at all, or gets one of at least has bytes. */
  ghost predicate RoomFor(bs: seq<Blk>, n: nat, has: nat) {
    var k := FirstFit(bs, n);
    k == |bs| || Granted(bs[k], n) >= has
  }

  class Heap {
    var mem: seq<byte>
    var used: nat
    ghost var blocks: seq<Blk>

    ghost predicate Valid()
      reads this
    {
      Tiling(mem, blocks) && Merged(blocks) && used == Used(blocks)
    }

    /** The live pointers and their sizes: the abstract heap. */
    ghost function Live(): map<nat, nat>
      reads this
    {
      LiveFrom(blocks, 0)
    }

    /** A store of one 32-bit word. */
    method Poke(a: nat, w: nat)
      requires a + 4 <= |mem| && w < 0x1_0000_0000
      modifies this`mem
      ensures |mem| == |old(mem)| && Le32(mem, a) == w
      ensures forall i :: 0 <= i < |mem| && !(a <= i < a + 4) ==> mem[i] == old(mem)[i]
    {
      mem := Store32(mem, a, w);
    }

    /** A store of one header. */
    method PokeHeader(a: nat, size: nat, flag: nat, next: nat)
      requires a + 12 <= |mem| && size < 0x1_0000_0000 && flag < 0x1_0000_0000 && next < 0x1_0000_0000
      modifies this`mem
      ensures |mem| == |old(mem)| && Le32(mem, a) == size && Le32(mem, a + 4) == flag && Le32(mem, a + 8) == next
      ensures forall i :: 0 <= i < |mem| && !(a <= i < a + 12) ==> mem[i] == old(mem)[i]
    {
      Poke(a, size);
      Poke(a + 4, flag);
      Poke(a + 8, next);
    }

    /** kmalloc_init: one free block fills the window. */
    constructor ()
      ensures Valid() && Live() == map[] && blocks == [Blk(0x10_0000 - 12, true)] && used == 0
    {
      mem := Zeros(SIZE);
      used := 0;
      blocks := [Blk(SIZE - 12, true)];
      new;
      PokeHeader(0, SIZE - 12, 1, 0);
      assert HeaderIs(mem, 0, blocks[0]);
      OneFree(mem, blocks);
    }

    /** split_block: cuts n bytes off the front of b if what remains is worth a block of its own. */
    method SplitBlock(a: nat, n: nat, ghost pre: seq<Blk>, ghost b: Blk, ghost post: seq<Blk>)
      requires Parts(mem, pre, b, post) && a == Span(pre) && b.free && b.size >= n
      modifies this`mem
      ensures b.size < n + 20 ==> mem == old(mem)
      ensures b.size >= n + 20 ==> Parts(mem, pre, Blk(n, true), [Blk(b.size - n - 12, true)] + post)
      ensures |mem| == SIZE && forall i :: 0 <= i < SIZE && !(a <= i < a + 12 + b.size) ==> mem[i] == old(mem)[i]
    {
      var size, next := Le32(mem, a), Le32(mem, a + 8);
      if 12 + size < 12 + n + 12 + 8 {
        return;
      }
      ghost var x, y := Blk(n, true), Blk(b.size - n - 12, true);
      var c := a + 12 + n;
      PokeHeader(c, size - n - 12, 1, next);
      Poke(a, n);
      Poke(a + 8, START + c);
      assert HeaderIs(mem, a, x) && HeaderIs(mem, c, y);
      PartsCut(old(mem), mem, pre, b, x, y, post);
    }

    /** Sets the free flag of one block. */
    method SetFlag(a: nat, free: bool, ghost pre: seq<Blk>, ghost b: Blk, ghost post: seq<Blk>)
      requires Parts(mem, pre, b, post) && a == Span(pre)
      modifies this`mem
      ensures Parts(mem, pre, b.(free := free), post)
      ensures forall i :: 0 <= i < SIZE && !(a <= i < a + 12) ==> mem[i] == old(mem)[i]
    {
      Poke(a + 4, Flag(free));
      assert HeaderIs(mem, a, b.(free := free));
      PartsSwap(old(mem), mem, pre, b, b.(free := free), post);
    }

    /** kmalloc: the first free block that is large enough; 0 when there is none. */
    method Kmalloc(request: nat) returns (p: nat)
      requires Valid() && request < 0x1_0000_0000
      modifies this
      ensures Valid()
      ensures var n, k := AlignUp(request), FirstFit(old(blocks), AlignUp(request));
              if request == 0 || k == |old(blocks)| then p == 0
              else && p == START + Span(old(blocks)[..k]) + 12 && p !in old(Live())
                   && Live() == old(Live())[p := Granted(old(blocks)[k], n)]
      ensures request != 0 && p == 0 ==>
                forall i :: 0 <= i < |blocks| && blocks[i].free ==> blocks[i].size < AlignUp(request)
      ensures p != 0 ==>
                exists k :: && 0 <= k < |old(blocks)| && p == 0x20_0000 + Span(old(blocks)[..k]) + 12
                            && old(blocks)[k].free && old(blocks)[k].size >= AlignUp(request)
                            && forall i :: 0 <= i < k && old(blocks)[i].free ==> old(blocks)[i].size < AlignUp(request)
      ensures p != 0 ==> p in Live() && Live()[p] >= AlignUp(request)
      ensures p != 0 ==> (Live()[p] >= request <==> request <= 0xFFFF_FFF8)
      ensures p == 0 ==> mem == old(mem) && blocks == old(blocks)
      ensures SamePayloads(old(mem), mem, old(Live()))
    {
      if request == 0 {
        return 0;
      }
      var n := AlignUp(request);
      AlignWraps(request);
      ghost var k := 0;
      var b := START;
      while b != 0
        invariant Valid() && mem == old(mem) && blocks == old(blocks) && used == old(used)
        invariant k <= |blocks| && b == (if k == |blocks| then 0 else START + Span(blocks[..k]))
        invariant forall i :: 0 <= i < k ==> !HeapBlocks.Fits(blocks[i], n)
        decreases |blocks| - k
      {
        Step(mem, blocks, k);
        var a := b - START;
        if Le32(mem, a + 4) != 0 && Le32(mem, a) >= n {
          FirstFitIs(blocks, n, k);
          Grant(a, n, blocks[..k], blocks[k], blocks[k + 1..]);
          LiveBounds(blocks, 0);
          return b + 12;
        }
        b, k := Le32(mem, a + 8), k + 1;
      }
      FirstFitIs(blocks, n, k);
      return 0;
    }

    /** Takes n bytes of the free block at a, as kmalloc does once it has found it. */
    method Grant(a: nat, n: nat, ghost pre: seq<Blk>, ghost b: Blk, ghost post: seq<Blk>)
      requires Valid() && blocks == pre + [b] + post && a == Span(pre) && b.free && b.size >= n
      modifies this
      ensures Valid()
      ensures START + a + 12 !in old(Live()) && Live() == old(Live())[START + a + 12 := Granted(b, n)]
      ensures SamePayloads(old(mem), mem, old(Live()))
    {
      PartsTile(mem, pre, b, post);
      SplitBlock(a, n, pre, b, post);
      ghost var x, rest := Blk(Granted(b, n), true), AfterTaking(b, n, post);
      SetFlag(a, false, pre, x, rest);
      used := used + Le32(mem, a);
      TakeLive(pre, b, post, n);
      TakeUsed(pre, b, post, n);
      TakeMerged(pre, b, post, n);
      FreeClear(pre, b, post);
      PartsTile(mem, pre, Blk(Granted(b, n), false), rest);
      blocks := pre + [Blk(Granted(b, n), false)] + rest;
    }

    /** coalesce: one pass that joins neighbouring free blocks. */
    method Coalesce(ghost bs: seq<Blk>)
      requires Tiling(mem, bs)
      modifies this`mem
      ensures Tiling(mem, HeapBlocks.Coalesce(bs))
      ensures SamePayloads(old(mem), mem, LiveFrom(bs, 0)) && FlagsKept(old(mem), mem, bs)
    {
      ghost var done: seq<Blk>, cur, post := [], bs[0], bs[1..];
      MergingStart(mem, bs);
      var b := START;
      var next := Le32(mem, b - START + 8);
      while next != 0
        invariant Merging(old(mem), mem, bs, done, cur, post)
        invariant b == START + Span(done) && next == Link(Span(done) + 12 + cur.size)
        decreases |post|
      {
        b, next, done, cur, post := MergeNext(b, next, old(mem), bs, done, cur, post);
      }
      MergingEnd(old(mem), mem, bs, done, cur, post);
    }

    /** One round of the pass: b takes over the next block if both are free, and is left behind otherwise. */
    method MergeNext(b: nat, next: nat, ghost mem0: seq<byte>, ghost bs: seq<Blk>,
                     ghost done: seq<Blk>, ghost cur: Blk, ghost post: seq<Blk>)
      returns (b': nat, next': nat, ghost done': seq<Blk>, ghost cur': Blk, ghost post': seq<Blk>)
      requires Merging(mem0, mem, bs, done, cur, post)
      requires b == START + Span(done) && next == Link(Span(done) + 12 + cur.size) && next != 0
      modifies this`mem
      ensures Merging(mem0, mem, bs, done', cur', post') && |post'| < |post|
      ensures b' == START + Span(done') && next' == Link(Span(done') + 12 + cur'.size)
    {
      MergingHas(mem0, mem, bs, done, cur, post);
      var a, c := b - START, next - START;
      if Le32(mem, a + 4) != 0 && Le32(mem, c + 4) != 0 {
        Join(a, c, done, cur, post);
        MergingJoin(mem0, old(mem), mem, bs, done, cur, post);
        b', done', cur', post' := b, done, Joined(cur, post[0]), post[1..];
      } else {
        MergingShift(mem0, mem, bs, done, cur, post);
        b', done', cur', post' := next, done + [cur], post[0], post[1..];
      }
      MergingNext(mem0, mem, bs, done', cur', post');
      next' := Le32(mem, b' - START + 8);
    }

    /** b takes over the block after it. */
    method Join(a: nat, c: nat, ghost pre: seq<Blk>, ghost x: Blk, ghost post: seq<Blk>)
      requires Parts(mem, pre, x, post) && post != [] && a == Span(pre) && c == a + 12 + x.size && x.free
      modifies this`mem
      ensures Parts(mem, pre, Joined(x, post[0]), post[1..])
      ensures forall i :: 0 <= i < SIZE && !(a <= i < a + 4 || a + 8 <= i < a + 12) ==> mem[i] == old(mem)[i]
    {
      ghost var y, z := post[0], Joined(x, post[0]);
      var size, next := Le32(mem, c), Le32(mem, c + 8);
      Poke(a, Le32(mem, a) + 12 + size);
      Poke(a + 8, next);
      assert HeaderIs(mem, a, z);
      assert [y] + post[1..] == post;
      PartsJoin(old(mem), mem, pre, x, y, z, post[1..]);
    }

    /**
     * kfree, on null, a live pointer or a pointer behind a header marked as free. Afterwards that header is
     * marked, even if its block has been merged into another one, so freeing a pointer twice is once.
     */
    method Kfree(p: nat)
      requires Valid() && (p == 0 || p in Live() || MarkedFree(mem, p))
      modifies this
      ensures Valid()
      ensures Live() == old(Live()) - {p} && (p == 0 || MarkedFree(mem, p))
      ensures p !in old(Live()) ==> mem == old(mem) && blocks == old(blocks)
      ensures SamePayloads(old(mem), mem, old(Live()) - {p})
    {
      LiveBounds(blocks, 0);
      if p == 0 {
        assert Live() - {p} == Live();
        return;
      }
      LiveHeader(mem, blocks, p);
      var a := p - 12 - START;
      if Le32(mem, a + 4) != 0 {
        assert Live() - {p} == Live();
        return;
      }
      ghost var k := LiveIndex(blocks, 0, p);
      PartsFrom(blocks, k);
      Release(a, blocks[..k], blocks[k], blocks[k + 1..]);
    }

    method Release(a: nat, ghost pre: seq<Blk>, ghost b: Blk, ghost post: seq<Blk>)
      requires Valid() && blocks == pre + [b] + post && a == Span(pre) && !b.free
      modifies this
      ensures Valid() && Live() == old(Live()) - {START + a + 12} && MarkedFree(mem, START + a + 12)
      ensures SamePayloads(old(mem), mem, Live())
    {
      PartsTile(mem, pre, b, post);
      ReleaseLive(pre, b, post);
      HeaderClear(pre, b, post);
      var size := Le32(mem, a);
      used := Less(used, size);
      SetFlag(a, true, pre, b, post);
      PartsTile(mem, pre, b.(free := true), post);
      blocks := pre + [b.(free := true)] + post;
      CoalesceMerges(blocks);
      assert blocks[..|pre|] == pre;
      Coalesce(blocks);
      blocks := HeapBlocks.Coalesce(blocks);
    }

    /** The copying loop of krealloc. */
    method CopyBytes(dst: nat, src: nat, n: nat)
      requires |mem| == SIZE && dst + n <= SIZE && src + n <= SIZE && (dst + n <= src || src + n <= dst)
      modifies this`mem
      ensures |mem| == SIZE
      ensures mem[dst..dst + n] == old(mem)[src..src + n]
      ensures forall i :: 0 <= i < SIZE && !(dst <= i < dst + n) ==> mem[i] == old(mem)[i]
    {
      var k := 0;
      while k < n
        invariant 0 <= k <= n && |mem| == SIZE
        invariant mem[dst..dst + k] == old(mem)[src..src + k]
        invariant forall i :: 0 <= i < SIZE && !(dst <= i < dst + k) ==> mem[i] == old(mem)[i]
      {
        ghost var m := mem;
        mem := mem[dst + k := mem[src + k]];
        assert mem[dst..dst + k] == m[dst..dst + k];
        assert mem[dst..dst + k + 1] == mem[dst..dst + k] + [mem[dst + k]];
        assert old(mem)[src..src + k + 1] == old(mem)[src..src + k] + [old(mem)[src + k]];
        k := k + 1;
      }
    }

    /** The size in the header before p. */
    method SizeOf(p: nat) returns (n: nat)
      requires Valid() && p in Live()
      ensures n == Live()[p]
    {
      ghost var k := LiveIndex(blocks, 0, p);
      Step(mem, blocks, k);
      n := Le32(mem, p - START - 12);
    }

    /** Copies the payload of the live pointer p into that of the live pointer r, which is at least as large. */
    method CopyPayload(r: nat, p: nat)
      requires Valid() && p in Live() && r in Live() && p != r && Live()[p] <= Live()[r]
      modifies this`mem
      ensures Valid() && SamePayloads(old(mem), mem, Live() - {r})
      ensures Copied(old(mem), p, mem, r, Live()[p])
    {
      LiveRanges(blocks, p, r);
      var size := SizeOf(p);
      CopyBytes(r - START, p - START, size);
      PayloadWritten(old(mem), mem, blocks, r, Live()[p]);
    }

    /**
     * krealloc: grows a block by moving it. The old bytes come along, and nobody else's change. A size that wraps
     * around must not lead to a new block smaller than the old one.
     */
    method Krealloc(p: nat, size: nat) returns (r: nat)
      requires Valid() && size < 0x1_0000_0000 && (p == 0 || p in Live())
      requires p == 0 || size <= 0xFFFF_FFF8 || RoomFor(blocks, AlignUp(size), Live()[p])
      modifies this
      ensures Valid()
      ensures SamePayloads(old(mem), mem, old(Live()) - {p})
      ensures p != 0 && size == 0 ==> r == 0 && Live() == old(Live()) - {p}
      ensures p != 0 && 0 < size <= old(Live())[p] ==> r == p && mem == old(mem) && blocks == old(blocks)
      ensures (p == 0 && size > 0) || (p != 0 && size > old(Live())[p]) ==>
                (r == 0 <==> FirstFit(old(blocks), AlignUp(size)) == |old(blocks)|)
      ensures r == 0 && size > 0 ==> mem == old(mem) && blocks == old(blocks)
      ensures r != 0 && r != p ==>
                && r !in old(Live()) && r in Live() && (Live()[r] >= size <==> size <= 0xFFFF_FFF8)
                && Live() == (old(Live()) - {p})[r := Live()[r]]
      ensures p != 0 && r != 0 && r != p ==> Copied(old(mem), p, mem, r, old(Live())[p])
    {
      if p == 0 {
        LiveBounds(blocks, 0);
        assert Live() - {p} == Live();
        r := Kmalloc(size);
        return;
      }
      if size == 0 {
        Kfree(p);
        return 0;
      }
      var has := SizeOf(p);
      if has >= size {
        return p;
      }
      r := Grow(p, size);
    }

    /** The part of krealloc that moves the block. */
    method Grow(p: nat, size: nat) returns (r: nat)
      requires Valid() && p in Live() && Live()[p] < size < 0x1_0000_0000
      requires size <= 0xFFFF_FFF8 || RoomFor(blocks, AlignUp(size), Live()[p])
      modifies this
      ensures Valid() && SamePayloads(old(mem), mem, old(Live()) - {p})
      ensures r == 0 <==> FirstFit(old(blocks), AlignUp(size)) == |old(blocks)|
      ensures r == 0 ==> mem == old(mem) && blocks == old(blocks)
      ensures r != 0 ==>
                && r !in old(Live()) && r in Live() && (Live()[r] >= size <==> size <= 0xFFFF_FFF8)
                && Live() == (old(Live()) - {p})[r := Live()[r]]
      ensures r != 0 ==> Copied(old(mem), p, mem, r, old(Live())[p])
    {
      ghost var m0 := mem;
      ghost var live: map<nat, nat> := Live();
      r := Kmalloc(size);
      if r == 0 {
        return;
      }
      ghost var m1 := mem;
      ghost var live1: map<nat, nat> := Live();
      Move(r, p);
      GrownPayloads(m0, m1, mem, live, live1, p, r);
    }

    /** The rest of krealloc once the new block is there. */
    method Move(r: nat, p: nat)
      requires Valid() && p in Live() && r in Live() && p != r && Live()[p] <= Live()[r]
      modifies this
      ensures Valid() && Live() == old(Live()) - {p}
      ensures SamePayloads(old(mem), mem, old(Live()) - {p} - {r})
      ensures Copied(old(mem), p, mem, r, old(Live())[p])
    {
      ghost var m0 := mem;
      CopyPayload(r, p);
      ghost var m := mem;
      ghost var live: map<nat, nat> := Live();
      Kfree(p);
      MovedPayloads(m0, m, mem, live, p, r);
    }

    /** Freeing every live pointer, in any order, leaves the heap as it was made. */
    method FreeAll(ps: seq<nat>)
      requires Valid()
      requires forall p :: p in ps <==> p in Live()
      requires forall i, j :: 0 <= i < j < |ps| ==> ps[i] != ps[j]
      modifies this
      ensures Valid() && blocks == [Blk(0x10_0000 - 12, true)] && used == 0
    {
      var k := 0;
      while k < |ps|
        invariant 0 <= k <= |ps| && Valid()
        invariant forall p :: p in ps[k..] <==> p in Live()
      {
        assert ps[k] in ps[k..];
        Kfree(ps[k]);
        assert forall p :: p in ps[k..] <==> p == ps[k] || p in ps[k + 1..];
        k := k + 1;
      }
      assert Live() == map[];
      AllFree(blocks);
    }

    /** kmalloc_stats. */
    method Stats() returns (inUse: nat, total: nat, free: nat)
      requires Valid()
      ensures inUse == Used(blocks) && total == SIZE && free == FreeBytes(blocks)
      ensures inUse + free + 12 * |blocks| == total
    {
      inUse, total, free := used, SIZE, 0;
      ghost var k := 0;
      var b := START;
      while b != 0
        invariant k <= |blocks| && b == (if k == |blocks| then 0 else START + Span(blocks[..k]))
        invariant free == FreeBytes(blocks[..k])
        decreases |blocks| - k
      {
        Step(mem, blocks, k);
        assert blocks[..k + 1] == blocks[..k] + [blocks[k]];
        SumsConcat(blocks[..k], [blocks[k]]);
        var a := b - START;
        if Le32(mem, a + 4) != 0 {
          free := free + Le32(mem, a);
        }
        b, k := Le32(mem, a + 8), k + 1;
      }
      assert blocks[..k] == blocks;
      SumsFill(blocks);
    }
  }

  lemma OneFree(mem: seq<byte>, bs: seq<Blk>)
    requires |mem| == SIZE && bs == [Blk(SIZE - 12, true)] && HeaderIs(mem, 0, bs[0])
    ensures Tiling(mem, bs) && Merged(bs) && Used(bs) == 0 && LiveFrom(bs, 0) == map[]
  {
    var none: seq<Blk> := [];
    assert bs[1..] == none && Span(none) == 0 && Used(none) == 0 && LiveFrom(none, SIZE) == map[];
    assert Span(bs) == 12 + bs[0].size + Span(none);
    assert Seg(mem, SIZE, none);
  }

  /** The header before a live pointer lies in the window and is not marked as free. */
  lemma LiveHeader(mem: seq<byte>, bs: seq<Blk>, p: nat)
    requires Tiling(mem, bs)
    ensures p in LiveFrom(bs, 0) ==> START + 12 <= p <= START + SIZE && Le32(mem, p - START - 8) == 0
  {
    if p in LiveFrom(bs, 0) {
      var k := LiveIndex(bs, 0, p);
      Step(mem, bs, k);
    }
  }

  /** Two live payloads lie in the window and apart. */
  lemma LiveRanges(bs: seq<Blk>, p: nat, r: nat)
    requires Span(bs) == SIZE && p in LiveFrom(bs, 0) && r in LiveFrom(bs, 0) && p != r
    ensures var m := LiveFrom(bs, 0);
            && START + 12 <= p && START + 12 <= r && p - START + m[p] <= SIZE && r - START + m[r] <= SIZE
            && (p + m[p] <= r || r + m[r] <= p)
  {
    LiveBounds(bs, 0);
    LiveApart(bs, 0);
  }

  /** Writing into a live payload keeps the list and everybody else's bytes. */
  lemma PayloadWritten(mem: seq<byte>, mem': seq<byte>, bs: seq<Blk>, r: nat, n: nat)
    requires Tiling(mem, bs) && r in LiveFrom(bs, 0) && n <= LiveFrom(bs, 0)[r] && |mem'| == |mem|
    requires forall i :: 0 <= i < SIZE && !(r <= START + i < r + n) ==> mem'[i] == mem[i]
    ensures Tiling(mem', bs) && SamePayloads(mem, mem', LiveFrom(bs, 0) - {r})
  {
    var j := LiveIndex(bs, 0, r);
    var pre, b, post := bs[..j], bs[j], bs[j + 1..];
    PartsFrom(bs, j);
    PartsTile(mem, pre, b, post);
    HeaderKept(mem, mem', Span(pre), b);
    PartsSwap(mem, mem', pre, b, b, post);
    PartsTile(mem', pre, b, post);
    LiveApart(bs, 0);
  }

  lemma HeaderKept(mem: seq<byte>, mem': seq<byte>, a: nat, b: Blk)
    requires HeaderIs(mem, a, b) && |mem'| == |mem|
    requires forall i :: a <= i < a + 12 ==> mem'[i] == mem[i]
    ensures HeaderIs(mem', a, b)
  {
  }

  lemma SamePayloadsOn(m0: seq<byte>, m1: seq<byte>, m2: seq<byte>, a: map<nat, nat>, b: map<nat, nat>,
                       c: map<nat, nat>)
    requires SamePayloads(m0, m1, a) && SamePayloads(m1, m2, b)
    requires forall q :: q in c ==> q in a && q in b && a[q] == b[q] == c[q]
    ensures SamePayloads(m0, m2, c)
  {
  }

  lemma PayloadSlice(mem: seq<byte>, mem': seq<byte>, m: map<nat, nat>, r: nat, n: nat)
    requires SamePayloads(mem, mem', m) && r in m && n <= m[r] && START <= r && r - START + n <= |mem|
    ensures mem'[r - START..r - START + n] == mem[r - START..r - START + n]
  {
  }

  lemma MovedPayloads(m0: seq<byte>, m: seq<byte>, m1: seq<byte>, live: map<nat, nat>, p: nat, r: nat)
    requires p in live && r in live && p != r && live[p] <= live[r]
    requires SamePayloads(m0, m, live - {r}) && SamePayloads(m, m1, live - {p})
    requires Copied(m0, p, m, r, live[p])
    ensures SamePayloads(m0, m1, live - {p} - {r})
    ensures Copied(m0, p, m1, r, live[p])
  {
    SamePayloadsOn(m0, m, m1, live - {r}, live - {p}, live - {p} - {r});
    PayloadSlice(m, m1, live - {p}, r, live[p]);
  }

  lemma GrownPayloads(m0: seq<byte>, m1: seq<byte>, m2: seq<byte>, live: map<nat, nat>, live1: map<nat, nat>, p: nat,
                      r: nat)
    requires p in live && r !in live && r in live1 && live1 == live[r := live1[r]]
    requires SamePayloads(m0, m1, live) && SamePayloads(m1, m2, live1 - {p} - {r})
    requires Copied(m1, p, m2, r, live[p])
    ensures SamePayloads(m0, m2, live - {p})
    ensures Copied(m0, p, m2, r, live[p])
  {
    SamePayloadsOn(m0, m1, m2, live, live1 - {p} - {r}, live - {p});
    PayloadSlice(m0, m1, live, p, live[p]);
  }

  /** What the walk over the list finds at its k-th block. */
  lemma Step(mem: seq<byte>, bs: seq<Blk>, k: nat)
    requires Tiling(mem, bs) && k < |bs|
    ensures var a := Span(bs[..k]);
            && a + 12 <= |mem| && Le32(mem, a) == bs[k].size && Le32(mem, a + 4) == Flag(bs[k].free)
            && Le32(mem, a + 8) == (if k + 1 == |bs| then 0 else START + Span(bs[..k + 1]))
    ensures bs == bs[..k] + [bs[k]] + bs[k + 1..]
  {
    var pre, b, post := bs[..k], bs[k], bs[k + 1..];
    PartsFrom(bs, k);
    PartsTile(mem, pre, b, post);
    assert bs[..k + 1] == pre + [b];
    SpanConcat(pre, [b]);
    if post != [] {
      assert HeaderIs(mem, Span(pre) + 12 + b.size, post[0]);
    }
  }

  // ---- the merging pass ----

  /** Where the pass over bs stands: done is final, cur is the block looked at, post is still to come. */
  ghost predicate Merging(mem0: seq<byte>, mem: seq<byte>, bs: seq<Blk>, done: seq<Blk>, cur: Blk, post: seq<Blk>) {
    && Parts(mem, done, cur, post)
    && HeapBlocks.Coalesce(bs) == Walk(done, cur, post)
    && LiveParts(done, cur, post) == LiveFrom(bs, 0)
    && SamePayloads(mem0, mem, LiveFrom(bs, 0))
    && Aligned(bs, done, cur, post)
    && FlagsKept(mem0, mem, bs)
  }

  /** The free flag before every block of bs, merged away or not, is as it was. */
  ghost predicate FlagsKept(mem0: seq<byte>, mem: seq<byte>, bs: seq<Blk>) {
    && |mem| == |mem0|
    && forall k :: 0 <= k < |bs| && Span(bs[..k]) + 8 <= |mem| ==>
         Le32(mem, Span(bs[..k]) + 4) == Le32(mem0, Span(bs[..k]) + 4)
  }

  /** cur starts where a block of bs does and ends where post, the rest of bs, starts. */
  ghost predicate Aligned(bs: seq<Blk>, done: seq<Blk>, cur: Blk, post: seq<Blk>) {
    && |post| < |bs| && post == bs[|bs| - |post|..]
    && Span(done) + 12 + cur.size == Span(bs[..|bs| - |post|])
    && exists i :: 0 <= i < |bs| && Span(done) == Span(bs[..i])
  }

  /** Blocks start at least a header apart. */
  lemma StartsApart(bs: seq<Blk>, i: nat, k: nat)
    requires i < k <= |bs|
    ensures Span(bs[..i]) + 12 + bs[i].size <= Span(bs[..k])
  {
    assert bs[..k] == bs[..i] + bs[i..k];
    SpanConcat(bs[..i], bs[i..k]);
  }

  lemma AlignedOn(bs: seq<Blk>, done: seq<Blk>, cur: Blk, post: seq<Blk>)
    requires Aligned(bs, done, cur, post) && post != []
    ensures Aligned(bs, done, Joined(cur, post[0]), post[1..])
    ensures Aligned(bs, done + [cur], post[0], post[1..])
  {
    var j := |bs| - |post|;
    assert bs[..j + 1] == bs[..j] + [bs[j]];
    SpanConcat(bs[..j], [bs[j]]);
    SpanConcat(done, [cur]);
  }

  lemma FlagsOn(mem0: seq<byte>, mem: seq<byte>, mem': seq<byte>, bs: seq<Blk>, i: nat)
    requires FlagsKept(mem0, mem, bs) && |mem'| == |mem| && i < |bs|
    requires var a := Span(bs[..i]);
             forall i :: 0 <= i < |mem| && !(a <= i < a + 4 || a + 8 <= i < a + 12) ==> mem'[i] == mem[i]
    ensures FlagsKept(mem0, mem', bs)
  {
    forall k | 0 <= k < |bs| && Span(bs[..k]) + 8 <= |mem|
      ensures Le32(mem', Span(bs[..k]) + 4) == Le32(mem0, Span(bs[..k]) + 4)
    {
      if i < k {
        StartsApart(bs, i, k);
      } else if k < i {
        StartsApart(bs, k, i);
      }
    }
  }

  lemma MergingStart(mem: seq<byte>, bs: seq<Blk>)
    requires Tiling(mem, bs)
    ensures Merging(mem, mem, bs, [], bs[0], bs[1..])
    ensures Le32(mem, 8) == Link(12 + bs[0].size)
  {
    assert [] + [bs[0]] + bs[1..] == bs;
    PartsTile(mem, [], bs[0], bs[1..]);
    LiveIs([], bs[0], bs[1..]);
    assert Span(bs[..0]) == 0 && bs[..1] == [bs[0]];
  }

  lemma MergingHas(mem0: seq<byte>, mem: seq<byte>, bs: seq<Blk>, done: seq<Blk>, cur: Blk, post: seq<Blk>)
    requires Merging(mem0, mem, bs, done, cur, post) && Link(Span(done) + 12 + cur.size) != 0
    ensures post != [] && Parts(mem, done, cur, post)
    ensures HeaderIs(mem, Span(done), cur) && HeaderIs(mem, Span(done) + 12 + cur.size, post[0])
  {
  }

  lemma MergingNext(mem0: seq<byte>, mem: seq<byte>, bs: seq<Blk>, done: seq<Blk>, cur: Blk, post: seq<Blk>)
    requires Merging(mem0, mem, bs, done, cur, post)
    ensures HeaderIs(mem, Span(done), cur)
  {
  }

  lemma MergingJoin(mem0: seq<byte>, mem: seq<byte>, mem': seq<byte>, bs: seq<Blk>, done: seq<Blk>, cur: Blk,
                    post: seq<Blk>)
    requires Merging(mem0, mem, bs, done, cur, post) && post != [] && cur.free && post[0].free
    requires Parts(mem', done, Joined(cur, post[0]), post[1..])
    requires var a := Span(done);
             forall i :: 0 <= i < SIZE && !(a <= i < a + 4 || a + 8 <= i < a + 12) ==> mem'[i] == mem[i]
    ensures Merging(mem0, mem', bs, done, Joined(cur, post[0]), post[1..])
  {
    JoinLive(done, cur, post);
    LiveIs(done, cur, post);
    HeaderClear(done, cur, post);
    AlignedOn(bs, done, cur, post);
    var i: nat :| i < |bs| && Span(done) == Span(bs[..i]);
    FlagsOn(mem0, mem, mem', bs, i);
  }

  lemma MergingShift(mem0: seq<byte>, mem: seq<byte>, bs: seq<Blk>, done: seq<Blk>, cur: Blk, post: seq<Blk>)
    requires Merging(mem0, mem, bs, done, cur, post) && post != [] && !(cur.free && post[0].free)
    ensures Merging(mem0, mem, bs, done + [cur], post[0], post[1..])
    ensures Span(done + [cur]) == Span(done) + 12 + cur.size
  {
    AlignedOn(bs, done, cur, post);
    PartsShift(mem, done, cur, post);
    ShiftLive(done, cur, post);
    SpanConcat(done, [cur]);
  }

  lemma MergingEnd(mem0: seq<byte>, mem: seq<byte>, bs: seq<Blk>, done: seq<Blk>, cur: Blk, post: seq<Blk>)
    requires Merging(mem0, mem, bs, done, cur, post) && Link(Span(done) + 12 + cur.size) == 0
    ensures Tiling(mem, HeapBlocks.Coalesce(bs)) && SamePayloads(mem0, mem, LiveFrom(bs, 0)) && FlagsKept(mem0, mem, bs)
  {
    assert post == [];
    PartsTile(mem, done, cur, post);
    assert done + [cur] + post == done + [cur];
  }
}
