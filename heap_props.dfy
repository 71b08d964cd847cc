/** Properties of the allocator across calls: mymalloc's first-fit choice,
 *  live payloads that never overlap, the coalesced steady state of
 *  malloc/free-only use (which a realloc shrink breaks), a free that undoes
 *  the carve before it, and the 64-bit wrap-around of two capacity guards. */
module HeapProps {
  import opened Layout
  import opened HeapSpec

  // ---------------------------------------------------------------------------
  // mymalloc's choice

  /** First fit passes over entries too small for the request. */
  lemma {:induction false} FitFromSkips(bs: seq<Block>, fl: seq<nat>, size: nat, k: nat)
    requires k <= |fl|
    ensures forall m :: k <= m < FitFrom(bs, fl, size, k) ==> SizeAt(bs, fl[m]) < size
    decreases |fl| - k
  {
    if k < |fl| && SizeAt(bs, fl[k]) < size {
      FitFromSkips(bs, fl, size, k + 1);
    }
  }

  /** mymalloc hands out the first free-list block that holds the request;
   *  only when none does, it carves at the high-water mark, and it returns
   *  NULL exactly when that carve would pass MAX_HEAP_SIZE. */
  lemma AllocateTakesFirstFit(st: HeapState, size: nat)
    requires Inv(st)
    ensures var k := FirstFit(st.blocks, st.free, size);
      && (forall m :: 0 <= m < k ==> SizeAt(st.blocks, st.free[m]) < size)
      && (k < |st.free| ==> SizeAt(st.blocks, st.free[k]) >= size && Allocate(st, size).1 == Some(st.free[k] + H))
      && (k == |st.free| && st.used + H + size <= MAX_HEAP_SIZE ==> Allocate(st, size).1 == Some(st.used + H))
      && (Allocate(st, size).1.None? <==> k == |st.free| && st.used + H + size > MAX_HEAP_SIZE)
      && (Allocate(st, size).1.None? ==> Allocate(st, size).0 == st)
  {
    FitFromSkips(st.blocks, st.free, size, 0);
    if FirstFit(st.blocks, st.free, size) < |st.free| {
      AllocateFit(st, size);
    }
  }

  /** A block mymalloc hands out ends within the new high-water mark, so
   *  within MAX_HEAP_SIZE. */
  lemma AllocateWithinCapacity(st: HeapState, size: nat)
    requires Inv(st)
    ensures var (st', r) := Allocate(st, size);
      r.Some? ==> r.value + size <= st'.used <= MAX_HEAP_SIZE
  {
    AllocateKeepsInv(st, size);
    var j := AllocateResult(st, size);
    var (st', r) := Allocate(st, size);
    if r.Some? {
      EndWithin(st'.blocks, st'.used, j);
    }
  }

  // ---------------------------------------------------------------------------
  // Live payloads do not overlap

  /** The payloads of two different live pointers do not overlap, and each
   *  ends below the high-water mark. */
  lemma PayloadsDisjoint(st: HeapState, x: nat, y: nat)
    requires Inv(st) && Live(st, Some(x)) && Live(st, Some(y)) && x != y
    ensures x + SizeAt(st.blocks, x - H) <= y || y + SizeAt(st.blocks, y - H) <= x
    ensures x + SizeAt(st.blocks, x - H) <= st.used <= MAX_HEAP_SIZE
  {
    var i, j := IndexOf(st.blocks, x - H), IndexOf(st.blocks, y - H);
    BlocksApart(st.blocks, st.used, i, j);
    EndWithin(st.blocks, st.used, i);
  }

  /** The `size` bytes mymalloc hands out overlap no payload that was live
   *  before the call, and that payload keeps its size. */
  lemma AllocateApart(st: HeapState, size: nat, q: nat)
    requires Inv(st) && Live(st, Some(q))
    ensures var (st', r) := Allocate(st, size);
      && Live(st', Some(q)) && SizeAt(st'.blocks, q - H) == SizeAt(st.blocks, q - H)
      && (r.Some? ==> r.value + size <= q || q + SizeAt(st.blocks, q - H) <= r.value)
  {
    AllocateKeepsInv(st, size);
    AllocateKeepsLive(st, size, q);
    var j := AllocateResult(st, size);
    if Allocate(st, size).1.Some? {
      FreshApart(Allocate(st, size).0, Allocate(st, size).1.value, size, q, j);
    }
  }

  /** A live payload at `r` whose block `j` holds at least `size` bytes
   *  does not overlap another live payload `q` over those `size` bytes. */
  lemma FreshApart(st: HeapState, r: nat, size: nat, q: nat, j: nat)
    requires Inv(st) && Live(st, Some(r)) && Live(st, Some(q)) && r != q
    requires j < |st.blocks| && st.blocks[j].off + H == r && size <= st.blocks[j].size
    ensures r + size <= q || q + SizeAt(st.blocks, q - H) <= r
  {
    IndexOfAt(st.blocks, st.used, j);
    PayloadsDisjoint(st, r, q);
  }

  // ---------------------------------------------------------------------------
  // The coalesced steady state

  /** Setting `used` flags keeps a chain coalesced. */
  lemma MoreInUseKeepsCoalesced(bs: seq<Block>, bs': seq<Block>)
    requires Coalesced(bs) && |bs'| == |bs|
    requires forall j :: 0 <= j < |bs| && bs[j].inUse ==> bs'[j].inUse
    ensures Coalesced(bs')
  {
    forall j | 0 <= j < |bs'| - 1
      ensures bs'[j].inUse || bs'[j + 1].inUse
    {
      assert bs[j].inUse || bs[j + 1].inUse;
    }
  }

  /** mymalloc keeps the heap coalesced: a split-off tail is free but sits
   *  between the block handed out and a block in use. */
  lemma AllocateKeepsCoalesced(st: HeapState, size: nat)
    requires Inv(st) && Coalesced(st.blocks)
    ensures Coalesced(Allocate(st, size).0.blocks)
  {
    var bs, fl := st.blocks, st.free;
    var k := FirstFit(bs, fl, size);
    if k < |fl| {
      AllocateFit(st, size);
      var i := IndexOf(bs, fl[k]);
      var taken := Take(st, k);
      assert !bs[i].inUse && taken.blocks == bs[i := bs[i].(inUse := true)];
      MoreInUseKeepsCoalesced(bs, taken.blocks);
      if bs[i].size >= size + H + MIN_REMAINDER {
        assert i + 1 < |bs| && bs[i + 1].inUse;
        SplitKeepsCoalesced(taken, i, size);
      }
    } else if st.used + H + size <= MAX_HEAP_SIZE {
      var bs' := Allocate(st, size).0.blocks;
      assert bs' == bs + [Block(st.used, size, true)];
      forall j | 0 <= j < |bs'| - 1
        ensures bs'[j].inUse || bs'[j + 1].inUse
      {
        if j + 1 < |bs| {
          assert bs[j].inUse || bs[j + 1].inUse;
        }
      }
    }
  }

  /** Splitting a used block whose successor is in use keeps the chain
   *  coalesced: the new free block lies between two used ones. */
  lemma SplitKeepsCoalesced(st: HeapState, i: nat, size: nat)
    requires Coalesced(st.blocks) && i + 1 < |st.blocks| && size + H <= st.blocks[i].size
    requires st.blocks[i].inUse && st.blocks[i + 1].inUse
    ensures Coalesced(SplitAt(st, i, size).blocks)
  {
    SplitShape(st, i, size);
    var bs, bs' := st.blocks, SplitAt(st, i, size).blocks;
    forall j | 0 <= j < |bs'| - 1
      ensures bs'[j].inUse || bs'[j + 1].inUse
    {
      if i + 1 < j {
        assert bs'[j] == bs[j - 1] && bs'[j + 1] == bs[j];
      } else if j + 1 < i {
        assert bs'[j] == bs[j] && bs'[j + 1] == bs[j + 1];
      } else if j == i + 1 {
        assert bs'[j + 1] == bs[i + 1];
      }
    }
    assert bs'[|bs'| - 1] == bs[|bs| - 1];
  }

  /** Blocks a..b-1 of a coalesced chain replaced by one free block whose
   *  neighbours are in use: the chain stays coalesced. */
  lemma SpliceKeepsCoalesced(bs: seq<Block>, a: nat, b: nat, blk: Block)
    requires Coalesced(bs) && a < b < |bs| && !blk.inUse
    requires 0 < a ==> bs[a - 1].inUse
    requires bs[b].inUse
    ensures Coalesced(bs[..a] + [blk] + bs[b..])
  {
    var bs' := bs[..a] + [blk] + bs[b..];
    forall j | 0 <= j < |bs'| - 1
      ensures bs'[j].inUse || bs'[j + 1].inUse
    {
      if j + 1 < a {
        assert bs'[j] == bs[j] && bs'[j + 1] == bs[j + 1];
      } else if j + 1 == a {
        assert bs'[j] == bs[a - 1];
      } else if j == a {
        assert bs'[j + 1] == bs[b];
      } else {
        assert bs'[j] == bs[j - a - 1 + b] && bs'[j + 1] == bs[j - a + b];
        assert bs[j - a - 1 + b].inUse || bs[j - a + b].inUse;
      }
    }
    assert bs'[|bs'| - 1] == bs[|bs| - 1];
  }

  /** myfree's merge_next on a coalesced heap, once block i is marked
   *  free: the chain becomes blocks ..i-1, one free block, blocks b.. with
   *  block b (if any) in use. */
  lemma MergeNextShape(st: HeapState, i: nat) returns (b: nat)
    requires Coalesced(st.blocks) && i < |st.blocks| && st.blocks[i].inUse
    ensures var bs := st.blocks;
      var n1 := AbsorbNext(st.(blocks := bs[i := bs[i].(inUse := false)]), i).blocks;
      && i < b <= |bs| && (b < |bs| ==> bs[b].inUse)
      && i < |n1| && !n1[i].inUse && n1 == bs[..i] + [n1[i]] + bs[b..]
  {
    var bs := st.blocks;
    var m := bs[i := bs[i].(inUse := false)];
    var n1 := AbsorbNext(st.(blocks := m), i).blocks;
    if i + 1 < |bs| && !bs[i + 1].inUse {
      assert bs[i + 2].inUse;
      b := i + 2;
      FuseShape(m, i);
      assert n1 == Fuse(m, i);
    } else {
      b := i + 1;
      assert n1 == m;
    }
  }

  /** myfree's merge_prev after MergeNextShape: the surviving free block
   *  sits at a, with block a-1 (if any) in use. */
  lemma MergePrevShape(bs: seq<Block>, merged: HeapState, i: nat, b: nat) returns (a: nat)
    requires Coalesced(bs) && i < b <= |bs| && i < |merged.blocks| && !merged.blocks[i].inUse
    requires merged.blocks == bs[..i] + [merged.blocks[i]] + bs[b..]
    ensures var (survived, j) := AbsorbPrev(merged, i);
      var s := survived.blocks;
      && j == a && a <= i && (0 < a ==> bs[a - 1].inUse)
      && a < |s| && !s[a].inUse && s == bs[..a] + [s[a]] + bs[b..]
  {
    var n1 := merged.blocks;
    var s := AbsorbPrev(merged, i).0.blocks;
    if 0 < i && !n1[i - 1].inUse {
      a := i - 1;
      assert n1[a] == bs[a] && !bs[a].inUse;
      FuseShape(n1, a);
      assert s == Fuse(n1, a);
    } else {
      a := i;
      assert s == n1;
    }
  }

  /** myfree, on a coalesced heap: blocks a..b-1 (the freed block and its
   *  free neighbours) become one free block, or leave the chain when they
   *  were its tail; the blocks around them are in use. */
  lemma ReleaseShape(st: HeapState, x: nat) returns (a: nat, b: nat)
    requires Inv(st) && Coalesced(st.blocks) && Live(st, Some(x))
    ensures var bs, bs' := st.blocks, Release(st, Some(x)).blocks;
      && a < b <= |bs| && (0 < a ==> bs[a - 1].inUse) && (b < |bs| ==> bs[b].inUse)
      && (b == |bs| ==> bs' == bs[..a])
      && (b < |bs| ==> a < |bs'| && !bs'[a].inUse && bs' == bs[..a] + [bs'[a]] + bs[b..])
  {
    var bs := st.blocks;
    var i := IndexOf(bs, x - H);
    var merged := AbsorbNext(st.(blocks := bs[i := bs[i].(inUse := false)]), i);
    b := MergeNextShape(st, i);
    a := MergePrevShape(bs, merged, i, b);
    var (survived, j) := Coalesce(st, i);
    var s := survived.blocks;
    assert s == bs[..a] + [s[a]] + bs[b..];
    if b == |bs| {
      assert Release(st, Some(x)) == Truncate(survived);
    } else {
      assert Release(st, Some(x)) == AddToList(survived, s[a].off);
    }
  }

  /** Fusing blocks c and c + 1 keeps every other block, one place earlier
   *  when it came after them. */
  lemma FuseKeepsOthers(bs: seq<Block>, c: nat, k: nat) returns (k': nat)
    requires c + 1 < |bs| && k < |bs| && k != c && k != c + 1
    ensures k' == (if k < c then k else k - 1)
    ensures k' < |Fuse(bs, c)| && Fuse(bs, c)[k'] == bs[k]
  {
    FuseShape(bs, c);
    k' := if k < c then k else k - 1;
  }

  /** merge_next after block i is marked free keeps every other block in use. */
  lemma MergeNextKeepsOthers(st: HeapState, i: nat, k: nat) returns (c: nat)
    requires i < |st.blocks| && k < |st.blocks| && k != i && st.blocks[k].inUse
    ensures var bs := st.blocks;
      var n1 := AbsorbNext(st.(blocks := bs[i := bs[i].(inUse := false)]), i).blocks;
      c < |n1| && n1[c] == bs[k] && i < |n1| && !n1[i].inUse
  {
    var bs := st.blocks;
    var m := bs[i := bs[i].(inUse := false)];
    var n1 := AbsorbNext(st.(blocks := m), i).blocks;
    c := k;
    if i + 1 < |bs| && !bs[i + 1].inUse {
      c := FuseKeepsOthers(m, i, k);
      FuseShape(m, i);
      assert n1 == Fuse(m, i);
    } else {
      assert n1 == m;
    }
  }

  /** merge_prev of free block i keeps every other block in use, and the
   *  surviving block is free. */
  lemma MergePrevKeepsOthers(merged: HeapState, i: nat, c1: nat) returns (c: nat)
    requires i < |merged.blocks| && !merged.blocks[i].inUse
    requires c1 < |merged.blocks| && merged.blocks[c1].inUse
    ensures var (survived, j) := AbsorbPrev(merged, i);
      && c < |survived.blocks| && survived.blocks[c] == merged.blocks[c1]
      && j < |survived.blocks| && !survived.blocks[j].inUse && c != j
  {
    var n1 := merged.blocks;
    var s := AbsorbPrev(merged, i).0.blocks;
    c := c1;
    if 0 < i && !n1[i - 1].inUse {
      c := FuseKeepsOthers(n1, i - 1, c1);
      FuseShape(n1, i - 1);
      assert s == Fuse(n1, i - 1);
    } else {
      assert s == n1;
    }
  }

  /** myfree of `x` keeps every other block in use where it was in the
   *  chain's order, with the same header and size. */
  lemma ReleaseKeepsOthers(st: HeapState, x: nat, k: nat) returns (c: nat)
    requires Inv(st) && Live(st, Some(x)) && k < |st.blocks| && st.blocks[k].inUse
    requires k != IndexOf(st.blocks, x - H)
    ensures var bs' := Release(st, Some(x)).blocks;
      c < |bs'| && bs'[c] == st.blocks[k]
  {
    var bs := st.blocks;
    var i := IndexOf(bs, x - H);
    var merged := AbsorbNext(st.(blocks := bs[i := bs[i].(inUse := false)]), i);
    var c1 := MergeNextKeepsOthers(st, i, k);
    c := MergePrevKeepsOthers(merged, i, c1);
    var (survived, j) := Coalesce(st, i);
    var s := survived.blocks;
    assert s[c] == bs[k] && c != j;
    if j + 1 == |s| {
      assert Release(st, Some(x)) == Truncate(survived);
    } else {
      assert Release(st, Some(x)) == AddToList(survived, s[j].off);
    }
  }

  /** myfree of `x` keeps every other live payload live, with its size. */
  lemma ReleaseKeepsLive(st: HeapState, x: nat, q: nat)
    requires Inv(st) && Live(st, Some(x)) && Live(st, Some(q)) && q != x
    ensures Live(Release(st, Some(x)), Some(q))
    ensures SizeAt(Release(st, Some(x)).blocks, q - H) == SizeAt(st.blocks, q - H)
  {
    var k := IndexOf(st.blocks, q - H);
    var c := ReleaseKeepsOthers(st, x, k);
    var st' := Release(st, Some(x));
    ReleaseKeepsInv(st, Some(x));
    IndexOfAt(st'.blocks, st'.used, c);
  }

  /** myfree of `x` frees it: the pointer is no longer live afterwards. */
  lemma ReleaseFrees(st: HeapState, x: nat)
    requires Inv(st) && Live(st, Some(x))
    ensures !Live(Release(st, Some(x)), Some(x))
  {
    var o := x - H;
    var i := IndexOf(st.blocks, o);
    var (survived, j) := Coalesce(st, i);
    ReleaseSteps(st, o, i, survived, j);
    CoalesceFreesAt(st, i);
    var st' := Release(st, Some(x));
    assert forall k :: 0 <= k < |st'.blocks| ==> st'.blocks[k] == survived.blocks[k];
  }

  /** No block whose header is at `o` is in use. */
  ghost predicate NoneUsedAt(bs: seq<Block>, o: nat)
  {
    forall k :: 0 <= k < |bs| && bs[k].off == o ==> !bs[k].inUse
  }

  /** In a contiguous chain, a free block at `o` is the only block there. */
  lemma FreeAlone(bs: seq<Block>, used: nat, c: nat)
    requires Contiguous(bs, used) && c < |bs| && !bs[c].inUse
    ensures NoneUsedAt(bs, bs[c].off)
  {
    forall k | 0 <= k < |bs| && k != c
      ensures bs[k].off != bs[c].off
    {
      BlocksApart(bs, used, k, c);
    }
  }

  /** Once block i of a contiguous chain is absorbed by its predecessor, no
   *  block has its header at block i's old offset. */
  lemma FusedAway(bs: seq<Block>, used: nat, i: nat)
    requires Contiguous(bs, used) && 0 < i < |bs|
    ensures NoneUsedAt(Fuse(bs, i - 1), bs[i].off)
  {
    var bs' := Fuse(bs, i - 1);
    FuseShape(bs, i - 1);
    forall k | 0 <= k < |bs'|
      ensures bs'[k].off != bs[i].off
    {
      if k < i {
        ChainOrdered(bs, used, k, i);
      } else {
        ChainOrdered(bs, used, i, k + 1);
      }
    }
  }

  /** myfree's flag clear and merges leave no block in use at the freed
   *  block's header. */
  lemma CoalesceFreesAt(st: HeapState, i: nat)
    requires Inv(st) && i < |st.blocks| && st.blocks[i].inUse
    ensures NoneUsedAt(Coalesce(st, i).0.blocks, st.blocks[i].off)
  {
    var o := st.blocks[i].off;
    var marked := st.(blocks := st.blocks[i := st.blocks[i].(inUse := false)]);
    MarkFreeKeeps(st, i);
    var next := AbsorbNext(marked, i);
    AbsorbNextKeeps(marked, i);
    var bs := next.blocks;
    if 0 < i && !bs[i - 1].inUse {
      assert Coalesce(st, i).0.blocks == Fuse(bs, i - 1);
      FusedAway(bs, next.used, i);
    } else {
      FreeAlone(bs, next.used, i);
    }
  }

  /** myfree keeps the heap coalesced. */
  lemma ReleaseKeepsCoalesced(st: HeapState, p: Option<nat>)
    requires Inv(st) && Coalesced(st.blocks) && Live(st, p)
    ensures Coalesced(Release(st, p).blocks)
  {
    if p.Some? {
      var a, b := ReleaseShape(st, p.value);
      MergedKeepsCoalesced(st.blocks, Release(st, p).blocks, a, b);
    }
  }

  /** Replacing blocks a..b-1 of a coalesced chain, whose neighbours are in
   *  use, by one free block (or dropping them when they are its tail)
   *  leaves the chain coalesced. */
  lemma MergedKeepsCoalesced(bs: seq<Block>, bs': seq<Block>, a: nat, b: nat)
    requires Coalesced(bs)
    requires a < b <= |bs| && (0 < a ==> bs[a - 1].inUse) && (b < |bs| ==> bs[b].inUse)
    requires b == |bs| ==> bs' == bs[..a]
    requires b < |bs| ==> a < |bs'| && !bs'[a].inUse && bs' == bs[..a] + [bs'[a]] + bs[b..]
    ensures Coalesced(bs')
  {
    if b < |bs| {
      SpliceKeepsCoalesced(bs, a, b, bs'[a]);
    } else {
      forall j | 0 <= j < |bs'| - 1
        ensures bs'[j].inUse || bs'[j + 1].inUse
      {
        assert bs[j].inUse || bs[j + 1].inUse;
      }
    }
  }

  /** A myrealloc shrink can leave two free neighbours: on a coalesced heap
   *  whose second block is free, shrinking the first block splits off a free
   *  tail right before it. */
  lemma ShrinkBreaksCoalesced()
    ensures var st := HeapState([Block(0, 100, true), Block(140, 8, false), Block(188, 8, true)], [140], 236);
      && Inv(st) && Coalesced(st.blocks)
      && ResizeAt(st, 0, 8).1 == Some(H)
      && var bs' := ResizeAt(st, 0, 8).0.blocks;
        |bs'| == 4 && !bs'[1].inUse && !bs'[2].inUse
  {
    var st := HeapState([Block(0, 100, true), Block(140, 8, false), Block(188, 8, true)], [140], 236);
    assert Follows(st.blocks, 0) && Follows(st.blocks, 1);
    assert IndexOf(st.blocks, 140) == 1;
    assert Find(st.free, 140) == 0;
    assert Inv(st);
  }

  /** A myrealloc shrink can leave the chain's last block free. */
  lemma ShrinkFreesLast()
    ensures var st := HeapState([Block(0, 100, true)], [], 140);
      && Inv(st) && Coalesced(st.blocks)
      && var bs' := ResizeAt(st, 0, 8).0.blocks;
        |bs'| == 2 && !bs'[1].inUse
  {
    var st := HeapState([Block(0, 100, true)], [], 140);
    assert Inv(st);
  }

  /** Freeing the block mymalloc has just carved at the end of a coalesced
   *  heap restores the heap as it was: the block is cut off the chain and
   *  `used` retreats. */
  lemma FreeUndoesCarve(st: HeapState, size: nat)
    requires Inv(st) && Coalesced(st.blocks)
    requires FirstFit(st.blocks, st.free, size) == |st.free| && st.used + H + size <= MAX_HEAP_SIZE
    ensures var (st', r) := Allocate(st, size);
      Inv(st') && Live(st', r) && r.Some? && Release(st', r) == st
  {
    AllocateKeepsInv(st, size);
    var j := AllocateResult(st, size);
    var (st', r) := Allocate(st, size);
    var bs, bs' := st.blocks, st'.blocks;
    assert bs' == bs + [Block(st.used, size, true)];
    IndexOfAt(bs', st'.used, |bs|);
    var i := |bs|;
    assert IndexOf(bs', r.value - H) == i;
    var marked := st'.(blocks := bs'[i := bs'[i].(inUse := false)]);
    assert AbsorbNext(marked, i) == marked;
    assert AbsorbPrev(marked, i) == (marked, i);
    assert Release(st', r) == Truncate(marked);
    assert marked.blocks[..i] == bs;
  }

  // ---------------------------------------------------------------------------
  // 64-bit wrap-around in the capacity guards

  /** 2^64: size_t sums wrap modulo this. */
  const WORD: nat := 0x1_0000_0000_0000_0000

  /** mymalloc's capacity guard as compiled: `used + total_size` with
   *  `total_size = sizeof(Metadata) + size`, each sum taken modulo 2^64. */
  predicate CarveFitsAsWritten(used: nat, size: nat)
  {
    (used + (H + size) % WORD) % WORD <= MAX_HEAP_SIZE
  }

  /** With a 64-bit size_t, a request for 2^64 - H bytes on an empty heap
   *  passes mymalloc's guard as compiled (the sum wraps to 0), although the
   *  block would reach far past MAX_HEAP_SIZE; the model refuses it. */
  lemma CarveGuardWraps()
    ensures CarveFitsAsWritten(0, WORD - H)
    ensures Inv(Empty()) && Allocate(Empty(), WORD - H) == (Empty(), None)
  {
    assert Inv(Empty());
  }

  /** myrealloc's grow-at-end guard as compiled: `used + (size - old_size)`
   *  modulo 2^64 (here size > old_size, so the difference itself does not
   *  wrap). */
  predicate GrowFitsAsWritten(used: nat, oldSize: nat, size: nat)
    requires oldSize < size
  {
    (used + (size - oldSize)) % WORD <= MAX_HEAP_SIZE
  }

  /** With a 64-bit size_t, growing the only block (8 bytes) of a heap to
   *  2^64 - 1 bytes passes myrealloc's grow-at-end guard as compiled (the
   *  sum wraps to 39), so the block would be resized in place far past
   *  MAX_HEAP_SIZE; the model moves instead, the allocation fails, and
   *  myrealloc returns NULL with the heap unchanged. */
  lemma GrowGuardWraps()
    ensures var st := HeapState([Block(0, 8, true)], [], H + 8);
      && GrowFitsAsWritten(st.used, 8, WORD - 1)
      && Inv(st) && ResizeAt(st, 0, WORD - 1) == (st, None)
  {
    var st := HeapState([Block(0, 8, true)], [], H + 8);
    assert Inv(st);
    IndexOfAt(st.blocks, st.used, 0);
    assert ResizeAt(st, 0, WORD - 1) == MoveTo(st, H, WORD - 1);
    assert Allocate(st, WORD - 1) == (st, None);
  }
}
