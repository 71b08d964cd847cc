/** What myrealloc promises its caller (allocator.c:163-208): the pointer it
 *  returns is live and holds at least the requested size, the old pointer
 *  is freed when the result differs from it (or the size is 0), every
 *  other live pointer keeps its block, and the returned bytes overlap none
 *  of them. Each in-place case and the move are treated in turn. */
module ResizeProps {
  import opened Layout
  import opened HeapSpec
  import opened HeapProps

  /** `r` is a live payload whose block holds at least `size` bytes. */
  ghost predicate Fits(st: HeapState, r: Option<nat>, size: nat)
  {
    r.Some? && Live(st, r) && SizeAt(st.blocks, r.value - H) >= size
  }

  // ---------------------------------------------------------------------------
  // The steps of an in-place resize

  /** split keeps every live payload live; block i's payload shrinks to
   *  `size`, every other one keeps its size. */
  lemma SplitKeepsLive(st: HeapState, i: nat, size: nat, y: nat)
    requires Inv(st) && i < |st.blocks| && size + H <= st.blocks[i].size && Live(st, Some(y))
    ensures var st' := SplitAt(st, i, size);
      && Live(st', Some(y))
      && (y == st.blocks[i].off + H ==> SizeAt(st'.blocks, y - H) == size)
      && (y != st.blocks[i].off + H ==> SizeAt(st'.blocks, y - H) == SizeAt(st.blocks, y - H))
  {
    var bs, bs' := st.blocks, SplitAt(st, i, size).blocks;
    var m := IndexOf(bs, y - H);
    SplitShape(st, i, size);
    SplitKeepsIndex(st, i, size, m);
    if m != i {
      IndexOfAt(bs, st.used, i);
      var d := if m < i then m else m + 1;
      assert bs'[d] == bs[m];
    }
  }

  /** The shrink case keeps every live payload live; the resized one holds
   *  at least `size` bytes, the others keep their size. */
  lemma ShrinkKeepsLive(st: HeapState, i: nat, size: nat, y: nat)
    requires Inv(st) && i < |st.blocks| && size <= st.blocks[i].size && Live(st, Some(y))
    ensures var st' := ShrinkTo(st, i, size);
      && Live(st', Some(y))
      && (y == st.blocks[i].off + H ==> Fits(st', Some(y), size))
      && (y != st.blocks[i].off + H ==> SizeAt(st'.blocks, y - H) == SizeAt(st.blocks, y - H))
  {
    if st.blocks[i].size - size >= H + MIN_REMAINDER {
      SplitKeepsLive(st, i, size, y);
      if y == st.blocks[i].off + H {
        InPlaceFits(SplitAt(st, i, size), y, size);
      }
    } else if y == st.blocks[i].off + H {
      Holds(st, Some(y), size, i);
    }
  }

  /** merge_next of a used block with its free successor keeps every live
   *  payload live, and every one but block i's keeps its size. */
  lemma AbsorbNextKeepsLive(st: HeapState, i: nat, y: nat)
    requires Inv(st) && i + 1 < |st.blocks| && st.blocks[i].inUse && !st.blocks[i + 1].inUse
    requires Live(st, Some(y))
    ensures Live(AbsorbNext(st, i), Some(y))
    ensures y != st.blocks[i].off + H ==> SizeAt(AbsorbNext(st, i).blocks, y - H) == SizeAt(st.blocks, y - H)
  {
    ListedExceptInUse(st.blocks, st.free, st.used, i);
    AbsorbNextKeeps(st, i);
    FuseKeepsLive(st, AbsorbNext(st, i), i, y);
  }

  /** Fusing used block i with its free successor keeps every live payload
   *  live, and every one but block i's keeps its size. */
  lemma FuseKeepsLive(st: HeapState, st': HeapState, i: nat, y: nat)
    requires Contiguous(st.blocks, st.used) && i + 1 < |st.blocks| && !st.blocks[i + 1].inUse
    requires Contiguous(st'.blocks, st'.used) && st'.blocks == Fuse(st.blocks, i)
    requires Live(st, Some(y))
    ensures Live(st', Some(y))
    ensures y != st.blocks[i].off + H ==> SizeAt(st'.blocks, y - H) == SizeAt(st.blocks, y - H)
  {
    var bs := st.blocks;
    FuseShape(bs, i);
    var m := IndexOf(bs, y - H);
    if m == i {
      Holds(st', Some(y), 0, i);
    } else {
      var k := FuseKeepsOthers(bs, i, m);
      Carried(st, st', y, k);
    }
  }

  /** The absorb case keeps every live payload live; the resized one holds
   *  at least `size` bytes, the others keep their size. */
  lemma AbsorbToKeepsLive(st: HeapState, i: nat, size: nat, y: nat)
    requires Inv(st) && i + 1 < |st.blocks| && st.blocks[i].inUse && !st.blocks[i + 1].inUse
    requires st.blocks[i].size + H + st.blocks[i + 1].size >= size && Live(st, Some(y))
    ensures var st' := AbsorbTo(st, i, size);
      && Live(st', Some(y))
      && (y == st.blocks[i].off + H ==> Fits(st', Some(y), size))
      && (y != st.blocks[i].off + H ==> SizeAt(st'.blocks, y - H) == SizeAt(st.blocks, y - H))
  {
    if y == st.blocks[i].off + H {
      AbsorbToFits(st, i, size);
    } else {
      AbsorbToKeepsOther(st, i, size, y);
    }
  }

  /** The absorb case: the resized payload fits `size`. */
  lemma AbsorbToFits(st: HeapState, i: nat, size: nat)
    requires Inv(st) && i + 1 < |st.blocks| && st.blocks[i].inUse && !st.blocks[i + 1].inUse
    requires st.blocks[i].size + H + st.blocks[i + 1].size >= size
    ensures Fits(AbsorbTo(st, i, size), Some(st.blocks[i].off + H), size)
  {
    var grown := AbsorbNext(st, i);
    AbsorbLiveKeepsInv(st, i, size);
    FuseShape(st.blocks, i);
    assert grown.blocks[i] == st.blocks[i].(size := st.blocks[i].size + H + st.blocks[i + 1].size);
    GrownFits(grown, i, size, st.blocks[i].off + H);
  }

  /** Used block i, grown to hold at least `size` bytes, fits `size`
   *  whether or not the excess is split off. */
  lemma GrownFits(grown: HeapState, i: nat, size: nat, x: nat)
    requires Inv(grown) && i < |grown.blocks| && grown.blocks[i].inUse
    requires x == grown.blocks[i].off + H && size <= grown.blocks[i].size
    ensures Fits(if grown.blocks[i].size >= size + H + MIN_REMAINDER then SplitAt(grown, i, size) else grown, Some(x), size)
  {
    LiveAt(grown, i);
    if grown.blocks[i].size >= size + H + MIN_REMAINDER {
      SplitKeepsLive(grown, i, size, x);
      InPlaceFits(SplitAt(grown, i, size), x, size);
    } else {
      Holds(grown, Some(x), size, i);
    }
  }

  /** The absorb case keeps every other live payload live with its size. */
  lemma AbsorbToKeepsOther(st: HeapState, i: nat, size: nat, y: nat)
    requires Inv(st) && i + 1 < |st.blocks| && st.blocks[i].inUse && !st.blocks[i + 1].inUse
    requires st.blocks[i].size + H + st.blocks[i + 1].size >= size
    requires Live(st, Some(y)) && y != st.blocks[i].off + H
    ensures Live(AbsorbTo(st, i, size), Some(y))
    ensures SizeAt(AbsorbTo(st, i, size).blocks, y - H) == SizeAt(st.blocks, y - H)
  {
    var grown := AbsorbNext(st, i);
    AbsorbLiveKeepsInv(st, i, size);
    AbsorbNextKeepsLive(st, i, y);
    FuseShape(st.blocks, i);
    if grown.blocks[i].size >= size + H + MIN_REMAINDER {
      SplitKeepsLive(grown, i, size, y);
    }
  }

  /** Growing the last block keeps every live payload live; the last one
   *  holds `size` bytes, the others keep their size. */
  lemma GrowLastKeepsLive(st: HeapState, size: nat, y: nat)
    requires Inv(st) && |st.blocks| > 0 && st.blocks[|st.blocks| - 1].size <= size
    requires st.used + (size - st.blocks[|st.blocks| - 1].size) <= MAX_HEAP_SIZE
    requires Live(st, Some(y))
    ensures var st', n := GrowLastTo(st, size), |st.blocks|;
      && Live(st', Some(y))
      && (y == st.blocks[n - 1].off + H ==> SizeAt(st'.blocks, y - H) == size)
      && (y != st.blocks[n - 1].off + H ==> SizeAt(st'.blocks, y - H) == SizeAt(st.blocks, y - H))
  {
    var st' := GrowLastTo(st, size);
    GrowLastKeepsInv(st, size);
    var m := IndexOf(st.blocks, y - H);
    IndexOfAt(st'.blocks, st'.used, m);
    IndexOfAt(st.blocks, st.used, |st.blocks| - 1);
  }

  // ---------------------------------------------------------------------------
  // The move

  /** A successful move returns a pointer that was not live before, is live
   *  afterwards and holds at least `size` bytes, and frees the old one; a
   *  failed one changes nothing. */
  lemma MoveResult(st: HeapState, x: nat, size: nat)
    requires Inv(st) && Live(st, Some(x))
    ensures var (st', r) := MoveTo(st, x, size);
      && (r.None? ==> st' == st)
      && (r.Some? ==> !Live(st, r) && Fits(st', r, size))
      && (r.Some? ==> !Live(st', Some(x)))
  {
    var moved, r, j := MoveParts(st, x, size);
    if r.Some? {
      Moved(moved, x, size, j, MoveTo(st, x, size));
      ReleaseFrees(moved, x);
    }
  }

  /** The state after the free of the old block, paired with the pointer
   *  mymalloc handed out: that pointer is live and holds at least `size`
   *  bytes. */
  lemma Moved(moved: HeapState, x: nat, size: nat, j: nat, res: (HeapState, Option<nat>))
    requires Inv(moved) && Live(moved, Some(x)) && res.1.Some? && Live(moved, res.1) && res.1.value != x
    requires j < |moved.blocks| && moved.blocks[j].off + H == res.1.value && size <= moved.blocks[j].size
    requires res.0 == Release(moved, Some(x))
    ensures Fits(res.0, res.1, size)
  {
    IndexOfAt(moved.blocks, moved.used, j);
    ReleaseKeepsLive(moved, x, res.1.value);
  }

  /** mymalloc's part of a move: the block it hands out is a fresh one,
   *  index j, holding at least `size` bytes; the old block stays live. */
  lemma MoveParts(st: HeapState, x: nat, size: nat) returns (moved: HeapState, r: Option<nat>, j: nat)
    requires Inv(st) && Live(st, Some(x))
    ensures (moved, r) == Allocate(st, size)
    ensures r.None? ==> MoveTo(st, x, size) == (st, None)
    ensures r.Some? ==>
      && Inv(moved) && Live(moved, Some(x)) && Live(moved, r) && r.value != x && !Live(st, r)
      && j < |moved.blocks| && moved.blocks[j].off + H == r.value && size <= moved.blocks[j].size
      && MoveTo(st, x, size) == (Release(moved, Some(x)), r)
  {
    moved, r := Allocate(st, size).0, Allocate(st, size).1;
    AllocateKeepsInv(st, size);
    AllocateKeepsLive(st, size, x);
    j := AllocateResult(st, size);
    if r.Some? {
      NotLiveBefore(st, size);
    }
  }

  /** mymalloc never returns a pointer that was already live. */
  lemma NotLiveBefore(st: HeapState, size: nat)
    requires Inv(st) && Allocate(st, size).1.Some?
    ensures !Live(st, Allocate(st, size).1)
  {
    var r := Allocate(st, size).1;
    if Live(st, r) {
      AllocateKeepsLive(st, size, r.value);
    }
  }

  /** A move keeps every other live payload live with its size. */
  lemma MoveKeepsLive(st: HeapState, x: nat, size: nat, y: nat)
    requires Inv(st) && Live(st, Some(x)) && Live(st, Some(y)) && y != x
    ensures Live(MoveTo(st, x, size).0, Some(y))
    ensures SizeAt(MoveTo(st, x, size).0.blocks, y - H) == SizeAt(st.blocks, y - H)
  {
    var (moved, r) := Allocate(st, size);
    if r.Some? {
      AllocateKeepsInv(st, size);
      AllocateKeepsLive(st, size, x);
      AllocateApart(st, size, y);
      ReleaseKeepsLive(moved, x, y);
      assert MoveTo(st, x, size).0 == Release(moved, Some(x));
    }
  }

  // ---------------------------------------------------------------------------
  // Blocks found again after a step

  /** A block whose payload starts at `r`, in use and holding at least
   *  `size` bytes, makes `r` fit `size`. */
  lemma Holds(st: HeapState, r: Option<nat>, size: nat, j: nat)
    requires Contiguous(st.blocks, st.used)
    requires j < |st.blocks| && r == Some(st.blocks[j].off + H) && st.blocks[j].inUse && size <= st.blocks[j].size
    ensures Fits(st, r, size)
  {
    IndexOfAt(st.blocks, st.used, j);
  }

  /** The block of a live payload, found unchanged at index `d` of another
   *  contiguous chain, keeps the payload live with the same size there. */
  lemma Carried(st: HeapState, st': HeapState, y: nat, d: nat)
    requires Live(st, Some(y)) && Contiguous(st'.blocks, st'.used)
    requires d < |st'.blocks| && st'.blocks[d] == st.blocks[IndexOf(st.blocks, y - H)]
    ensures Live(st', Some(y)) && SizeAt(st'.blocks, y - H) == SizeAt(st.blocks, y - H)
  {
    IndexOfAt(st'.blocks, st'.used, d);
  }

  // ---------------------------------------------------------------------------
  // myrealloc of a live block, and myrealloc as a whole

  /** Resizing live block i, whose payload is `x`, to a nonzero size: the result is NULL only when
   *  the move failed, and then nothing changed; otherwise it is the same
   *  pointer or one that was not live, it is live and holds at least
   *  `size` bytes, and a different pointer means the old one was freed. A
   *  request no larger than the block stays in place. */
  lemma ResizeAtResult(st: HeapState, i: nat, size: nat, x: nat)
    requires Inv(st) && i < |st.blocks| && st.blocks[i].inUse && x == st.blocks[i].off + H
    ensures var (st', r) := ResizeAt(st, i, size);
      && (r.None? ==> st' == st)
      && (r.Some? ==> (r == Some(x) || !Live(st, r)) && Fits(st', r, size))
      && (r.Some? && r != Some(x) ==> !Live(st', Some(x)))
      && (size <= st.blocks[i].size ==> r == Some(x))
  {
    var bs := st.blocks;
    LiveAt(st, i);
    ResizeAtInPlace(st, i, size, x);
    if size <= bs[i].size {
      ShrinkKeepsLive(st, i, size, x);
    } else if i + 1 < |bs| && !bs[i + 1].inUse && bs[i].size + H + bs[i + 1].size >= size {
      AbsorbToKeepsLive(st, i, size, x);
    } else if i + 1 == |bs| && st.used + (size - bs[i].size) <= MAX_HEAP_SIZE {
      GrowLastKeepsLive(st, size, x);
      InPlaceFits(GrowLastTo(st, size), x, size);
    } else {
      ResizeAtMoves(st, i, size, x);
      MoveResult(st, x, size);
    }
  }

  /** A block resized in place to hold `size` bytes fits. */
  lemma InPlaceFits(st': HeapState, x: nat, size: nat)
    requires Live(st', Some(x)) && SizeAt(st'.blocks, x - H) >= size
    ensures Fits(st', Some(x), size)
  {
  }

  /** Resizing live block i keeps every other live payload live with its size. */
  lemma ResizeAtKeepsLive(st: HeapState, i: nat, size: nat, y: nat)
    requires Inv(st) && i < |st.blocks| && st.blocks[i].inUse
    requires Live(st, Some(y)) && y != st.blocks[i].off + H
    ensures Live(ResizeAt(st, i, size).0, Some(y))
    ensures SizeAt(ResizeAt(st, i, size).0.blocks, y - H) == SizeAt(st.blocks, y - H)
  {
    var bs := st.blocks;
    var x := bs[i].off + H;
    ResizeAtInPlace(st, i, size, x);
    if size <= bs[i].size {
      ShrinkKeepsLive(st, i, size, y);
    } else if i + 1 < |bs| && !bs[i + 1].inUse && bs[i].size + H + bs[i + 1].size >= size {
      AbsorbToKeepsLive(st, i, size, y);
    } else if i + 1 == |bs| && st.used + (size - bs[i].size) <= MAX_HEAP_SIZE {
      GrowLastKeepsLive(st, size, y);
    } else {
      ResizeAtMoves(st, i, size, x);
      MoveKeepsLive(st, x, size, y);
    }
  }

  /** myrealloc's result: NULL for size 0, which frees the old pointer;
   *  otherwise NULL only when nothing changed, and else the old pointer or
   *  one that was not live, now live with at least `size` bytes, in which
   *  case the old pointer was freed. A live block asked for no more than
   *  it holds stays where it is. */
  lemma ResizeResult(st: HeapState, p: Option<nat>, size: nat)
    requires Inv(st) && Live(st, p)
    ensures var (st', r) := Resize(st, p, size);
      && (size == 0 ==> r.None?)
      && (size != 0 && r.None? ==> st' == st)
      && (r.Some? ==> (r == p || !Live(st, r)) && Fits(st', r, size))
      && (size != 0 && p.Some? && size <= SizeAt(st.blocks, p.value - H) ==> r == p)
      && (p.Some? && (size == 0 || (r.Some? && r != p)) ==> !Live(st', p))
  {
    if size == 0 {
      if p.Some? {
        ReleaseFrees(st, p.value);
      }
    } else {
      if p.None? {
        AllocateFits(st, size);
      } else {
        var x := p.value;
        assert p == Some(x);
        ResizeLiveResult(st, x, size);
      }
    }
  }

  /** myrealloc of a live pointer to a nonzero size, as ResizeResult states
   *  it for that case. */
  lemma ResizeLiveResult(st: HeapState, x: nat, size: nat)
    requires Inv(st) && Live(st, Some(x)) && size != 0
    ensures var (st', r) := Resize(st, Some(x), size);
      && (r.None? ==> st' == st)
      && (r.Some? ==> (r == Some(x) || !Live(st, r)) && Fits(st', r, size))
      && (size <= SizeAt(st.blocks, x - H) ==> r == Some(x))
      && (r.Some? && r != Some(x) ==> !Live(st', Some(x)))
  {
    if size <= SizeAt(st.blocks, x - H) {
      ResizeInPlace(st, x, size);
    }
    var i := ResizeLive(st, x, size);
    ResizeAtResult(st, i, size, x);
  }

  /** myrealloc of a live pointer to no more than its block holds returns
   *  that pointer. */
  lemma ResizeInPlace(st: HeapState, x: nat, size: nat)
    requires Inv(st) && Live(st, Some(x)) && 0 < size <= SizeAt(st.blocks, x - H)
    ensures Resize(st, Some(x), size).1 == Some(x)
  {
    var i := ResizeLive(st, x, size);
    ResizeAtInPlace(st, i, size, x);
  }

  /** mymalloc's result, as myrealloc of NULL returns it: NULL only when
   *  nothing changed, and otherwise a pointer that was not live and fits. */
  lemma AllocateFits(st: HeapState, size: nat)
    requires Inv(st)
    ensures var (st', r) := Allocate(st, size);
      && (r.None? ==> st' == st)
      && (r.Some? ==> !Live(st, r) && Fits(st', r, size))
  {
    var res := Allocate(st, size);
    if res.1.None? {
      AllocateTakesFirstFit(st, size);
    } else {
      FreshFits(st, size, res);
    }
  }

  /** A pointer mymalloc hands out was not live and fits `size`. */
  lemma FreshFits(st: HeapState, size: nat, res: (HeapState, Option<nat>))
    requires Inv(st) && res == Allocate(st, size) && res.1.Some?
    ensures !Live(st, res.1) && Fits(res.0, res.1, size)
  {
    AllocateKeepsInv(st, size);
    var j := AllocateResult(st, size);
    NotLiveBefore(st, size);
    IndexOfAt(res.0.blocks, res.0.used, j);
  }

  /** myrealloc keeps every other live pointer live with its size. */
  lemma ResizeKeepsLive(st: HeapState, p: Option<nat>, size: nat, y: nat)
    requires Inv(st) && Live(st, p) && Live(st, Some(y)) && p != Some(y)
    ensures Live(Resize(st, p, size).0, Some(y))
    ensures SizeAt(Resize(st, p, size).0.blocks, y - H) == SizeAt(st.blocks, y - H)
  {
    if size == 0 {
      if p.Some? {
        ReleaseKeepsLive(st, p.value, y);
      }
    } else if p.None? {
      AllocateApart(st, size, y);
    } else {
      var i := ResizeLive(st, p.value, size);
      ResizeAtKeepsLive(st, i, size, y);
    }
  }

  /** The `size` bytes myrealloc hands out overlap no other payload that was
   *  live before the call. */
  lemma ResizeApart(st: HeapState, p: Option<nat>, size: nat, y: nat)
    requires Inv(st) && Live(st, p) && Live(st, Some(y)) && p != Some(y)
    ensures var r := Resize(st, p, size).1;
      r.Some? ==> r.value + size <= y || y + SizeAt(st.blocks, y - H) <= r.value
  {
    var res := Resize(st, p, size);
    ResizeResult(st, p, size);
    if res.1.Some? {
      ResizeKeepsLive(st, p, size, y);
      ResizeKeepsInv(st, p, size);
      FitsApart(res.0, res.1.value, size, y, SizeAt(st.blocks, y - H));
    }
  }

  /** A payload that fits `size` and another live payload of `n` bytes do
   *  not overlap. */
  lemma FitsApart(st: HeapState, r: nat, size: nat, y: nat, n: nat)
    requires Inv(st) && Fits(st, Some(r), size) && Live(st, Some(y)) && r != y
    requires SizeAt(st.blocks, y - H) == n
    ensures r + size <= y || y + n <= r
  {
    PayloadsDisjoint(st, r, y);
  }
}
