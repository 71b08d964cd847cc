/** Abstract model of the first-fit allocator of allocator.c.
 *
 *  The arena is addressed by byte offsets from its base. The abstract state
 *  lists the chain of blocks in address order (offset, payload size, in-use
 *  flag), the free list in the order it is threaded from `head`, and the
 *  high-water mark `used`. Every routine of allocator.c has a function here
 *  that says what it does to this state; the class in module Allocator is
 *  proved to implement these functions on its header map. */
module HeapSpec {

  import opened Layout

  datatype HeapState = HeapState(blocks: seq<Block>, free: seq<nat>, used: nat)

  /** The index of the first block from `k` on whose header is at `x`, or
   *  |bs| if there is none. */
  function IndexFrom(bs: seq<Block>, x: nat, k: nat): (i: nat)
    requires k <= |bs|
    ensures k <= i <= |bs|
    ensures i < |bs| ==> bs[i].off == x
    decreases |bs| - k
  {
    if k == |bs| then |bs|
    else if bs[k].off == x then k
    else IndexFrom(bs, x, k + 1)
  }

  /** The index of the first block whose header is at `x`, or |bs| if there is none. */
  function IndexOf(bs: seq<Block>, x: nat): (i: nat)
    ensures i <= |bs|
    ensures i < |bs| ==> bs[i].off == x
  {
    IndexFrom(bs, x, 0)
  }

  /** A block at or after `k` whose header is at `x` bounds the index IndexFrom finds. */
  lemma {:induction false} IndexFromBound(bs: seq<Block>, x: nat, k: nat, m: nat)
    requires k <= m < |bs| && bs[m].off == x
    ensures IndexFrom(bs, x, k) <= m
    decreases m - k
  {
    if bs[k].off != x {
      IndexFromBound(bs, x, k + 1, m);
    }
  }

  /** A block whose header is at `x` bounds the index IndexOf finds. */
  lemma IndexOfBound(bs: seq<Block>, x: nat, m: nat)
    requires m < |bs| && bs[m].off == x
    ensures IndexOf(bs, x) <= m
  {
    IndexFromBound(bs, x, 0, m);
  }

  /** No block between `k` and IndexFrom(bs, x, k) has its header at `x`. */
  lemma {:induction false} IndexFromFirst(bs: seq<Block>, x: nat, k: nat, j: nat)
    requires k <= j < |bs| && j < IndexFrom(bs, x, k)
    ensures bs[j].off != x
    decreases j - k
  {
    if j > k {
      IndexFromFirst(bs, x, k + 1, j);
    }
  }

  /** No block before IndexOf(bs, x) has its header at `x`. */
  lemma IndexOfFirst(bs: seq<Block>, x: nat, j: nat)
    requires j < IndexOf(bs, x)
    ensures bs[j].off != x
  {
    IndexFromFirst(bs, x, 0, j);
  }

  /** The position of the first `x` in `s` from `k` on, or |s| if there is none. */
  function FindFrom(s: seq<nat>, x: nat, k: nat): (r: nat)
    requires k <= |s|
    ensures k <= r <= |s|
    ensures r < |s| ==> s[r] == x
    decreases |s| - k
  {
    if k == |s| then |s|
    else if s[k] == x then k
    else FindFrom(s, x, k + 1)
  }

  /** The position of the first `x` in `s`, or |s| if there is none. */
  function Find(s: seq<nat>, x: nat): (k: nat)
    ensures k <= |s|
    ensures k < |s| ==> s[k] == x
  {
    FindFrom(s, x, 0)
  }

  /** An occurrence of `x` at or after `k` bounds the position FindFrom finds. */
  lemma {:induction false} FindFromBound(s: seq<nat>, x: nat, k: nat, m: nat)
    requires k <= m < |s| && s[m] == x
    ensures FindFrom(s, x, k) <= m
    decreases m - k
  {
    if s[k] != x {
      FindFromBound(s, x, k + 1, m);
    }
  }

  /** An occurrence of `x` bounds the position Find finds, so `x` is found. */
  lemma FindBound(s: seq<nat>, x: nat, m: nat)
    requires m < |s| && s[m] == x
    ensures Find(s, x) <= m
  {
    FindFromBound(s, x, 0, m);
  }

  /** No entry between `k` and FindFrom(s, x, k) is `x`. */
  lemma {:induction false} FindFromFirst(s: seq<nat>, x: nat, k: nat, j: nat)
    requires k <= j < |s| && j < FindFrom(s, x, k)
    ensures s[j] != x
    decreases j - k
  {
    if j > k {
      FindFromFirst(s, x, k + 1, j);
    }
  }

  /** No entry before Find(s, x) is `x`; when `x` is not found, no entry is. */
  lemma FindFirst(s: seq<nat>, x: nat, j: nat)
    requires j < Find(s, x)
    ensures s[j] != x
  {
    FindFromFirst(s, x, 0, j);
  }

  /** add_to_list: the pushed entry and the old entries are found, nothing else. */
  lemma FindPush(s: seq<nat>, y: nat, x: nat)
    ensures Find([y] + s, x) < |s| + 1 <==> x == y || Find(s, x) < |s|
  {
    var s' := [y] + s;
    if x == y {
      FindBound(s', x, 0);
    } else if Find(s, x) < |s| {
      FindBound(s', x, Find(s, x) + 1);
    }
    var r := Find(s', x);
    if r < |s'| && 0 < r {
      assert s[r - 1] == x;
      FindBound(s, x, r - 1);
    }
  }

  /** Removing entry k of a list without repetitions: exactly the other
   *  entries are still found. */
  lemma FindRemove(s: seq<nat>, k: nat, x: nat)
    requires Distinct(s) && k < |s|
    ensures |s[..k] + s[k + 1..]| == |s| - 1
    ensures Find(s[..k] + s[k + 1..], x) < |s| - 1 <==> Find(s, x) < |s| && x != s[k]
  {
    var r := s[..k] + s[k + 1..];
    var f := Find(s, x);
    if f < |s| && x != s[k] {
      if f < k {
        assert r[f] == x;
        FindBound(r, x, f);
      } else {
        assert r[f - 1] == x;
        FindBound(r, x, f - 1);
      }
    }
    var g := Find(r, x);
    if g < |r| {
      var m := if g < k then g else g + 1;
      assert s[m] == x;
      FindBound(s, x, m);
    }
  }

  /** Pushing an entry that is not found keeps a list free of repetitions. */
  lemma DistinctPush(s: seq<nat>, y: nat)
    requires Distinct(s) && Find(s, y) == |s|
    ensures Distinct([y] + s)
  {
    forall m | 0 <= m < |s|
      ensures s[m] != y
    {
      FindFirst(s, y, m);
    }
  }

  /** Removing an entry keeps a list free of repetitions. */
  lemma DistinctRemove(s: seq<nat>, k: nat)
    requires Distinct(s) && k < |s|
    ensures Distinct(s[..k] + s[k + 1..])
  {
    var r := s[..k] + s[k + 1..];
    assert forall m :: 0 <= m < |r| ==> r[m] == if m < k then s[m] else s[m + 1];
  }

  /** remove_from_list: unlink the first occurrence of `x`; no change when absent. */
  function Without(s: seq<nat>, x: nat): seq<nat>
  {
    var k := Find(s, x);
    if k < |s| then s[..k] + s[k + 1..] else s
  }

  /** The payload size of the block whose header is at `x` (0 when there is none). */
  function SizeAt(bs: seq<Block>, x: nat): nat
  {
    var i := IndexOf(bs, x);
    if i < |bs| then bs[i].size else 0
  }

  /** First-fit from position `k` of the free list on. */
  function FitFrom(bs: seq<Block>, fl: seq<nat>, size: nat, k: nat): (r: nat)
    requires k <= |fl|
    ensures k <= r <= |fl|
    ensures r < |fl| ==> SizeAt(bs, fl[r]) >= size
    decreases |fl| - k
  {
    if k == |fl| then |fl|
    else if SizeAt(bs, fl[k]) >= size then k
    else FitFrom(bs, fl, size, k + 1)
  }

  /** First-fit: the position of the first free-list entry whose block holds `size` bytes. */
  function FirstFit(bs: seq<Block>, fl: seq<nat>, size: nat): (k: nat)
    ensures k <= |fl|
    ensures k < |fl| ==> SizeAt(bs, fl[k]) >= size
  {
    FitFrom(bs, fl, size, 0)
  }

  // ---------------------------------------------------------------------------
  // Invariants

  /** The chain starts at offset 0, each block's successor starts where it
   *  ends, and the last block ends exactly at the high-water mark. */
  ghost predicate Contiguous(bs: seq<Block>, used: nat)
  {
    && (|bs| == 0 ==> used == 0)
    && (|bs| > 0 ==> bs[0].off == 0 && End(bs[|bs| - 1]) == used)
    && (forall j :: 0 <= j < |bs| - 1 ==> Follows(bs, j))
  }


  ghost predicate Distinct(s: seq<nat>)
  {
    forall j, k :: 0 <= j < k < |s| ==> s[j] != s[k]
  }

  /** Every free-list entry is the header of a free chain block other than
   *  the one at `e`, and every free chain block other than the one at `e`
   *  is on the free list. This is the state inside myfree, while the block
   *  at `e` is free but not yet pushed. */
  ghost predicate ListedExcept(bs: seq<Block>, fl: seq<nat>, e: nat)
  {
    && (forall k :: 0 <= k < |fl| ==> IndexOf(bs, fl[k]) < |bs| && !bs[IndexOf(bs, fl[k])].inUse && fl[k] != e)
    && (forall j :: 0 <= j < |bs| && bs[j].off != e && !bs[j].inUse ==> Find(fl, bs[j].off) < |fl|)
  }

  /** Every free-list entry is the header of a chain block whose `used` flag
   *  is clear, and every such block is on the free list. */
  ghost predicate Listed(bs: seq<Block>, fl: seq<nat>)
  {
    && (forall k :: 0 <= k < |fl| ==> IndexOf(bs, fl[k]) < |bs| && !bs[IndexOf(bs, fl[k])].inUse)
    && (forall j :: 0 <= j < |bs| && !bs[j].inUse ==> Find(fl, bs[j].off) < |fl|)
  }

  /** The allocator's invariant between public calls. */
  ghost predicate Inv(st: HeapState)
  {
    && Contiguous(st.blocks, st.used)
    && st.used <= MAX_HEAP_SIZE
    && Distinct(st.free)
    && Listed(st.blocks, st.free)
  }

  /** `p` is NULL or the payload address of a chain block that is in use. */
  ghost predicate Live(st: HeapState, p: Option<nat>)
  {
    p.Some? ==>
      && p.value >= H
      && IndexOf(st.blocks, p.value - H) < |st.blocks|
      && st.blocks[IndexOf(st.blocks, p.value - H)].inUse
  }

  /** The steady state of malloc/free-only use: no two neighbours are both
   *  free and the chain's last block is in use. */
  ghost predicate Coalesced(bs: seq<Block>)
  {
    && (forall j :: 0 <= j < |bs| - 1 ==> bs[j].inUse || bs[j + 1].inUse)
    && (|bs| > 0 ==> bs[|bs| - 1].inUse)
  }

  // ---------------------------------------------------------------------------
  // The routines of allocator.c on the abstract state

  /** allocator_init / allocator_reset: nothing carved, nothing free. */
  function Empty(): HeapState
  {
    HeapState([], [], 0)
  }

  /** add_to_list: push `x` at the head of the free list. */
  function AddToList(st: HeapState, x: nat): HeapState
  {
    st.(free := [x] + st.free)
  }

  /** split: block i keeps `size` bytes; the rest becomes a free block right
   *  after it, pushed on the free list. */
  function SplitAt(st: HeapState, i: nat, size: nat): HeapState
    requires i < |st.blocks| && size + H <= st.blocks[i].size
  {
    var b := st.blocks[i];
    var rest := Block(b.off + H + size, b.size - size - H, false);
    HeapState(st.blocks[..i] + [b.(size := size), rest] + st.blocks[i + 1..], [rest.off] + st.free, st.used)
  }

  /** Block c absorbs its successor: the successor's header and payload
   *  become part of c's payload. */
  function Fuse(bs: seq<Block>, c: nat): seq<Block>
    requires c + 1 < |bs|
  {
    bs[..c] + [bs[c].(size := bs[c].size + H + bs[c + 1].size)] + bs[c + 2..]
  }

  /** merge_next: a free successor is unlinked from the free list and absorbed. */
  function AbsorbNext(st: HeapState, i: nat): HeapState
    requires i < |st.blocks|
  {
    var bs := st.blocks;
    if i + 1 < |bs| && !bs[i + 1].inUse then
      HeapState(Fuse(bs, i), Without(st.free, bs[i + 1].off), st.used)
    else st
  }

  /** merge_prev: a free predecessor is unlinked from the free list and absorbs
   *  block i; the index of the surviving block is returned with the state. */
  function AbsorbPrev(st: HeapState, i: nat): (HeapState, nat)
    requires i < |st.blocks|
  {
    var bs := st.blocks;
    if 0 < i && !bs[i - 1].inUse then
      (HeapState(Fuse(bs, i - 1), Without(st.free, bs[i - 1].off), st.used), i - 1)
    else (st, i)
  }

  /** Tail truncation: the last block leaves the chain and `used` retreats to its header. */
  function Truncate(st: HeapState): HeapState
    requires |st.blocks| > 0
  {
    var n := |st.blocks|;
    HeapState(st.blocks[..n - 1], st.free, st.blocks[n - 1].off)
  }

  /** mymalloc's hit on free-list entry k: the entry is unlinked and its
   *  block marked used. */
  function Take(st: HeapState, k: nat): HeapState
    requires k < |st.free|
  {
    var i := IndexOf(st.blocks, st.free[k]);
    var bs := st.blocks;
    HeapState(if i < |bs| then bs[i := bs[i].(inUse := true)] else bs, st.free[..k] + st.free[k + 1..], st.used)
  }

  /** mymalloc: first fit on the free list with an optional split, else a
   *  carve at `used`, else NULL. The result is a payload offset. */
  function Allocate(st: HeapState, size: nat): (HeapState, Option<nat>)
    requires Inv(st)
  {
    var bs, fl := st.blocks, st.free;
    var k := FirstFit(bs, fl, size);
    if k < |fl| then
      var i := IndexOf(bs, fl[k]);
      var taken := Take(st, k);
      if bs[i].size >= size + H + MIN_REMAINDER then (SplitAt(taken, i, size), Some(fl[k] + H))
      else (taken, Some(fl[k] + H))
    else if st.used + H + size > MAX_HEAP_SIZE then (st, None)
    else (HeapState(bs + [Block(st.used, size, true)], fl, st.used + H + size), Some(st.used + H))
  }

  /** myfree's first three steps on block i: clear its flag, merge_next,
   *  merge_prev; returns the state and the index of the surviving block. */
  function Coalesce(st: HeapState, i: nat): (HeapState, nat)
    requires i < |st.blocks|
  {
    var marked := st.(blocks := st.blocks[i := st.blocks[i].(inUse := false)]);
    AbsorbPrev(AbsorbNext(marked, i), i)
  }

  /** myfree: mark free, merge with the next and then the previous neighbour;
   *  a surviving last block is cut off the chain, any other is pushed. */
  function Release(st: HeapState, p: Option<nat>): HeapState
    requires Inv(st) && Live(st, p)
  {
    if p.None? then st
    else
      var (survived, j) := Coalesce(st, IndexOf(st.blocks, p.value - H));
      if j + 1 == |survived.blocks| then Truncate(survived)
      else AddToList(survived, survived.blocks[j].off)
  }

  // ---------------------------------------------------------------------------
  // Layout facts

  /** Blocks of a contiguous chain are in strictly increasing address order
   *  and do not overlap: a block ends no later than any later block starts. */
  lemma {:induction false} ChainOrdered(bs: seq<Block>, used: nat, j: nat, k: nat)
    requires Contiguous(bs, used) && j < k < |bs|
    ensures End(bs[j]) <= bs[k].off
    decreases k - j
  {
    assert Follows(bs, k - 1);
    if j + 1 < k {
      ChainOrdered(bs, used, j, k - 1);
    }
  }

  /** Two different blocks of a contiguous chain do not overlap. */
  lemma BlocksApart(bs: seq<Block>, used: nat, a: nat, b: nat)
    requires Contiguous(bs, used) && a < |bs| && b < |bs| && a != b
    ensures End(bs[a]) <= bs[b].off || End(bs[b]) <= bs[a].off
  {
    if a < b {
      ChainOrdered(bs, used, a, b);
    } else {
      ChainOrdered(bs, used, b, a);
    }
  }

  /** Every block of a contiguous chain lies below the high-water mark. */
  lemma EndWithin(bs: seq<Block>, used: nat, j: nat)
    requires Contiguous(bs, used) && j < |bs|
    ensures End(bs[j]) <= used
  {
    if j + 1 < |bs| {
      ChainOrdered(bs, used, j, |bs| - 1);
    }
  }

  /** In a contiguous chain a header offset identifies its block. */
  lemma IndexOfAt(bs: seq<Block>, used: nat, j: nat)
    requires Contiguous(bs, used) && j < |bs|
    ensures IndexOf(bs, bs[j].off) == j
  {
    var m := IndexOf(bs, bs[j].off);
    IndexOfBound(bs, bs[j].off, j);
    if m < j {
      ChainOrdered(bs, used, m, j);
    }
  }

  /** An address strictly inside block i is the header of no block. */
  lemma InsideNoHeader(bs: seq<Block>, used: nat, i: nat, x: nat)
    requires Contiguous(bs, used) && i < |bs| && bs[i].off < x < End(bs[i])
    ensures forall j :: 0 <= j < |bs| ==> bs[j].off != x
  {
    forall j | 0 <= j < |bs|
      ensures bs[j].off != x
    {
      if j < i {
        ChainOrdered(bs, used, j, i);
      } else if i < j {
        ChainOrdered(bs, used, i, j);
      }
    }
  }

  /** Offsets of a contiguous chain are pairwise distinct. */
  lemma OffsetsDistinct(bs: seq<Block>, used: nat)
    requires Contiguous(bs, used)
    ensures forall j, k :: 0 <= j < |bs| && 0 <= k < |bs| && j != k ==> bs[j].off != bs[k].off
  {
    forall j, k | 0 <= j < |bs| && 0 <= k < |bs| && j != k
      ensures bs[j].off != bs[k].off
    {
      if j < k {
        ChainOrdered(bs, used, j, k);
      } else {
        ChainOrdered(bs, used, k, j);
      }
    }
  }

  /** Unlinking from a list without repetitions: it stays without
   *  repetitions, and exactly the entries other than `x` are still found. */
  lemma WithoutMembers(s: seq<nat>, x: nat, y: nat)
    requires Distinct(s)
    ensures Distinct(Without(s, x))
    ensures Find(Without(s, x), y) < |Without(s, x)| <==> Find(s, y) < |s| && y != x
  {
    var k := Find(s, x);
    if k < |s| {
      DistinctRemove(s, k);
      FindRemove(s, k, y);
    }
  }

  // ---------------------------------------------------------------------------
  // Each routine keeps the invariant

  /** The chain after split: block i shrinks and the remainder follows it. */
  lemma SplitShape(st: HeapState, i: nat, size: nat)
    requires i < |st.blocks| && size + H <= st.blocks[i].size
    ensures var bs, bs' := st.blocks, SplitAt(st, i, size).blocks;
      && |bs'| == |bs| + 1
      && (forall j :: 0 <= j < i ==> bs'[j] == bs[j])
      && bs'[i] == bs[i].(size := size)
      && bs'[i + 1] == Block(bs[i].off + H + size, bs[i].size - size - H, false)
      && (forall j :: i + 1 < j < |bs'| ==> bs'[j] == bs[j - 1])
  {
  }

  lemma SplitKeepsContiguous(st: HeapState, i: nat, size: nat)
    requires Contiguous(st.blocks, st.used) && i < |st.blocks| && size + H <= st.blocks[i].size
    ensures Contiguous(SplitAt(st, i, size).blocks, st.used)
  {
    SplitShape(st, i, size);
    var bs, bs' := st.blocks, SplitAt(st, i, size).blocks;
    forall j | 0 <= j < |bs'| - 1
      ensures Follows(bs', j)
    {
      if j + 1 < |bs| { assert Follows(bs, j); }
      if 0 < j < |bs| { assert Follows(bs, j - 1); }
      if j < i - 1 {
        assert bs'[j + 1] == bs[j + 1];
      } else if i + 1 < j {
        assert bs'[j + 1] == bs[j];
      }
    }
  }

  /** The remainder's header lands strictly inside block i, so it is not listed. */
  lemma SplitHeaderFresh(st: HeapState, i: nat, size: nat)
    requires Contiguous(st.blocks, st.used) && Listed(st.blocks, st.free)
    requires i < |st.blocks| && size + H <= st.blocks[i].size
    ensures Find(st.free, st.blocks[i].off + H + size) == |st.free|
    ensures forall j :: 0 <= j < |st.blocks| ==> st.blocks[j].off != st.blocks[i].off + H + size
  {
    var bs, fl := st.blocks, st.free;
    var r := bs[i].off + H + size;
    InsideNoHeader(bs, st.used, i, r);
    forall k | 0 <= k < |fl|
      ensures fl[k] != r
    {
      assert bs[IndexOf(bs, fl[k])].off == fl[k];
    }
  }

  lemma SplitListsChainBlocks(st: HeapState, i: nat, size: nat)
    requires Contiguous(st.blocks, st.used) && Listed(st.blocks, st.free)
    requires i < |st.blocks| && size + H <= st.blocks[i].size
    ensures var st' := SplitAt(st, i, size);
      forall k :: 0 <= k < |st'.free| ==>
        IndexOf(st'.blocks, st'.free[k]) < |st'.blocks| && !st'.blocks[IndexOf(st'.blocks, st'.free[k])].inUse
  {
    SplitShape(st, i, size);
    SplitKeepsContiguous(st, i, size);
    var st' := SplitAt(st, i, size);
    forall k | 0 <= k < |st'.free|
      ensures IndexOf(st'.blocks, st'.free[k]) < |st'.blocks| && !st'.blocks[IndexOf(st'.blocks, st'.free[k])].inUse
    {
      if k == 0 {
        IndexOfAt(st'.blocks, st.used, i + 1);
      } else {
        assert st'.free[k] == st.free[k - 1];
        SplitKeepsIndex(st, i, size, IndexOf(st.blocks, st.free[k - 1]));
      }
    }
  }

  /** A block keeps its flag through split, and is found one position
   *  further on when it lies after the split block. */
  lemma SplitKeepsIndex(st: HeapState, i: nat, size: nat, m: nat)
    requires Contiguous(st.blocks, st.used) && i < |st.blocks| && size + H <= st.blocks[i].size
    requires m < |st.blocks|
    ensures var bs' := SplitAt(st, i, size).blocks;
      var d := if m <= i then m else m + 1;
      d < |bs'| && IndexOf(bs', st.blocks[m].off) == d && bs'[d].inUse == st.blocks[m].inUse
  {
    SplitShape(st, i, size);
    SplitKeepsContiguous(st, i, size);
    IndexOfAt(SplitAt(st, i, size).blocks, st.used, if m <= i then m else m + 1);
  }

  lemma SplitListsFreeBlocks(st: HeapState, i: nat, size: nat)
    requires Listed(st.blocks, st.free)
    requires i < |st.blocks| && size + H <= st.blocks[i].size
    ensures var st' := SplitAt(st, i, size);
      forall j :: 0 <= j < |st'.blocks| && !st'.blocks[j].inUse ==> Find(st'.free, st'.blocks[j].off) < |st'.free|
  {
    SplitShape(st, i, size);
    var bs, fl := st.blocks, st.free;
    var st' := SplitAt(st, i, size);
    var bs', fl' := st'.blocks, st'.free;
    forall j | 0 <= j < |bs'| && !bs'[j].inUse
      ensures Find(fl', bs'[j].off) < |fl'|
    {
      FindPush(fl, fl'[0], bs'[j].off);
      if j < i + 1 {
        assert bs'[j].off == bs[j].off && bs'[j].inUse == bs[j].inUse;
      } else if j > i + 1 {
        assert bs'[j] == bs[j - 1];
      }
    }
  }

  /** split keeps the invariant. */
  lemma SplitKeepsInv(st: HeapState, i: nat, size: nat)
    requires Inv(st) && i < |st.blocks| && size + H <= st.blocks[i].size
    ensures Inv(SplitAt(st, i, size))
  {
    SplitKeepsContiguous(st, i, size);
    SplitHeaderFresh(st, i, size);
    DistinctPush(st.free, st.blocks[i].off + H + size);
    SplitListsChainBlocks(st, i, size);
    SplitListsFreeBlocks(st, i, size);
  }

  lemma FuseShape(bs: seq<Block>, c: nat)
    requires c + 1 < |bs|
    ensures var bs' := Fuse(bs, c);
      && |bs'| == |bs| - 1
      && (forall j :: 0 <= j < c ==> bs'[j] == bs[j])
      && bs'[c] == bs[c].(size := bs[c].size + H + bs[c + 1].size)
      && (forall j :: c < j < |bs'| ==> bs'[j] == bs[j + 1])
  {
  }

  /** Fusing two neighbours keeps the chain contiguous over the same range. */
  lemma FuseKeepsContiguous(bs: seq<Block>, used: nat, c: nat)
    requires Contiguous(bs, used) && c + 1 < |bs|
    ensures Contiguous(Fuse(bs, c), used)
  {
    FuseShape(bs, c);
    assert Follows(bs, c);
    var bs' := Fuse(bs, c);
    forall j | 0 <= j < |bs'| - 1
      ensures Follows(bs', j)
    {
      if j + 1 < |bs| { assert Follows(bs, j); }
      if j + 2 < |bs| { assert Follows(bs, j + 1); }
      if j + 1 < c {
        assert bs'[j + 1] == bs[j + 1];
      } else if c < j {
        assert bs'[j] == bs[j + 1];
      }
    }
  }

  /** Fusing blocks c and c+1, one of which is the unlisted block `e`, and
   *  unlinking the other from the free list leaves the fused block (at
   *  bs[c].off) as the only unlisted exception. */
  lemma FuseKeepsListed(bs: seq<Block>, fl: seq<nat>, used: nat, c: nat, e: nat)
    requires Contiguous(bs, used) && Distinct(fl) && c + 1 < |bs|
    requires e == bs[c].off || e == bs[c + 1].off
    requires ListedExcept(bs, fl, e)
    ensures var x := if e == bs[c].off then bs[c + 1].off else bs[c].off;
      Distinct(Without(fl, x)) && ListedExcept(Fuse(bs, c), Without(fl, x), bs[c].off)
  {
    var x := if e == bs[c].off then bs[c + 1].off else bs[c].off;
    WithoutMembers(fl, x, x);
    FuseListsEntries(bs, fl, used, c, e, x);
    FuseListsFree(bs, fl, used, c, e, x);
  }

  /** After fusing, every remaining free-list entry is a free chain block
   *  other than the fused one. */
  lemma FuseListsEntries(bs: seq<Block>, fl: seq<nat>, used: nat, c: nat, e: nat, x: nat)
    requires Contiguous(bs, used) && Distinct(fl) && c + 1 < |bs|
    requires (e == bs[c].off && x == bs[c + 1].off) || (e == bs[c + 1].off && x == bs[c].off)
    requires ListedExcept(bs, fl, e)
    ensures var bs', fl' := Fuse(bs, c), Without(fl, x);
      forall k :: 0 <= k < |fl'| ==>
        IndexOf(bs', fl'[k]) < |bs'| && !bs'[IndexOf(bs', fl'[k])].inUse && fl'[k] != bs[c].off
  {
    var bs', fl' := Fuse(bs, c), Without(fl, x);
    FuseShape(bs, c);
    FuseKeepsContiguous(bs, used, c);
    forall k | 0 <= k < |fl'|
      ensures IndexOf(bs', fl'[k]) < |bs'| && !bs'[IndexOf(bs', fl'[k])].inUse && fl'[k] != bs[c].off
    {
      var y := fl'[k];
      FindBound(fl', y, k);
      WithoutMembers(fl, x, y);
      var f := Find(fl, y);
      assert fl[f] == y && y != x && y != e;
      var d := IndexOf(bs, y);
      assert d < |bs| && bs[d].off == y && !bs[d].inUse;
      var d' := if d < c then d else d - 1;
      assert bs'[d'] == bs[d];
      IndexOfAt(bs', used, d');
    }
  }

  /** After fusing, every free chain block other than the fused one is
   *  still on the free list. */
  lemma FuseListsFree(bs: seq<Block>, fl: seq<nat>, used: nat, c: nat, e: nat, x: nat)
    requires Contiguous(bs, used) && Distinct(fl) && c + 1 < |bs|
    requires (e == bs[c].off && x == bs[c + 1].off) || (e == bs[c + 1].off && x == bs[c].off)
    requires ListedExcept(bs, fl, e)
    ensures var bs', fl' := Fuse(bs, c), Without(fl, x);
      forall j :: 0 <= j < |bs'| && bs'[j].off != bs[c].off && !bs'[j].inUse ==> Find(fl', bs'[j].off) < |fl'|
  {
    var bs', fl' := Fuse(bs, c), Without(fl, x);
    FuseShape(bs, c);
    forall j | 0 <= j < |bs'| && bs'[j].off != bs[c].off && !bs'[j].inUse
      ensures Find(fl', bs'[j].off) < |fl'|
    {
      var d := if j < c then j else j + 1;
      assert bs'[j] == bs[d];
      IndexOfAt(bs, used, d);
      IndexOfAt(bs, used, c + 1);
      WithoutMembers(fl, x, bs[d].off);
    }
  }

  /** merge_next keeps the chain contiguous; the free list stays in step
   *  with the flags, except for block i itself. */
  lemma AbsorbNextKeeps(st: HeapState, i: nat)
    requires Contiguous(st.blocks, st.used) && Distinct(st.free) && i < |st.blocks|
    requires ListedExcept(st.blocks, st.free, st.blocks[i].off)
    ensures var st' := AbsorbNext(st, i);
      && Contiguous(st'.blocks, st'.used) && st'.used == st.used
      && Distinct(st'.free) && ListedExcept(st'.blocks, st'.free, st.blocks[i].off)
      && i < |st'.blocks| <= |st.blocks|
      && st'.blocks[i].off == st.blocks[i].off && st'.blocks[i].inUse == st.blocks[i].inUse
      && (forall j :: 0 <= j < i ==> st'.blocks[j] == st.blocks[j])
  {
    var bs := st.blocks;
    if i + 1 < |bs| && !bs[i + 1].inUse {
      FuseShape(bs, i);
      FuseKeepsContiguous(bs, st.used, i);
      FuseKeepsListed(bs, st.free, st.used, i, bs[i].off);
    }
  }

  /** merge_prev: when block i is free and unlisted, the surviving block is
   *  free and unlisted, and every other block is listed exactly when free. */
  lemma AbsorbPrevKeeps(st: HeapState, i: nat)
    requires Contiguous(st.blocks, st.used) && Distinct(st.free) && i < |st.blocks|
    requires ListedExcept(st.blocks, st.free, st.blocks[i].off) && !st.blocks[i].inUse
    ensures var (st', j) := AbsorbPrev(st, i);
      && Contiguous(st'.blocks, st'.used) && st'.used == st.used
      && Distinct(st'.free) && j < |st'.blocks| && !st'.blocks[j].inUse
      && ListedExcept(st'.blocks, st'.free, st'.blocks[j].off)
  {
    var bs := st.blocks;
    if 0 < i && !bs[i - 1].inUse {
      FuseShape(bs, i - 1);
      FuseKeepsContiguous(bs, st.used, i - 1);
      FuseKeepsListed(bs, st.free, st.used, i - 1, bs[i].off);
    }
  }

  /** Unlinking entry k from the free list (it is the only copy of its offset). */
  lemma UnlinkAt(fl: seq<nat>, k: nat)
    requires Distinct(fl) && k < |fl|
    ensures fl[..k] + fl[k + 1..] == Without(fl, fl[k])
    ensures Distinct(fl[..k] + fl[k + 1..])
  {
    FindBound(fl, fl[k], k);
    var f := Find(fl, fl[k]);
    assert f == k;
    DistinctRemove(fl, k);
  }

  /** Flipping a block's flag does not move any block. */
  lemma FlagKeepsContiguous(bs: seq<Block>, used: nat, i: nat, flag: bool)
    requires Contiguous(bs, used) && i < |bs|
    ensures Contiguous(bs[i := bs[i].(inUse := flag)], used)
  {
    var bs' := bs[i := bs[i].(inUse := flag)];
    forall j | 0 <= j < |bs'| - 1
      ensures Follows(bs', j)
    {
      assert Follows(bs, j);
      assert End(bs'[j]) == End(bs[j]) && bs'[j + 1].off == bs[j + 1].off;
    }
  }

  /** Taking block k of the free list, marking it used, keeps the invariant. */
  lemma TakeKeepsInv(st: HeapState, k: nat)
    requires Inv(st) && k < |st.free|
    ensures var i := IndexOf(st.blocks, st.free[k]);
      && i < |st.blocks| && !st.blocks[i].inUse
      && Take(st, k) == HeapState(st.blocks[i := st.blocks[i].(inUse := true)], st.free[..k] + st.free[k + 1..], st.used)
      && Inv(Take(st, k))
  {
    var bs, fl := st.blocks, st.free;
    var i := IndexOf(bs, fl[k]);
    var bs' := bs[i := bs[i].(inUse := true)];
    var fl' := fl[..k] + fl[k + 1..];
    UnlinkAt(fl, k);
    FlagKeepsContiguous(bs, st.used, i, true);
    forall m | 0 <= m < |fl'|
      ensures IndexOf(bs', fl'[m]) < |bs'| && !bs'[IndexOf(bs', fl'[m])].inUse
    {
      var c := if m < k then m else m + 1;
      assert fl'[m] == fl[c];
      var d := IndexOf(bs, fl[c]);
      IndexOfAt(bs', st.used, d);
    }
    forall j | 0 <= j < |bs'| && !bs'[j].inUse
      ensures Find(fl', bs'[j].off) < |fl'|
    {
      IndexOfAt(bs, st.used, j);
      FindRemove(fl, k, bs[j].off);
    }
  }

  /** Carving a new block at the high-water mark keeps the invariant. */
  lemma CarveKeepsInv(st: HeapState, size: nat)
    requires Inv(st) && st.used + H + size <= MAX_HEAP_SIZE
    ensures Inv(HeapState(st.blocks + [Block(st.used, size, true)], st.free, st.used + H + size))
  {
    var bs, fl := st.blocks, st.free;
    var bs' := bs + [Block(st.used, size, true)];
    forall j | 0 <= j < |bs'| - 1
      ensures Follows(bs', j)
    {
      assert bs'[j] == bs[j];
      if j + 1 < |bs| { assert Follows(bs, j); }
    }
    forall m | 0 <= m < |fl|
      ensures IndexOf(bs', fl[m]) < |bs'| && !bs'[IndexOf(bs', fl[m])].inUse
    {
      IndexOfAt(bs', st.used + H + size, IndexOf(bs, fl[m]));
    }
    forall j | 0 <= j < |bs'| && !bs'[j].inUse
      ensures Find(fl, bs'[j].off) < |fl|
    {
      assert bs'[j] == bs[j];
    }
  }

  /** mymalloc when the free list has a fit: the result is the fitting
   *  block's payload, split when the tail is large enough. */
  lemma AllocateFit(st: HeapState, size: nat)
    requires Inv(st) && FirstFit(st.blocks, st.free, size) < |st.free|
    ensures var k := FirstFit(st.blocks, st.free, size);
      var i := IndexOf(st.blocks, st.free[k]);
      && i < |st.blocks|
      && Allocate(st, size).1 == Some(st.free[k] + H)
      && Allocate(st, size).0
         == if st.blocks[i].size >= size + H + MIN_REMAINDER then SplitAt(Take(st, k), i, size) else Take(st, k)
  {
    var k := FirstFit(st.blocks, st.free, size);
    TakeKeepsInv(st, k);
  }

  /** mymalloc keeps the invariant. */
  lemma AllocateKeepsInv(st: HeapState, size: nat)
    requires Inv(st)
    ensures Inv(Allocate(st, size).0)
  {
    var bs, fl := st.blocks, st.free;
    var k := FirstFit(bs, fl, size);
    if k < |fl| {
      TakeKeepsInv(st, k);
      var i := IndexOf(bs, fl[k]);
      var taken := Take(st, k);
      if bs[i].size >= size + H + MIN_REMAINDER {
        SplitKeepsInv(taken, i, size);
      }
    } else if st.used + H + size <= MAX_HEAP_SIZE {
      CarveKeepsInv(st, size);
    }
  }

  /** Clearing the flag of a live block leaves it as the only unlisted free block. */
  lemma MarkFreeKeeps(st: HeapState, i: nat)
    requires Inv(st) && i < |st.blocks| && st.blocks[i].inUse
    ensures var bs' := st.blocks[i := st.blocks[i].(inUse := false)];
      Contiguous(bs', st.used) && ListedExcept(bs', st.free, st.blocks[i].off)
  {
    var bs, fl := st.blocks, st.free;
    var bs' := bs[i := bs[i].(inUse := false)];
    FlagKeepsContiguous(bs, st.used, i, false);
    IndexOfAt(bs, st.used, i);
    forall k | 0 <= k < |fl|
      ensures IndexOf(bs', fl[k]) < |bs'| && !bs'[IndexOf(bs', fl[k])].inUse && fl[k] != bs[i].off
    {
      IndexOfAt(bs', st.used, IndexOf(bs, fl[k]));
    }
  }

  /** A free, unlisted last block leaves the chain and `used` retreats to it. */
  lemma TruncateKeepsInv(st: HeapState)
    requires Contiguous(st.blocks, st.used) && st.used <= MAX_HEAP_SIZE && Distinct(st.free)
    requires |st.blocks| > 0 && ListedExcept(st.blocks, st.free, st.blocks[|st.blocks| - 1].off)
    ensures Inv(Truncate(st))
  {
    var bs, fl := st.blocks, st.free;
    var n := |bs|;
    var bs' := bs[..n - 1];
    if n > 1 { assert Follows(bs, n - 2); }
    forall j | 0 <= j < |bs'| - 1
      ensures Follows(bs', j)
    {
      assert Follows(bs, j);
      assert bs'[j + 1] == bs[j + 1];
    }
    assert Contiguous(bs', bs[n - 1].off);
    IndexOfAt(bs, st.used, n - 1);
    forall k | 0 <= k < |fl|
      ensures IndexOf(bs', fl[k]) < |bs'| && !bs'[IndexOf(bs', fl[k])].inUse
    {
      IndexOfAt(bs', bs[n - 1].off, IndexOf(bs, fl[k]));
    }
    forall j | 0 <= j < |bs'| && !bs'[j].inUse
      ensures Find(fl, bs'[j].off) < |fl|
    {
      IndexOfAt(bs, st.used, j);
    }
  }

  /** add_to_list of the free, unlisted block j restores the invariant. */
  lemma PushKeepsInv(st: HeapState, j: nat)
    requires Contiguous(st.blocks, st.used) && st.used <= MAX_HEAP_SIZE && Distinct(st.free)
    requires j < |st.blocks| && !st.blocks[j].inUse && ListedExcept(st.blocks, st.free, st.blocks[j].off)
    ensures Inv(AddToList(st, st.blocks[j].off))
  {
    var bs, fl := st.blocks, st.free;
    var fl' := [bs[j].off] + fl;
    UnlistedNotFound(bs, fl, bs[j].off);
    DistinctPush(fl, bs[j].off);
    IndexOfAt(bs, st.used, j);
    forall k | 0 <= k < |fl'|
      ensures IndexOf(bs, fl'[k]) < |bs| && !bs[IndexOf(bs, fl'[k])].inUse
    {
      if k > 0 {
        assert fl'[k] == fl[k - 1];
      }
    }
    forall m | 0 <= m < |bs| && !bs[m].inUse
      ensures Find(fl', bs[m].off) < |fl'|
    {
      FindPush(fl, bs[j].off, bs[m].off);
    }
  }

  /** The block excepted from ListedExcept is not on the free list. */
  lemma UnlistedNotFound(bs: seq<Block>, fl: seq<nat>, e: nat)
    requires ListedExcept(bs, fl, e)
    ensures Find(fl, e) == |fl|
  {
  }

  /** myfree, step by step: the result of Release given the states after
   *  marking, merge_next and merge_prev. */
  lemma ReleaseSteps(st: HeapState, x: nat, i: nat, survived: HeapState, j: nat)
    requires Inv(st) && Live(st, Some(x + H)) && i == IndexOf(st.blocks, x)
    requires (survived, j) == Coalesce(st, i)
    ensures j < |survived.blocks| && Find(survived.free, survived.blocks[j].off) == |survived.free|
    ensures Contiguous(survived.blocks, survived.used) && survived.used == st.used && Distinct(survived.free)
    ensures !survived.blocks[j].inUse && ListedExcept(survived.blocks, survived.free, survived.blocks[j].off)
    ensures Release(st, Some(x + H))
      == if j + 1 == |survived.blocks| then Truncate(survived) else AddToList(survived, survived.blocks[j].off)
  {
    var marked := st.(blocks := st.blocks[i := st.blocks[i].(inUse := false)]);
    var merged := AbsorbNext(marked, i);
    MarkFreeKeeps(st, i);
    AbsorbNextKeeps(marked, i);
    AbsorbPrevKeeps(merged, i);
    UnlistedNotFound(survived.blocks, survived.free, survived.blocks[j].off);
  }

  /** myfree keeps the invariant. */
  lemma ReleaseKeepsInv(st: HeapState, p: Option<nat>)
    requires Inv(st) && Live(st, p)
    ensures Inv(Release(st, p))
  {
    if p.Some? {
      var x := p.value - H;
      var i := IndexOf(st.blocks, x);
      var (survived, j) := Coalesce(st, i);
      ReleaseSteps(st, x, i, survived, j);
      if j + 1 == |survived.blocks| {
        TruncateKeepsInv(survived);
      } else {
        PushKeepsInv(survived, j);
      }
    }
  }

  /** A block that is in use keeps the same header and flag through mymalloc,
   *  and mymalloc never hands out its payload. */
  lemma AllocateKeepsLive(st: HeapState, size: nat, q: nat)
    requires Inv(st) && Live(st, Some(q))
    ensures Live(Allocate(st, size).0, Some(q))
    ensures Allocate(st, size).1 != Some(q)
    ensures var bs' := Allocate(st, size).0.blocks;
      bs'[IndexOf(bs', q - H)] == st.blocks[IndexOf(st.blocks, q - H)]
  {
    AllocateKeepsInv(st, size);
    var st' := Allocate(st, size).0;
    var c := AllocateMovesBlock(st, size, q);
    IndexOfAt(st'.blocks, st'.used, c);
  }

  /** Where a block in use sits after mymalloc: at the same index, or one
   *  further when a split happened before it. */
  lemma AllocateMovesBlock(st: HeapState, size: nat, q: nat) returns (c: nat)
    requires Inv(st) && Live(st, Some(q))
    ensures var bs' := Allocate(st, size).0.blocks;
      c < |bs'| && bs'[c] == st.blocks[IndexOf(st.blocks, q - H)]
    ensures Allocate(st, size).1 != Some(q)
  {
    var bs, fl := st.blocks, st.free;
    var i0 := IndexOf(bs, q - H);
    if FirstFit(bs, fl, size) < |fl| {
      c := FitMovesBlock(st, size, q);
    } else {
      c := i0;
      if st.used + H + size <= MAX_HEAP_SIZE {
        var st' := Allocate(st, size).0;
        assert st' == HeapState(bs + [Block(st.used, size, true)], fl, st.used + H + size);
        assert st'.blocks[i0] == bs[i0];
        EndWithin(bs, st.used, i0);
      }
    }
  }

  /** AllocateMovesBlock when the free list has a fit. */
  lemma FitMovesBlock(st: HeapState, size: nat, q: nat) returns (c: nat)
    requires Inv(st) && Live(st, Some(q)) && FirstFit(st.blocks, st.free, size) < |st.free|
    ensures var bs' := Allocate(st, size).0.blocks;
      c < |bs'| && bs'[c] == st.blocks[IndexOf(st.blocks, q - H)]
    ensures Allocate(st, size).1 != Some(q)
  {
    var bs, fl := st.blocks, st.free;
    var i0 := IndexOf(bs, q - H);
    var k := FirstFit(bs, fl, size);
    AllocateFit(st, size);
    var i := IndexOf(bs, fl[k]);
    assert i != i0;
    var taken := Take(st, k);
    assert i < |bs| && i0 < |bs|;
    assert taken.blocks == bs[i := bs[i].(inUse := true)];
    assert taken.blocks[i0] == bs[i0];
    if bs[i].size >= size + H + MIN_REMAINDER {
      SplitShape(taken, i, size);
      c := if i0 < i then i0 else i0 + 1;
    } else {
      c := i0;
    }
  }

  /** mymalloc hands out the payload of a block in use that holds at least
   *  `size` bytes and fewer than `size + H + MIN_REMAINDER`. */
  lemma AllocateResult(st: HeapState, size: nat) returns (j: nat)
    requires Inv(st)
    ensures var (st', r) := Allocate(st, size);
      r.Some? ==>
        && Live(st', r)
        && j < |st'.blocks| && st'.blocks[j].off + H == r.value
        && size <= st'.blocks[j].size < size + H + MIN_REMAINDER
  {
    AllocateKeepsInv(st, size);
    var bs, fl := st.blocks, st.free;
    var st' := Allocate(st, size).0;
    j := |bs|;
    if FirstFit(bs, fl, size) < |fl| {
      j := FitResult(st, size);
    } else if st.used + H + size <= MAX_HEAP_SIZE {
      assert st'.blocks[|bs|] == Block(st.used, size, true);
    }
    if Allocate(st, size).1.Some? {
      IndexOfAt(st'.blocks, st'.used, j);
    }
  }

  /** AllocateResult when the free list has a fit: the block handed out
   *  keeps its index. */
  lemma FitResult(st: HeapState, size: nat) returns (j: nat)
    requires Inv(st) && FirstFit(st.blocks, st.free, size) < |st.free|
    ensures var (st', r) := Allocate(st, size);
      && j < |st'.blocks| && r == Some(st'.blocks[j].off + H) && st'.blocks[j].inUse
      && size <= st'.blocks[j].size < size + H + MIN_REMAINDER
  {
    var bs, fl := st.blocks, st.free;
    var st' := Allocate(st, size).0;
    var k := FirstFit(bs, fl, size);
    AllocateFit(st, size);
    j := IndexOf(bs, fl[k]);
    var taken := Take(st, k);
    assert taken.blocks == bs[j := bs[j].(inUse := true)];
    if bs[j].size >= size + H + MIN_REMAINDER {
      SplitShape(taken, j, size);
    }
    assert st'.blocks[j] == bs[j].(inUse := true, size := st'.blocks[j].size);
  }

  /** For a block in use, being excepted changes nothing: it is not listed
   *  either way. */
  lemma ListedExceptInUse(bs: seq<Block>, fl: seq<nat>, used: nat, i: nat)
    requires Contiguous(bs, used) && i < |bs| && bs[i].inUse
    ensures Listed(bs, fl) <==> ListedExcept(bs, fl, bs[i].off)
  {
    IndexOfAt(bs, used, i);
    forall j | 0 <= j < |bs| && !bs[j].inUse
      ensures bs[j].off != bs[i].off
    {
      IndexOfAt(bs, used, j);
    }
  }

  /** myrealloc to at most the current size of block i: a tail of at least
   *  MIN_REMAINDER payload bytes is split off. */
  function ShrinkTo(st: HeapState, i: nat, size: nat): HeapState
    requires i < |st.blocks| && size <= st.blocks[i].size
  {
    if st.blocks[i].size - size >= H + MIN_REMAINDER then SplitAt(st, i, size) else st
  }

  /** myrealloc absorbing the free successor of block i, then splitting off
   *  a large enough tail. */
  function AbsorbTo(st: HeapState, i: nat, size: nat): HeapState
    requires i < |st.blocks|
  {
    var grown := AbsorbNext(st, i);
    if grown.blocks[i].size >= size + H + MIN_REMAINDER then SplitAt(grown, i, size) else grown
  }

  /** myrealloc growing the last block in place: `used` advances by the difference. */
  function GrowLastTo(st: HeapState, size: nat): HeapState
    requires |st.blocks| > 0 && st.blocks[|st.blocks| - 1].size <= size
  {
    var n := |st.blocks|;
    HeapState(st.blocks[n - 1 := st.blocks[n - 1].(size := size)], st.free,
              st.used + (size - st.blocks[n - 1].size))
  }

  /** myrealloc's move: allocate, then free the old block; a failed
   *  allocation changes nothing and yields NULL. */
  function MoveTo(st: HeapState, p: nat, size: nat): (HeapState, Option<nat>)
    requires Inv(st) && Live(st, Some(p))
  {
    var (moved, q) := Allocate(st, size);
    if q.None? then (st, None)
    else
      AllocateKeepsInv(st, size);
      AllocateKeepsLive(st, size, p);
      (Release(moved, Some(p)), q)
  }

  /** myrealloc of the live block at index i to a nonzero size: a shrink
   *  splits off a large enough tail, a grow first absorbs a free successor,
   *  then grows the last block in place, and otherwise moves (allocate, copy,
   *  free); a failed move returns NULL and changes nothing. */
  function ResizeAt(st: HeapState, i: nat, size: nat): (HeapState, Option<nat>)
    requires Inv(st) && i < |st.blocks| && st.blocks[i].inUse
  {
    var bs := st.blocks;
    var oldSize := bs[i].size;
    var p := bs[i].off + H;
    if size <= oldSize then (ShrinkTo(st, i, size), Some(p))
    else if i + 1 < |bs| && !bs[i + 1].inUse && oldSize + H + bs[i + 1].size >= size then (AbsorbTo(st, i, size), Some(p))
    else if i + 1 == |bs| && st.used + (size - oldSize) <= MAX_HEAP_SIZE then (GrowLastTo(st, size), Some(p))
    else
      IndexOfAt(bs, st.used, i);
      MoveTo(st, p, size)
  }

  /** myrealloc: zero size frees, NULL allocates, and a live block is
   *  resized as ResizeAt says. */
  function Resize(st: HeapState, p: Option<nat>, size: nat): (HeapState, Option<nat>)
    requires Inv(st) && Live(st, p)
  {
    if size == 0 then (Release(st, p), None)
    else if p.None? then Allocate(st, size)
    else ResizeAt(st, IndexOf(st.blocks, p.value - H), size)
  }

  /** myrealloc growing the last block in place keeps the invariant. */
  lemma GrowLastKeepsInv(st: HeapState, size: nat)
    requires Inv(st) && |st.blocks| > 0 && st.blocks[|st.blocks| - 1].size <= size
    requires st.used + (size - st.blocks[|st.blocks| - 1].size) <= MAX_HEAP_SIZE
    ensures Inv(GrowLastTo(st, size))
  {
    GrowLastKeepsContiguous(st.blocks, st.used, size);
    ResizedKeepsListed(st.blocks, GrowLastTo(st, size).blocks, st.free, GrowLastTo(st, size).used);
  }

  /** Changing payload sizes only, with the chain still contiguous, keeps
   *  the free list in step with the flags. */
  lemma ResizedKeepsListed(bs: seq<Block>, bs': seq<Block>, fl: seq<nat>, used': nat)
    requires Listed(bs, fl) && Contiguous(bs', used') && |bs'| == |bs|
    requires forall j :: 0 <= j < |bs| ==> bs'[j].off == bs[j].off && bs'[j].inUse == bs[j].inUse
    ensures Listed(bs', fl)
  {
    forall k | 0 <= k < |fl|
      ensures IndexOf(bs', fl[k]) < |bs'| && !bs'[IndexOf(bs', fl[k])].inUse
    {
      IndexOfAt(bs', used', IndexOf(bs, fl[k]));
    }
  }

  /** Growing the last block moves the high-water mark by the difference. */
  lemma GrowLastKeepsContiguous(bs: seq<Block>, used: nat, size: nat)
    requires Contiguous(bs, used) && |bs| > 0 && bs[|bs| - 1].size <= size
    ensures Contiguous(bs[|bs| - 1 := bs[|bs| - 1].(size := size)], used + (size - bs[|bs| - 1].size))
  {
    var bs' := bs[|bs| - 1 := bs[|bs| - 1].(size := size)];
    forall j | 0 <= j < |bs'| - 1
      ensures Follows(bs', j)
    {
      assert Follows(bs, j);
      assert bs'[j] == bs[j];
    }
  }

  /** myrealloc's forward absorption of a free successor by a live block,
   *  with the optional split, keeps the invariant. */
  lemma AbsorbLiveKeepsInv(st: HeapState, i: nat, size: nat)
    requires Inv(st) && i < |st.blocks| && st.blocks[i].inUse
    ensures Inv(AbsorbNext(st, i)) && Inv(AbsorbTo(st, i, size))
  {
    var grown := AbsorbNext(st, i);
    ListedExceptInUse(st.blocks, st.free, st.used, i);
    AbsorbNextKeeps(st, i);
    ListedExceptInUse(grown.blocks, grown.free, grown.used, i);
    if grown.blocks[i].size >= size + H + MIN_REMAINDER {
      SplitKeepsInv(grown, i, size);
    }
  }

  /** myrealloc's move keeps the invariant. */
  lemma MoveKeepsInv(st: HeapState, p: nat, size: nat)
    requires Inv(st) && Live(st, Some(p))
    ensures Inv(MoveTo(st, p, size).0)
  {
    var (moved, q) := Allocate(st, size);
    AllocateKeepsInv(st, size);
    AllocateKeepsLive(st, size, p);
    ReleaseKeepsInv(moved, Some(p));
  }

  /** Two different blocks of a valid heap, one of `n` bytes with payload
   *  `x` and one of at least `size > n` bytes with payload `y`, lie inside
   *  the arena and their first `n` payload bytes do not overlap. */
  lemma PayloadsApart(st: HeapState, c: nat, j: nat, n: nat, size: nat)
    requires Inv(st) && c < |st.blocks| && j < |st.blocks| && c != j
    requires st.blocks[c].size == n && n < size <= st.blocks[j].size
    ensures st.blocks[c].off + H + n <= MAX_HEAP_SIZE && st.blocks[j].off + H + size <= MAX_HEAP_SIZE
    ensures st.blocks[c].off + H + n <= st.blocks[j].off + H || st.blocks[j].off + H + n <= st.blocks[c].off + H
  {
    BlocksApart(st.blocks, st.used, c, j);
    EndWithin(st.blocks, st.used, c);
    EndWithin(st.blocks, st.used, j);
  }

  /** Where mymalloc leaves the live block at payload `x` (index c) and the
   *  block it hands out (index j) when it succeeds. */
  lemma MoveBlocks(st: HeapState, x: nat, size: nat) returns (c: nat, j: nat)
    requires Inv(st) && Live(st, Some(x))
    requires Allocate(st, size).1.Some?
    ensures var moved, r := Allocate(st, size).0, Allocate(st, size).1;
      && c < |moved.blocks| && j < |moved.blocks| && c != j
      && moved.blocks[c] == st.blocks[IndexOf(st.blocks, x - H)]
      && moved.blocks[j].off + H == r.value && size <= moved.blocks[j].size
  {
    j := AllocateResult(st, size);
    c := AllocateMovesBlock(st, size, x);
  }

  /** The steps of myrealloc's move of the live block at payload `x` holding
   *  `n` bytes: the block malloc hands out is a different one, lies apart
   *  from the old one and inside the arena, and the old block is still live
   *  for the free that follows; a failed malloc changes nothing. */
  lemma MoveSteps(st: HeapState, x: nat, n: nat, size: nat)
    requires Inv(st) && Live(st, Some(x)) && n == SizeAt(st.blocks, x - H) && n < size
    ensures var (moved, r) := Allocate(st, size);
      && (r.None? ==> moved == st)
      && (r.Some? ==>
        && r.value >= H && r.value != x
        && x + n <= MAX_HEAP_SIZE && r.value + size <= MAX_HEAP_SIZE
        && (x + n <= r.value || r.value + n <= x)
        && Inv(moved) && Live(moved, Some(x)))
  {
    AllocateKeepsInv(st, size);
    AllocateKeepsLive(st, size, x);
    if Allocate(st, size).1.Some? {
      MovePlaced(st, x, n, size);
    }
  }

  /** MoveSteps when mymalloc succeeds: where the new block lies. */
  lemma MovePlaced(st: HeapState, x: nat, n: nat, size: nat)
    requires Inv(st) && Live(st, Some(x)) && n == SizeAt(st.blocks, x - H) && n < size
    requires Allocate(st, size).1.Some?
    ensures var r := Allocate(st, size).1.value;
      && r >= H && r != x
      && x + n <= MAX_HEAP_SIZE && r + size <= MAX_HEAP_SIZE
      && (x + n <= r || r + n <= x)
  {
    var i0 := IndexOf(st.blocks, x - H);
    assert st.blocks[i0].off + H == x && st.blocks[i0].size == n;
    AllocateKeepsInv(st, size);
    var c, j := MoveBlocks(st, x, size);
    PlacedApart(Allocate(st, size).0, x, Allocate(st, size).1.value, n, size, c, j);
  }

  /** Block c (payload `x`, `n` bytes) and block j (payload `r`, at least
   *  `size > n` bytes) of a valid heap lie inside the arena, apart. */
  lemma PlacedApart(st: HeapState, x: nat, r: nat, n: nat, size: nat, c: nat, j: nat)
    requires Inv(st) && c < |st.blocks| && j < |st.blocks| && c != j
    requires st.blocks[c].off + H == x && st.blocks[c].size == n
    requires st.blocks[j].off + H == r && n < size <= st.blocks[j].size
    ensures r >= H && r != x
    ensures x + n <= MAX_HEAP_SIZE && r + size <= MAX_HEAP_SIZE
    ensures x + n <= r || r + n <= x
  {
    PayloadsApart(st, c, j, n, size);
    BlocksApart(st.blocks, st.used, c, j);
  }

  /** myrealloc of a live block keeps the invariant. */
  lemma ResizeAtKeepsInv(st: HeapState, i: nat, size: nat)
    requires Inv(st) && i < |st.blocks| && st.blocks[i].inUse
    ensures Inv(ResizeAt(st, i, size).0)
  {
    var bs := st.blocks;
    var oldSize := bs[i].size;
    var p := bs[i].off + H;
    if size <= oldSize {
      assert ResizeAt(st, i, size) == (ShrinkTo(st, i, size), Some(p));
      if oldSize - size >= H + MIN_REMAINDER {
        SplitKeepsInv(st, i, size);
      }
    } else if i + 1 < |bs| && !bs[i + 1].inUse && oldSize + H + bs[i + 1].size >= size {
      assert ResizeAt(st, i, size) == (AbsorbTo(st, i, size), Some(p));
      AbsorbLiveKeepsInv(st, i, size);
    } else if i + 1 == |bs| && st.used + (size - oldSize) <= MAX_HEAP_SIZE {
      assert ResizeAt(st, i, size) == (GrowLastTo(st, size), Some(p));
      GrowLastKeepsInv(st, size);
    } else {
      ResizeAtMoves(st, i, size, p);
      MoveKeepsInv(st, p, size);
    }
  }

  /** myrealloc of a live pointer to a nonzero size resizes its block. */
  lemma ResizeLive(st: HeapState, x: nat, size: nat) returns (i: nat)
    requires Inv(st) && Live(st, Some(x)) && size != 0
    ensures i == IndexOf(st.blocks, x - H)
    ensures i < |st.blocks| && st.blocks[i].inUse && st.blocks[i].off + H == x
    ensures SizeAt(st.blocks, x - H) == st.blocks[i].size
    ensures Resize(st, Some(x), size) == ResizeAt(st, i, size)
  {
    i := IndexOf(st.blocks, x - H);
  }

  /** The in-place cases of ResizeAt keep the block where it is. */
  lemma ResizeAtInPlace(st: HeapState, i: nat, size: nat, x: nat)
    requires Inv(st) && i < |st.blocks| && st.blocks[i].inUse && x == st.blocks[i].off + H
    ensures size <= st.blocks[i].size ==> ResizeAt(st, i, size) == (ShrinkTo(st, i, size), Some(x))
    ensures size > st.blocks[i].size && i + 1 < |st.blocks| && !st.blocks[i + 1].inUse
            && st.blocks[i].size + H + st.blocks[i + 1].size >= size
            ==> ResizeAt(st, i, size) == (AbsorbTo(st, i, size), Some(x))
    ensures size > st.blocks[i].size && i + 1 == |st.blocks| && st.used + (size - st.blocks[i].size) <= MAX_HEAP_SIZE
            ==> ResizeAt(st, i, size) == (GrowLastTo(st, size), Some(x))
  {
  }

  /** The last case of ResizeAt is the move of a live block. */
  lemma ResizeAtMoves(st: HeapState, i: nat, size: nat, x: nat)
    requires Inv(st) && i < |st.blocks| && st.blocks[i].inUse && size > st.blocks[i].size
    requires !(i + 1 < |st.blocks| && !st.blocks[i + 1].inUse && st.blocks[i].size + H + st.blocks[i + 1].size >= size)
    requires !(i + 1 == |st.blocks| && st.used + (size - st.blocks[i].size) <= MAX_HEAP_SIZE)
    requires x == st.blocks[i].off + H
    ensures Live(st, Some(x)) && SizeAt(st.blocks, x - H) == st.blocks[i].size
    ensures ResizeAt(st, i, size) == MoveTo(st, x, size)
  {
    LiveAt(st, i);
    var bs := st.blocks;
    assert ResizeAt(st, i, size) == MoveTo(st, bs[i].off + H, size);
  }

  /** The payload pointer of a live block is live, and its size is the block's. */
  lemma LiveAt(st: HeapState, i: nat)
    requires Inv(st) && i < |st.blocks| && st.blocks[i].inUse
    ensures Live(st, Some(st.blocks[i].off + H))
    ensures SizeAt(st.blocks, st.blocks[i].off) == st.blocks[i].size
  {
    IndexOfAt(st.blocks, st.used, i);
  }

  /** myrealloc keeps the invariant. */
  lemma ResizeKeepsInv(st: HeapState, p: Option<nat>, size: nat)
    requires Inv(st) && Live(st, p)
    ensures Inv(Resize(st, p, size).0)
  {
    var st' := Resize(st, p, size).0;
    if size == 0 {
      ReleaseKeepsInv(st, p);
      assert st' == Release(st, p);
    } else if p.None? {
      AllocateKeepsInv(st, size);
      assert st' == Allocate(st, size).0;
    } else {
      var i := IndexOf(st.blocks, p.value - H);
      ResizeAtKeepsInv(st, i, size);
      assert st' == ResizeAt(st, i, size).0;
    }
  }
}
