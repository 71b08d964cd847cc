/** The allocator of allocator.c as a mutable object.
 *
 *  The module globals `base`, `used`, `head` and `last` are fields; the
 *  headers written into the arena are a map from header offset (relative to
 *  `base`) to Header, so that header writes never alias payload bytes, which
 *  live in the separate array `mem`. Header links (`prev`, `next`,
 *  `next_free`, `head`, `last`) hold header offsets; the pointers handed to
 *  callers are addresses `base + offset + H`, with 0 standing for NULL.
 *
 *  The ghost fields `blocks` and `free` are the abstract chain and free
 *  list of module HeapSpec; every method is proved to change them exactly as
 *  the matching HeapSpec function says. */
module Allocator {
  import opened Layout
  import opened HeapSpec
  import opened HeapRep
  import opened Arena
  import opened HeapProps

  class Heap {
    const base: nat
    var used: nat
    var head: Link
    var last: Link
    var headers: map<nat, Header>
    /** Payload bytes of the arena, indexed by offset from `base`. */
    const mem: array<bv8>
    ghost var blocks: seq<Block>
    ghost var free: seq<nat>

    ghost function State(): HeapState
      reads this
    {
      HeapState(blocks, free, used)
    }

    /** The headers spell out the abstract chain and free list. */
    ghost predicate Rep()
      reads this
    {
      Wf(headers, blocks, free, used, head, last)
    }

    ghost predicate Valid()
      reads this
    {
      && Rep()
      && Inv(State())
      && mem.Length == MAX_HEAP_SIZE
    }

    /** `p` is NULL or the payload pointer of a block in use. */
    ghost predicate LivePtr(p: nat)
      reads this
    {
      p == 0 || (p >= base && Live(State(), Some(p - base)))
    }

    /** allocator_init. */
    constructor (newbase: nat)
      ensures Valid() && State() == Empty() && base == newbase
      ensures fresh(mem)
    {
      base := newbase;
      used := 0;
      head := Nil;
      last := Nil;
      headers := map[];
      mem := new bv8[MAX_HEAP_SIZE];
      blocks := [];
      free := [];
    }

    /** allocator_reset: forget every block; the arena's contents are not touched. */
    method Reset()
      requires Valid()
      modifies this
      ensures Valid() && State() == Empty()
      ensures headers == old(headers)
    {
      used := 0;
      head := Nil;
      last := Nil;
      blocks := [];
      free := [];
    }

    /** add_to_list: push the header at `x` on the free list. The caller
     *  guarantees `x` is a header not yet listed. */
    method AddToList(x: nat)
      requires Threaded(headers, free, head) && Distinct(free)
      requires x in headers && Find(free, x) == |free|
      modifies this
      ensures Threaded(headers, free, head) && Distinct(free)
      ensures free == [x] + old(free) && head == Hdr(x)
      ensures headers == old(headers)[x := old(headers)[x].(nextFree := old(head))]
      ensures used == old(used) && last == old(last) && blocks == old(blocks)
    {
      forall k | 0 <= k < |free|
        ensures free[k] != x
      {
        FindFirst(free, x, k);
      }
      headers := headers[x := headers[x].(nextFree := head)];
      head := Hdr(x);
      PushThreaded(old(headers), free, old(head), x, headers);
      DistinctPush(free, x);
      free := [x] + free;
    }

    /** remove_from_list: walk the free list from `head` and unlink the first
     *  entry equal to `x`; nothing changes when `x` is not listed. Only
     *  `next_free` links are written. */
    method RemoveFromList(x: nat)
      requires Threaded(headers, free, head) && Distinct(free)
      modifies this
      ensures Threaded(headers, free, head) && Distinct(free)
      ensures free == Without(old(free), x)
      ensures headers.Keys == old(headers).Keys
      ensures forall o :: o in headers ==> headers[o] == old(headers)[o].(nextFree := headers[o].nextFree)
      ensures used == old(used) && last == old(last) && blocks == old(blocks)
    {
      var prevFree: Link := Nil;
      var curr := head;
      ghost var k: nat := 0;
      while curr != Nil
        invariant k <= |free|
        invariant curr == (if k < |free| then Hdr(free[k]) else Nil)
        invariant prevFree == (if k == 0 then Nil else Hdr(free[k - 1]))
        invariant forall m :: 0 <= m < k ==> free[m] != x
        invariant unchanged(this)
        decreases |free| - k
      {
        if curr.off == x {
          break;
        }
        ThreadedStep(headers, free, head, k);
        prevFree := curr;
        curr := headers[curr.off].nextFree;
        k := k + 1;
      }
      if curr != Nil {
        ghost var hs, fl, h := headers, free, head;
        var nf := headers[curr.off].nextFree;
        if prevFree != Nil {
          assert prevFree.off == fl[k - 1] && fl[k - 1] in hs;
          headers := headers[prevFree.off := headers[prevFree.off].(nextFree := nf)];
        } else {
          head := nf;
        }
        UnlinkKeepsThreaded(hs, fl, h, k, headers, head);
        UnlinkAt(fl, k);
        free := fl[..k] + fl[k + 1..];
      } else {
        assert Find(free, x) == |free|;
      }
    }

    /** split: block i, whose header is at `b`, keeps `size` bytes; a new
     *  free header is written right after them, linked in after block i and
     *  pushed on the free list. */
    method Split(b: nat, size: nat, ghost i: nat)
      requires Rep()
      requires i < |blocks| && blocks[i].off == b && size + H <= blocks[i].size
      requires Find(free, b + H + size) == |free|
      modifies this
      ensures Rep()
      ensures State() == SplitAt(old(State()), i, size)
    {
      ghost var st, hs, h0, l0 := State(), headers, head, last;
      SplitFresh(st, hs, last, i, size);
      var s := b + H + size;
      var h := headers[b];
      var hs1 := headers;
      var stale := if s in hs1 then hs1[s].nextFree else Nil;
      hs1 := hs1[s := Header(h.size - size - H, false, stale, Hdr(b), h.next)];
      if h.next != Nil {
        hs1 := hs1[h.next.off := hs1[h.next.off].(prev := Hdr(s))];
      } else {
        last := Hdr(s);
      }
      hs1 := hs1[b := hs1[b].(next := Hdr(s))];
      // add_to_list(split_block)
      hs1 := hs1[s := hs1[s].(nextFree := head)];
      head := Hdr(s);
      hs1 := hs1[b := hs1[b].(size := size)];
      assert hs1 == SplitWrites(hs, b, size, h0);
      headers := hs1;
      free := SplitAt(st, i, size).free;
      blocks := SplitAt(st, i, size).blocks;
      SplitRelinks(st, hs, h0, l0, i, size);
    }

    /** merge_next: block i (at `b`) absorbs a free successor, which leaves
     *  the free list. */
    method MergeNext(b: nat, ghost i: nat)
      requires Rep() && i < |blocks| && blocks[i].off == b
      modifies this
      ensures Rep() && State() == AbsorbNext(old(State()), i)
    {
      ghost var st, hs0 := State(), headers;
      assert HeaderAt(headers, blocks, i);
      if i + 1 < |blocks| {
        assert HeaderAt(headers, blocks, i + 1);
      }
      var next := headers[b].next;
      if next != Nil && !headers[next.off].used {
        RemoveFromList(next.off);
        ghost var hs := headers;
        FuseRep(hs0, blocks, used, last, i, hs, free, head);
        var h, n := headers[b], headers[next.off];
        var hs1 := headers[b := h.(size := h.size + H + n.size)];
        hs1 := hs1[b := hs1[b].(next := n.next)];
        if n.next != Nil {
          hs1 := hs1[n.next.off := hs1[n.next.off].(prev := Hdr(b))];
        } else {
          last := Hdr(b);
        }
        assert hs1 == FuseWrites(hs, b, next.off);
        headers := hs1;
        blocks := Fuse(st.blocks, i);
      }
    }

    /** merge_prev: a free predecessor is taken off the free list and absorbs
     *  block i (at `b`); returns the header of the surviving block and, as a
     *  ghost, its index. */
    method MergePrev(b: nat, ghost i: nat) returns (r: nat, ghost j: nat)
      requires Rep() && i < |blocks| && blocks[i].off == b
      modifies this
      ensures Rep() && State() == AbsorbPrev(old(State()), i).0 && j == AbsorbPrev(old(State()), i).1
      ensures j < |blocks| && r == blocks[j].off
    {
      ghost var st, hs0 := State(), headers;
      assert HeaderAt(headers, blocks, i);
      if 0 < i {
        assert HeaderAt(headers, blocks, i - 1);
      }
      var prev := headers[b].prev;
      r, j := b, i;
      if prev != Nil && !headers[prev.off].used {
        ghost var c := i - 1;
        assert prev.off == blocks[c].off && blocks[c + 1].off == b;
        RemoveFromList(prev.off);
        ghost var hs := headers;
        FuseRep(hs0, blocks, used, last, c, hs, free, head);
        var h, n := headers[prev.off], headers[b];
        var hs1 := headers[prev.off := h.(size := h.size + H + n.size)];
        hs1 := hs1[prev.off := hs1[prev.off].(next := n.next)];
        if n.next != Nil {
          hs1 := hs1[n.next.off := hs1[n.next.off].(prev := prev)];
        } else {
          last := prev;
        }
        assert hs1 == FuseWrites(hs, prev.off, b);
        headers := hs1;
        blocks := Fuse(st.blocks, c);
        r, j := prev.off, c;
      }
    }

    /** myfree's first step: clear the `used` flag of block i, at `x`. */
    method ClearUsed(x: nat, ghost i: nat)
      requires Rep() && i < |blocks| && blocks[i].off == x
      modifies this
      ensures Rep()
      ensures State() == old(State()).(blocks := old(blocks)[i := old(blocks)[i].(inUse := false)])
    {
      FlagLinked(headers, blocks, used, last, i, false);
      FlagThreaded(headers, free, head, x, false);
      FlagKeepsContiguous(blocks, used, i, false);
      headers := headers[x := headers[x].(used := false)];
      blocks := blocks[i := blocks[i].(inUse := false)];
    }

    /** myfree's truncation: the last block, at `m` and not listed, leaves
     *  the chain; its predecessor becomes `last` and `used` retreats to `m`. */
    method CutLast(m: nat, ghost j: nat)
      requires Rep() && j + 1 == |blocks| && blocks[j].off == m
      modifies this
      ensures Rep()
      ensures State() == Truncate(old(State()))
    {
      CutRep(headers, blocks, free, used, head, last);
      var pv := headers[m].prev;
      if pv != Nil {
        headers := headers[pv.off := headers[pv.off].(next := Nil)];
        last := pv;
      } else {
        last := Nil;
      }
      used := m;
      blocks := blocks[..|blocks| - 1];
    }

    /** myfree: NULL is ignored; otherwise the block is marked free, merged
     *  with a free successor and then a free predecessor; the surviving
     *  block is cut off the chain when it is the last one, and pushed on
     *  the free list otherwise. */
    method Free(p: nat)
      requires Valid() && LivePtr(p)
      modifies this
      ensures Valid()
      ensures State() == Release(old(State()), FromPtr(base, p))
    {
      if p == 0 {
        return;
      }
      ghost var st, r := State(), FromPtr(base, p);
      ReleaseKeepsInv(st, r);
      var meta := p - base - H;
      assert r == Some(meta + H);
      ghost var i := IndexOf(blocks, meta);
      var m, j := Coalesce(meta, i);
      ReleaseSteps(st, meta, i, State(), j);
      Retire(m, j);
    }

    /** myfree's first steps on block i, at `meta`: clear the flag, merge
     *  with a free successor, then with a free predecessor; returns the
     *  header of the surviving block and, as a ghost, its index. */
    method Coalesce(meta: nat, ghost i: nat) returns (m: nat, ghost j: nat)
      requires Rep() && i < |blocks| && blocks[i].off == meta
      modifies this
      ensures Rep()
      ensures (State(), j) == HeapSpec.Coalesce(old(State()), i)
      ensures j < |blocks| && m == blocks[j].off
    {
      ClearUsed(meta, i);
      MergeNext(meta, i);
      m, j := MergePrev(meta, i);
    }

    /** myfree's last step for the surviving block j, at `m`: cut it off
     *  the chain when it is the last block, push it on the free list
     *  otherwise. */
    method Retire(m: nat, ghost j: nat)
      requires Rep() && j < |blocks| && blocks[j].off == m && Find(free, m) == |free|
      modifies this
      ensures Rep()
      ensures State() == if j + 1 == |old(blocks)| then Truncate(old(State())) else HeapSpec.AddToList(old(State()), m)
    {
      NextNilIffLast(headers, blocks, last, j);
      if headers[m].next == Nil {
        CutLast(m, j);
      } else {
        ghost var hs := headers;
        AddToList(m);
        LinkedFrame(hs, headers, blocks, last);
      }
    }

    /** mymalloc's search: walk the free list from `head` to the first
     *  block holding `size` bytes; `prevFree` is the entry before it. */
    method FindFit(size: nat) returns (curr: Link, prevFree: Link, ghost k: nat)
      requires Valid()
      ensures k == FirstFit(blocks, free, size)
      ensures curr == (if k < |free| then Hdr(free[k]) else Nil)
      ensures prevFree == (if k == 0 then Nil else Hdr(free[k - 1]))
      ensures curr == Nil <==> forall m :: 0 <= m < |free| ==> SizeAt(blocks, free[m]) < size
      ensures curr.Hdr? ==> curr.off in free && SizeAt(blocks, curr.off) >= size
    {
      prevFree := Nil;
      curr := head;
      k := 0;
      while curr != Nil
        invariant k <= |free|
        invariant curr == (if k < |free| then Hdr(free[k]) else Nil)
        invariant prevFree == (if k == 0 then Nil else Hdr(free[k - 1]))
        invariant FirstFit(blocks, free, size) == FitFrom(blocks, free, size, k)
        decreases |free| - k
      {
        ListedHeader(headers, blocks, free, last, k);
        if headers[curr.off].size >= size {
          return;
        }
        ThreadedStep(headers, free, head, k);
        prevFree := curr;
        curr := headers[curr.off].nextFree;
        k := k + 1;
      }
      FitFromSkips(blocks, free, size, 0);
    }

    /** mymalloc's hit on free-list entry k, whose header is at `c`: the
     *  predecessor entry (or `head`) skips it and it is marked used. */
    method TakeEntry(c: nat, prevFree: Link, ghost k: nat)
      requires Rep() && Listed(blocks, free) && k < |free|
      requires c == free[k] && prevFree == (if k == 0 then Nil else Hdr(free[k - 1]))
      modifies this
      ensures Rep()
      ensures State() == Take(old(State()), k)
    {
      ghost var st, hs, fl, h0 := State(), headers, free, head;
      ListedHeader(hs, blocks, fl, last, k);
      if 0 < k {
        ListedHeader(hs, blocks, fl, last, k - 1);
      }
      var hs1, h1 := headers, head;
      if prevFree != Nil {
        hs1 := hs1[prevFree.off := hs1[prevFree.off].(nextFree := hs1[c].nextFree)];
      } else {
        h1 := hs1[c].nextFree;
      }
      hs1 := hs1[c := hs1[c].(used := true)];
      assert hs1 == TakeWrites(hs, fl, k);
      headers, head := hs1, h1;
      blocks, free := Take(st, k).blocks, Take(st, k).free;
      TakeRep(hs, st.blocks, fl, used, h0, last, k, headers, blocks, free, head);
    }

    /** mymalloc with no fit: a new block at the high-water mark, linked
     *  after `last`, or NULL when it would pass MAX_HEAP_SIZE. */
    method Carve(size: nat) returns (p: nat)
      requires Valid() && FirstFit(blocks, free, size) == |free|
      modifies this
      ensures Valid()
      ensures State() == Allocate(old(State()), size).0
      ensures p == ToPtr(base, Allocate(old(State()), size).1)
    {
      var totalSize := H + size;
      if used + totalSize > MAX_HEAP_SIZE {
        p := 0;
        return;
      }
      ghost var st, hs := State(), headers;
      ListedBelowUsed(st);
      CarveRep(headers, blocks, free, used, head, last, size);
      CarveKeepsInv(st, size);
      var meta := used;
      var hs1 := headers;
      var stale := if meta in hs1 then hs1[meta].nextFree else Nil;
      hs1 := hs1[meta := Header(size, true, stale, last, Nil)];
      if last != Nil {
        hs1 := hs1[last.off := hs1[last.off].(next := Hdr(meta))];
      }
      assert hs1 == CarveWrites(hs, meta, size, last);
      headers := hs1;
      last := Hdr(meta);
      used := used + totalSize;
      blocks := blocks + [Block(meta, size, true)];
      p := base + meta + H;
    }

    /** mymalloc's hit on free-list entry k: take the entry, then split
     *  off a tail of at least MIN_REMAINDER payload bytes. */
    method TakeFit(size: nat, c: nat, prevFree: Link, ghost k: nat)
      requires Valid() && k == FirstFit(blocks, free, size) && k < |free|
      requires c == free[k] && prevFree == (if k == 0 then Nil else Hdr(free[k - 1]))
      modifies this
      ensures Rep()
      ensures State() == Allocate(old(State()), size).0
    {
      ghost var st := State();
      AllocateFit(st, size);
      TakeKeepsInv(st, k);
      ghost var i := IndexOf(blocks, c);
      TakeEntry(c, prevFree, k);
      HeaderSize(headers, blocks, last, i);
      if headers[c].size >= size + H + MIN_REMAINDER {
        SplitHeaderFresh(Take(st, k), i, size);
        Split(c, size, i);
      }
    }

    /** mymalloc: first fit on the free list, else a carve at `used`. */
    method Malloc(size: nat) returns (p: nat)
      requires Valid()
      modifies this
      ensures Valid()
      ensures State() == Allocate(old(State()), size).0
      ensures p == ToPtr(base, Allocate(old(State()), size).1)
    {
      ghost var st := State();
      AllocateKeepsInv(st, size);
      var curr, prevFree, k := FindFit(size);
      if curr != Nil {
        AllocateFit(st, size);
        TakeFit(size, curr.off, prevFree, k);
        p := base + curr.off + H;
      } else {
        p := Carve(size);
      }
    }

    /** myrealloc to at most the current size: split off a tail of at least
     *  MIN_REMAINDER payload bytes, keep the block otherwise. */
    method Shrink(meta: nat, size: nat, ghost i: nat)
      requires Valid() && i < |blocks| && blocks[i].off == meta && blocks[i].inUse && size <= blocks[i].size
      modifies this
      ensures State() == ShrinkTo(old(State()), i, size)
      ensures ResizeAt(old(State()), i, size) == (State(), Some(meta + H))
      ensures Valid()
    {
      ghost var st := State();
      ResizeAtInPlace(st, i, size, meta + H);
      HeaderSize(headers, blocks, last, i);
      if headers[meta].size - size >= H + MIN_REMAINDER {
        SplitKeepsInv(st, i, size);
        SplitHeaderFresh(st, i, size);
        Split(meta, size, i);
      }
    }

    /** myrealloc absorbing a free successor, then splitting off a large
     *  enough tail. */
    method GrowInto(meta: nat, size: nat, ghost i: nat)
      requires Valid() && i + 1 < |blocks| && blocks[i].off == meta && blocks[i].inUse
      requires size > blocks[i].size && !blocks[i + 1].inUse && blocks[i].size + H + blocks[i + 1].size >= size
      modifies this
      ensures State() == AbsorbTo(old(State()), i, size)
      ensures ResizeAt(old(State()), i, size) == (State(), Some(meta + H))
      ensures Valid()
    {
      ghost var st := State();
      ResizeAtInPlace(st, i, size, meta + H);
      AbsorbLiveKeepsInv(st, i, size);
      MergeNext(meta, i);
      HeaderSize(headers, blocks, last, i);
      if headers[meta].size >= size + H + MIN_REMAINDER {
        SplitHeaderFresh(State(), i, size);
        Split(meta, size, i);
      }
    }

    /** myrealloc growing the last block in place: its size is set and
     *  `used` advances by the difference. */
    method GrowLast(meta: nat, size: nat, ghost i: nat)
      requires Valid() && i + 1 == |blocks| && blocks[i].off == meta && blocks[i].size <= size
      requires used + (size - blocks[i].size) <= MAX_HEAP_SIZE && blocks[i].inUse && size > blocks[i].size
      modifies this
      ensures State() == GrowLastTo(old(State()), size)
      ensures ResizeAt(old(State()), i, size) == (State(), Some(meta + H))
      ensures Valid()
    {
      ResizeAtInPlace(State(), i, size, meta + H);
      GrowLastKeepsInv(State(), size);
      GrowRep(headers, blocks, free, used, head, last, size);
      var oldSize := headers[meta].size;
      headers := headers[meta := headers[meta].(size := size)];
      used := used + (size - oldSize);
      blocks := blocks[i := blocks[i].(size := size)];
    }

    /** myrealloc's last resort for the live block at `p` holding `n` bytes:
     *  allocate `size` bytes elsewhere, copy the old payload there and free
     *  the old block; NULL and no change when the allocation fails. */
    method Move(p: nat, size: nat, n: nat) returns (q: nat)
      requires Valid() && p >= base + H && Live(State(), Some(p - base))
      requires n == SizeAt(blocks, p - base - H) && n < size
      modifies this, mem
      ensures State() == MoveTo(old(State()), p - base, size).0
      ensures q == ToPtr(base, MoveTo(old(State()), p - base, size).1) && q != p
      ensures Valid()
      ensures q == 0 ==> mem[..] == old(mem[..])
      ensures q != 0 ==> q >= base && q - base + n <= mem.Length && p - base + n <= mem.Length
      ensures q != 0 ==> mem[..] == CopyResult(old(mem[..]), q - base, p - base, n)
    {
      ghost var x := p - base;
      ghost var st := State();
      MoveSteps(st, x, n, size);
      ghost var r := Allocate(st, size).1;
      assert r.Some? ==> ToPtr(base, r) - base == r.value != x;
      assert FromPtr(base, p) == Some(x);
      q := Malloc(size);
      if q != 0 {
        Relocate(p, q, n);
      }
    }

    /** The tail of a move, once malloc has handed out `q`: memcpy of the old
     *  payload to the new block, then myfree of the old block. */
    method Relocate(p: nat, q: nat, n: nat)
      requires Valid() && LivePtr(p) && p != 0 && q >= base
      requires p - base + n <= mem.Length && q - base + n <= mem.Length
      requires p - base + n <= q - base || q - base + n <= p - base
      modifies this, mem
      ensures Valid()
      ensures State() == Release(old(State()), FromPtr(base, p))
      ensures mem[..] == CopyResult(old(mem[..]), q - base, p - base, n)
    {
      MemCopy(mem, q - base, p - base, n);
      Free(p);
    }

    /** The outcome of myrealloc of NULL or to size zero (mymalloc or
     *  myfree), from the state `st` with arena bytes `bytes`: the new state
     *  and result are as Resize says and the arena is untouched. */
    ghost predicate Resized(st: HeapState, bytes: seq<bv8>, p: nat, size: nat, q: nat)
      requires Inv(st) && (p == 0 || (p >= base && Live(st, Some(p - base))))
      reads this, mem
    {
      && State() == Resize(st, FromPtr(base, p), size).0
      && q == ToPtr(base, Resize(st, FromPtr(base, p), size).1)
      && mem[..] == bytes
      && Valid()
    }

    /** The outcome of myrealloc of the live block i at payload `p` to a
     *  nonzero size, from the state `st` with arena bytes `bytes`: the new
     *  state and result are as ResizeAt says, and the arena is untouched
     *  unless the block moved, in which case its old payload was copied to
     *  the new one. */
    ghost predicate ResizedAt(st: HeapState, bytes: seq<bv8>, i: nat, size: nat, p: nat, q: nat)
      requires Inv(st) && i < |st.blocks| && st.blocks[i].inUse
      reads this, mem
    {
      && State() == ResizeAt(st, i, size).0
      && q == ToPtr(base, ResizeAt(st, i, size).1)
      && (q == 0 || q == p ==> mem[..] == bytes)
      && (q != 0 && q != p ==>
        && q >= base && p >= base && |bytes| == mem.Length
        && q - base + st.blocks[i].size <= mem.Length && p - base + st.blocks[i].size <= mem.Length
        && mem[..] == CopyResult(bytes, q - base, p - base, st.blocks[i].size))
      && Valid()
    }

    /** myrealloc: a zero size frees and returns NULL, NULL allocates, a
     *  smaller size shrinks in place, a larger one grows in place into a
     *  free successor or at the end of the arena, and otherwise the payload
     *  moves. */
    method Realloc(p: nat, size: nat) returns (q: nat)
      requires Valid() && LivePtr(p)
      modifies this, mem
      ensures p == 0 || size == 0 ==> Resized(old(State()), old(mem[..]), p, size, q)
      ensures p != 0 && size != 0 ==>
        ResizedAt(old(State()), old(mem[..]), IndexOf(old(blocks), p - base - H), size, p, q)
    {
      if size == 0 {
        Free(p);
        q := 0;
        return;
      }
      q := ReallocNonzero(p, size);
    }

    /** myrealloc to a nonzero size: NULL allocates, anything else resizes. */
    method ReallocNonzero(p: nat, size: nat) returns (q: nat)
      requires Valid() && LivePtr(p) && size != 0
      modifies this, mem
      ensures p == 0 ==> Resized(old(State()), old(mem[..]), p, size, q)
      ensures p != 0 ==>
        ResizedAt(old(State()), old(mem[..]), IndexOf(old(blocks), p - base - H), size, p, q)
    {
      if p == 0 {
        assert FromPtr(base, p) == None;
        q := Malloc(size);
        return;
      }
      q := ReallocPtr(p, size);
    }

    /** myrealloc of a non-NULL pointer to a nonzero size: its block is
     *  resized. */
    method ReallocPtr(p: nat, size: nat) returns (q: nat)
      requires Valid() && LivePtr(p) && p != 0 && size != 0
      modifies this, mem
      ensures ResizedAt(old(State()), old(mem[..]), IndexOf(old(blocks), p - base - H), size, p, q)
    {
      ghost var i := IndexOf(blocks, p - base - H);
      q := ReallocLive(p, size, i);
    }

    /** myrealloc of a live block to a nonzero size: a size that fits
     *  shrinks the block in place; a larger one grows it. The bytes stay
     *  where they are unless the block moves, and then the old payload is
     *  copied. */
    method ReallocLive(p: nat, size: nat, ghost i: nat) returns (q: nat)
      requires Valid() && i < |blocks| && blocks[i].inUse && p == base + blocks[i].off + H
      requires size != 0
      modifies this, mem
      ensures ResizedAt(old(State()), old(mem[..]), i, size, p, q)
    {
      var meta := p - base - H;
      assert meta == blocks[i].off;
      HeaderSize(headers, blocks, last, i);
      var oldSize := headers[meta].size;
      if size <= oldSize {
        q := ReallocShrink(p, size, i);
        return;
      }
      q := ReallocGrow(p, size, i);
    }

    method ReallocShrink(p: nat, size: nat, ghost i: nat) returns (q: nat)
      requires Valid() && i < |blocks| && blocks[i].inUse && p == base + blocks[i].off + H
      requires size <= blocks[i].size
      modifies this, mem
      ensures ResizedAt(old(State()), old(mem[..]), i, size, p, q)
    {
      Shrink(p - base - H, size, i);
      q := p;
      assert ToPtr(base, Some(p - base)) == p;
    }

    /** myrealloc growing a live block: absorb a free successor that makes
     *  room, or else grow at the end or move. */
    method ReallocGrow(p: nat, size: nat, ghost i: nat) returns (q: nat)
      requires Valid() && i < |blocks| && blocks[i].inUse && p == base + blocks[i].off + H
      requires size > blocks[i].size
      modifies this, mem
      ensures ResizedAt(old(State()), old(mem[..]), i, size, p, q)
    {
      var meta := p - base - H;
      assert meta == blocks[i].off;
      NextNilIffLast(headers, blocks, last, i);
      HeaderSize(headers, blocks, last, i);
      var oldSize := headers[meta].size;
      assert oldSize == blocks[i].size;
      var next := headers[meta].next;
      assert HeaderAt(headers, blocks, i);
      if next != Nil {
        assert HeaderAt(headers, blocks, i + 1);
      }
      if next != Nil && !headers[next.off].used && oldSize + H + headers[next.off].size >= size {
        GrowInto(meta, size, i);
        q := p;
        assert ToPtr(base, Some(meta + H)) == p;
        return;
      }
      q := ReallocFar(p, size, i);
    }

    /** myrealloc growing a live block with no free successor that makes
     *  room: the last block grows up to the capacity ceiling; any other
     *  block moves. */
    method ReallocFar(p: nat, size: nat, ghost i: nat) returns (q: nat)
      requires Valid() && i < |blocks| && blocks[i].inUse && p == base + blocks[i].off + H
      requires size > blocks[i].size
      requires !(i + 1 < |blocks| && !blocks[i + 1].inUse && blocks[i].size + H + blocks[i + 1].size >= size)
      modifies this, mem
      ensures ResizedAt(old(State()), old(mem[..]), i, size, p, q)
    {
      var meta := p - base - H;
      assert meta == blocks[i].off;
      NextNilIffLast(headers, blocks, last, i);
      HeaderSize(headers, blocks, last, i);
      var oldSize := headers[meta].size;
      assert oldSize == blocks[i].size;
      if headers[meta].next == Nil && used + (size - oldSize) <= MAX_HEAP_SIZE {
        GrowLast(meta, size, i);
        q := p;
        assert ToPtr(base, Some(meta + H)) == p;
        return;
      }
      q := ReallocMove(p, size, i);
    }

    /** myrealloc of a block that cannot grow in place: it moves. */
    method ReallocMove(p: nat, size: nat, ghost i: nat) returns (q: nat)
      requires Valid() && i < |blocks| && blocks[i].inUse && p == base + blocks[i].off + H
      requires size > blocks[i].size
      requires !(i + 1 < |blocks| && !blocks[i + 1].inUse && blocks[i].size + H + blocks[i + 1].size >= size)
      requires !(i + 1 == |blocks| && used + (size - blocks[i].size) <= MAX_HEAP_SIZE)
      modifies this, mem
      ensures ResizedAt(old(State()), old(mem[..]), i, size, p, q)
    {
      var meta := p - base - H;
      assert meta == blocks[i].off;
      HeaderSize(headers, blocks, last, i);
      var oldSize := headers[meta].size;
      ResizeAtMoves(State(), i, size, p - base);
      assert oldSize == blocks[i].size;
      q := Move(p, size, oldSize);
    }
  }
}
