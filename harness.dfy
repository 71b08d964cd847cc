/** The harness's checked entry points (testharness.c): each forwards to
 *  the allocator unless an error is pending, then records the result with
 *  the region tracker; and what the tracker's checks mean for this
 *  allocator. The wrappers do not require the heap's `base` to be the
 *  tracker's `allmem` (testharness.c:248 passes `allmem`), nor that the
 *  arena of 2^memBits bytes is as large as MAX_HEAP_SIZE. */
module Harness {
  import opened Layout
  import opened HeapSpec
  import opened HeapProps
  import opened Arena
  import opened Allocator
  import opened RegionTracker

  /** wraprealloc's tracking of `ans`, the allocator's result for `p`: an
   *  unchanged pointer re-tracks its slot as a resize; otherwise the new
   *  region is added and then `p` is forgotten. */
  ghost function Retrack(t: Table, allmem: nat, arena: nat, p: nat, ans: nat, size: nat): (Table, Option<Fault>)
    requires WellSized(t)
  {
    if ans == p then Add(t, allmem, arena, ans, size, true)
    else
      AddOutcome(t, allmem, arena, ans, size, false);
      var (t1, e) := Add(t, allmem, arena, ans, size, false);
      (Untrack(t1, p), e)
  }

  /** wrapmalloc: with no error pending, mymalloc and track the region it
   *  returns; NULL when the tracker has raised an error. */
  method WrapMalloc(h: Heap, t: Tracker, size: nat) returns (ans: nat, ghost raw: nat)
    requires h.Valid() && t.Valid()
    modifies h, t, t.regions
    ensures h.Valid() && t.Valid()
    ensures old(t.error).Some? ==>
      ans == 0 && h.State() == old(h.State()) && t.Contents() == old(t.Contents()) && t.error == old(t.error)
    ensures old(t.error).None? ==>
      && h.State() == Allocate(old(h.State()), size).0
      && raw == ToPtr(h.base, Allocate(old(h.State()), size).1)
      && (t.Contents(), t.error) == Add(old(t.Contents()), t.allmem, Pow2(t.memBits), raw, size, false)
      && ans == if t.error.None? then raw else 0
  {
    if t.error.Some? {
      return 0, 0;
    }
    ans := h.Malloc(size);
    raw := ans;
    t.TrackAdd(ans, size, false);
    if t.error.Some? {
      ans := 0;
    }
  }

  /** wrapfree: with no error pending, myfree and stop tracking the pointer. */
  method WrapFree(h: Heap, t: Tracker, p: nat)
    requires h.Valid() && t.Valid() && h.LivePtr(p)
    modifies h, t, t.regions
    ensures h.Valid() && t.Valid() && t.error == old(t.error)
    ensures old(t.error).Some? ==> h.State() == old(h.State()) && t.Contents() == old(t.Contents())
    ensures old(t.error).None? ==>
      h.State() == Release(old(h.State()), FromPtr(h.base, p)) && t.Contents() == Untrack(old(t.Contents()), p)
  {
    if t.error.Some? {
      return;
    }
    h.Free(p);
    t.TrackFree(p);
  }

  /** wraprealloc: with no error pending, myrealloc, then re-track an
   *  unchanged pointer or track the new region and forget the old one;
   *  NULL when the tracker has raised an error. */
  method WrapRealloc(h: Heap, t: Tracker, p: nat, size: nat) returns (ans: nat, ghost raw: nat)
    requires h.Valid() && t.Valid() && h.LivePtr(p)
    modifies h, h.mem, t, t.regions
    ensures h.Valid() && t.Valid()
    ensures old(t.error).Some? ==>
      && ans == 0 && h.State() == old(h.State()) && h.mem[..] == old(h.mem[..])
      && t.Contents() == old(t.Contents()) && t.error == old(t.error)
    ensures old(t.error).None? && (p == 0 || size == 0) ==>
      h.Resized(old(h.State()), old(h.mem[..]), p, size, raw)
    ensures old(t.error).None? && p != 0 && size != 0 ==>
      h.ResizedAt(old(h.State()), old(h.mem[..]), IndexOf(old(h.blocks), p - h.base - H), size, p, raw)
    ensures old(t.error).None? ==>
      && (t.Contents(), t.error) == Retrack(old(t.Contents()), t.allmem, Pow2(t.memBits), p, raw, size)
      && ans == if t.error.None? then raw else 0
  {
    if t.error.Some? {
      return 0, 0;
    }
    ans := h.Realloc(p, size);
    raw := ans;
    if ans == p {
      t.TrackAdd(ans, size, true);
    } else {
      t.TrackAdd(ans, size, false);
      t.TrackFree(p);
    }
    if t.error.Some? {
      ans := 0;
    }
  }

  // ---------------------------------------------------------------------------
  // The tracker as an oracle for this allocator

  /** Region `r` is a cleared slot or lies within the payload of a live
   *  block, its address taken relative to the allocator's `base`. */
  ghost predicate TracksLive(r: Region, st: HeapState, base: nat)
  {
    r == CLEARED
    || (r.p >= base && Live(st, Some(r.p - base)) && r.s <= SizeAt(st.blocks, r.p - base - H))
  }

  /** Every slot in use tracks a live payload (or is cleared). */
  ghost predicate Mirrors(tb: Table, st: HeapState, base: nat)
    requires WellSized(tb)
  {
    forall i :: 0 <= i < tb.usedRegions ==> TracksLive(tb.regions[i], st, base)
  }

  /** A tracked payload survives mymalloc, and the region mymalloc hands
   *  out does not overlap it. */
  lemma SlotSurvivesAllocate(st: HeapState, r: Region, base: nat, size: nat)
    requires Inv(st) && TracksLive(r, st, base)
    ensures var (st', q) := Allocate(st, size);
      TracksLive(r, st', base) && (q.Some? ==> !Overlaps(r, base + q.value, size))
  {
    if r != CLEARED {
      var q := r.p - base;
      var res := Allocate(st, size);
      AllocateApart(st, size, q);
      Transfer(st, res.0, r, base);
      assert res.1.Some? ==> res.1.value + size <= q || q + r.s <= res.1.value;
    }
  }

  /** A tracked payload stays tracked in any state where its block is still
   *  in use with the same payload size. */
  lemma Transfer(st: HeapState, st': HeapState, r: Region, base: nat)
    requires TracksLive(r, st, base) && r != CLEARED
    requires Live(st', Some(r.p - base)) && SizeAt(st'.blocks, r.p - base - H) == SizeAt(st.blocks, r.p - base - H)
    ensures TracksLive(r, st', base)
  {
  }

  /** A tracked payload other than the one freed survives myfree. */
  lemma SlotSurvivesRelease(st: HeapState, r: Region, base: nat, x: nat)
    requires Inv(st) && Live(st, Some(x)) && TracksLive(r, st, base) && r.p != base + x
    ensures TracksLive(r, Release(st, Some(x)), base)
  {
    if r != CLEARED {
      var q := r.p - base;
      ReleaseKeepsLive(st, x, q);
      Transfer(st, Release(st, Some(x)), r, base);
    }
  }

  /** mymalloc keeps a table mirroring the heap, and the region it hands
   *  out overlaps no slot in use. */
  lemma AllocateKeepsMirror(st: HeapState, tb: Table, base: nat, size: nat)
    requires Inv(st) && WellSized(tb) && Mirrors(tb, st, base)
    ensures var (st', r) := Allocate(st, size);
      && Mirrors(tb, st', base)
      && (r.Some? ==> forall i :: 0 <= i < tb.usedRegions ==> !Overlaps(tb.regions[i], base + r.value, size))
  {
    forall i | 0 <= i < tb.usedRegions
      ensures TracksLive(tb.regions[i], Allocate(st, size).0, base)
      ensures Allocate(st, size).1.Some? ==> !Overlaps(tb.regions[i], base + Allocate(st, size).1.value, size)
    {
      SlotSurvivesAllocate(st, tb.regions[i], base, size);
    }
  }

  /** The block mymalloc carves tracks the region it hands out. */
  lemma AllocatedTracked(st: HeapState, base: nat, size: nat)
    requires Inv(st) && Allocate(st, size).1.Some?
    ensures TracksLive(Region(base + Allocate(st, size).1.value, size), Allocate(st, size).0, base)
  {
    AllocateKeepsInv(st, size);
    var j := AllocateResult(st, size);
    var st' := Allocate(st, size).0;
    assert Contiguous(st'.blocks, st'.used);
    FreshTracked(Allocate(st, size).0, base, Allocate(st, size).1.value, size, j);
  }

  /** A live payload at `q` whose block `j` holds at least `size` bytes
   *  tracks the region of `size` bytes at `q`. */
  lemma FreshTracked(st: HeapState, base: nat, q: nat, size: nat, j: nat)
    requires Contiguous(st.blocks, st.used) && Live(st, Some(q))
    requires j < |st.blocks| && st.blocks[j].off + H == q && size <= st.blocks[j].size
    ensures TracksLive(Region(base + q, size), st, base)
  {
    IndexOfAt(st.blocks, st.used, j);
  }

  /** trackAdd of a region that tracks a live payload keeps a mirroring
   *  table mirroring, whatever it decides. */
  lemma AddKeepsMirror(tb: Table, st: HeapState, base: nat, allmem: nat, arena: nat, ptr: nat, size: nat)
    requires WellSized(tb) && Mirrors(tb, st, base) && TracksLive(Region(ptr, size), st, base)
    ensures WellSized(Add(tb, allmem, arena, ptr, size, false).0)
    ensures Mirrors(Add(tb, allmem, arena, ptr, size, false).0, st, base)
  {
    AddOutcome(tb, allmem, arena, ptr, size, false);
    var (tb', e) := Add(tb, allmem, arena, ptr, size, false);
    if e.None? {
      var d := Slot(tb, ptr, false);
      forall i | 0 <= i < tb'.usedRegions
        ensures TracksLive(tb'.regions[i], st, base)
      {
        if i != d {
          assert i < tb.usedRegions && tb'.regions[i] == tb.regions[i];
        }
      }
    }
  }

  /** Against a table that mirrors the heap, the region mymalloc hands out
   *  never trips trackAdd's overlap check, and the table mirrors the new
   *  heap afterwards, whether trackAdd records the region or refuses it. */
  lemma MallocPassesOverlapCheck(st: HeapState, tb: Table, base: nat, allmem: nat, arena: nat, size: nat)
    requires Inv(st) && WellSized(tb) && Mirrors(tb, st, base)
    requires Allocate(st, size).1.Some?
    ensures var (st', r) := Allocate(st, size);
      var (tb', e) := Add(tb, allmem, arena, base + r.value, size, false);
      && e != Some(AlreadyUsed)
      && WellSized(tb') && Mirrors(tb', st', base)
  {
    var (st', r) := Allocate(st, size);
    var ptr := base + r.value;
    AllocateKeepsMirror(st, tb, base, size);
    AllocatedTracked(st, base, size);
    assert !Clash(tb.regions, tb.usedRegions, ptr, size, false);
    AddOutcome(tb, allmem, arena, ptr, size, false);
    AddKeepsMirror(tb, st', base, allmem, arena, ptr, size);
  }

  /** myfree and trackFree of the same pointer keep the table mirroring the
   *  heap: every other tracked payload stays live with its size. */
  lemma FreeKeepsMirror(st: HeapState, tb: Table, base: nat, p: nat)
    requires Inv(st) && WellSized(tb) && Mirrors(tb, st, base)
    requires p == 0 || (p >= base && Live(st, Some(p - base)))
    ensures Mirrors(Untrack(tb, p), Release(st, FromPtr(base, p)), base)
  {
    UntrackForgets(tb, p);
    var tb' := Untrack(tb, p);
    if p != 0 {
      var x := p - base;
      assert FromPtr(base, p) == Some(x);
      forall i | 0 <= i < tb'.usedRegions
        ensures TracksLive(tb'.regions[i], Release(st, Some(x)), base)
      {
        if tb'.regions[i] != CLEARED {
          assert tb'.regions[i] == tb.regions[i] && i < tb.usedRegions;
          SlotSurvivesRelease(st, tb.regions[i], base, x);
        }
      }
    } else {
      assert Release(st, FromPtr(base, p)) == st;
    }
  }

  /** A NULL result is always reported as "Allocated illegal address": a
   *  failed mymalloc, and every wraprealloc to size 0, whose myrealloc frees
   *  and returns NULL. */
  lemma NullResultFlagged(st: HeapState, tb: Table, base: nat, allmem: nat, arena: nat, p: nat, size: nat)
    requires Inv(st) && WellSized(tb) && 0 < allmem
    requires p == 0 || (p >= base && Live(st, Some(p - base)))
    ensures Allocate(st, size).1.None? ==>
      Add(tb, allmem, arena, ToPtr(base, Allocate(st, size).1), size, false).1 == Some(IllegalAddress)
    ensures var raw := ToPtr(base, Resize(st, FromPtr(base, p), 0).1);
      raw == 0 && Retrack(tb, allmem, arena, p, raw, 0).1 == Some(IllegalAddress)
  {
    assert Live(st, FromPtr(base, p));
  }

  lemma Pow2Default()
    ensures Pow2(27) == MAX_HEAP_SIZE
  {
    assert Pow2(3) == 8;
    assert Pow2(7) == 128;
    assert Pow2(10) == 1024;
    assert Pow2(17) == 128 * 1024;
    assert Pow2(20) == 1024 * 1024;
  }

  /** With the arena at its default size (memBits = 27: 2^27 bytes, which
   *  is MAX_HEAP_SIZE), a request for the whole arena succeeds in the
   *  allocator, but trackAdd reports "Allocation overflowed": its bound
   *  test is `>=`, so a region ending exactly at the arena's end is
   *  refused. */
  lemma ExactFitReportedAsOverflow(tb: Table, allmem: nat)
    requires WellSized(tb)
    ensures Inv(Empty()) && Allocate(Empty(), MAX_HEAP_SIZE - H).1 == Some(H)
    ensures Add(tb, allmem, Pow2(27), allmem + H, MAX_HEAP_SIZE - H, false).1 == Some(Overflowed)
  {
    assert Inv(Empty());
    Pow2Default();
  }

  /** 2^a is at most 2^b when a is at most b. */
  lemma {:induction false} Pow2Grows(a: nat, b: nat)
    requires a <= b
    ensures Pow2(a) <= Pow2(b)
  {
    if a < b {
      Pow2Grows(a, b - 1);
    }
  }

  /** The harness accepts arenas of 2^memBits bytes for memBits from 3 up
   *  (testharness.c:237-242), but the allocator always assumes
   *  MAX_HEAP_SIZE = 2^27 bytes. With a smaller arena, a first request for
   *  the whole arena succeeds in the allocator, which carves its header and
   *  payload past the arena's end; trackAdd then reports "Allocation
   *  overflowed", after the allocator has already written there. */
  lemma SmallArenaOverrun(tb: Table, allmem: nat, memBits: nat)
    requires WellSized(tb) && 3 <= memBits < 27
    ensures Inv(Empty()) && Allocate(Empty(), Pow2(memBits)).1 == Some(H)
    ensures Allocate(Empty(), Pow2(memBits)).0.used == H + Pow2(memBits) > Pow2(memBits)
    ensures Add(tb, allmem, Pow2(memBits), allmem + H, Pow2(memBits), false).1 == Some(Overflowed)
  {
    SmallArenaFits(memBits);
    assert Inv(Empty());
  }

  /** An arena below the default size leaves room for a header and its
   *  whole size below MAX_HEAP_SIZE. */
  lemma SmallArenaFits(memBits: nat)
    requires memBits < 27
    ensures H + Pow2(memBits) <= MAX_HEAP_SIZE
  {
    Pow2Grows(memBits, 26);
    assert Pow2(27) == 2 * Pow2(26);
    Pow2Default();
  }
}
