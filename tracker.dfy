/** The test harness's brute-force overlap tracker (testharness.c): a table
 *  of MAX_REGIONS (address, size) regions, the count of slots in use, the
 *  peak arena use, and the harness's error. Addresses are absolute, with 0
 *  for NULL; the arena starts at `allmem` and spans 2^memBits bytes. */
module RegionTracker {
  import opened Layout

  const MAX_REGIONS: nat := 256

  datatype Region = Region(p: nat, s: nat)

  /** The errors trackAdd raises: "Allocated illegal address", "Allocation
   *  overflowed", "Allocated already-used memory". */
  datatype Fault = IllegalAddress | Overflowed | AlreadyUsed

  /** The tracker's table: the regions, `usedRegions` and `memUsed`. */
  datatype Table = Table(regions: seq<Region>, usedRegions: nat, memUsed: nat)

  /** The empty slot trackFree leaves behind. */
  const CLEARED := Region(0, 0)

  /** 1 << n. */
  function Pow2(n: nat): (r: nat)
    ensures r >= 1
  {
    if n == 0 then 1 else 2 * Pow2(n - 1)
  }

  function Max(a: nat, b: nat): (m: nat)
    ensures m >= a && m >= b && (m == a || m == b)
  {
    if a > b then a else b
  }

  ghost predicate WellSized(t: Table)
  {
    |t.regions| == MAX_REGIONS && t.usedRegions <= MAX_REGIONS
  }

  /** Region `r` and [p, p + s) overlap: each starts before the other ends. */
  predicate Overlaps(r: Region, p: nat, s: nat)
  {
    r.p + r.s > p && p + s > r.p
  }

  /** A slot is checked for overlap unless this is a resize and it holds `p`. */
  predicate Checked(r: Region, p: nat, resize: bool)
  {
    !(resize && r.p == p)
  }

  /** Some checked slot below `n` overlaps [p, p + s). */
  ghost predicate Clash(rs: seq<Region>, n: nat, p: nat, s: nat, resize: bool)
    requires n <= |rs|
  {
    exists i :: 0 <= i < n && Checked(rs[i], p, resize) && Overlaps(rs[i], p, s)
  }

  /** The last slot below `n` holding address `p`, or -1. */
  function LastAt(rs: seq<Region>, n: nat, p: nat): (d: int)
    requires n <= |rs|
    ensures -1 <= d < n
    ensures d >= 0 ==> rs[d].p == p && forall i :: d < i < n ==> rs[i].p != p
    ensures d < 0 ==> forall i :: 0 <= i < n ==> rs[i].p != p
  {
    if n == 0 then -1
    else if rs[n - 1].p == p then n - 1
    else LastAt(rs, n - 1, p)
  }

  /** The first slot below `n` of size 0, or -1. */
  function FirstEmpty(rs: seq<Region>, n: nat): (d: int)
    requires n <= |rs|
    ensures -1 <= d < n
    ensures d >= 0 ==> rs[d].s == 0 && forall i :: 0 <= i < d ==> rs[i].s != 0
    ensures d < 0 ==> forall i :: 0 <= i < n ==> rs[i].s != 0
  {
    if n == 0 then -1
    else
      var d := FirstEmpty(rs, n - 1);
      if d >= 0 then d else if rs[n - 1].s == 0 then n - 1 else -1
  }

  /** The slot trackAdd writes: on a resize, the last slot holding `p`;
   *  otherwise the first slot of size 0; otherwise a new slot at the end
   *  while there is room; otherwise slot (p * 91) mod MAX_REGIONS. */
  function Slot(t: Table, p: nat, resize: bool): (d: nat)
    requires WellSized(t)
    ensures d < MAX_REGIONS
    ensures d <= t.usedRegions && (d == t.usedRegions ==> t.usedRegions < MAX_REGIONS)
  {
    var same := if resize then LastAt(t.regions, t.usedRegions, p) else -1;
    var empty := FirstEmpty(t.regions, t.usedRegions);
    if same >= 0 then same
    else if empty >= 0 then empty
    else if t.usedRegions < MAX_REGIONS then t.usedRegions
    else (p * 91) % MAX_REGIONS
  }

  /** trackAdd(p, s, resize) on table `t`, with the arena at `allmem` of
   *  `arena` bytes: the new table and the error raised, if any. A rejected
   *  region leaves the table as it was. */
  ghost function Add(t: Table, allmem: nat, arena: nat, p: nat, s: nat, resize: bool): (Table, Option<Fault>)
    requires WellSized(t)
  {
    if p < allmem then (t, Some(IllegalAddress))
    else if p + s >= allmem + arena then (t, Some(Overflowed))
    else if Clash(t.regions, t.usedRegions, p, s, resize) then (t, Some(AlreadyUsed))
    else
      var d := Slot(t, p, resize);
      (Table(t.regions[d := Region(p, s)],
             if d == t.usedRegions then t.usedRegions + 1 else t.usedRegions,
             Max(t.memUsed, p + s - allmem)),
       None)
  }

  /** trackFree(p) on table `t`: every slot below `usedRegions` holding `p`
   *  is cleared, and the count drops by one when the last slot was. */
  function Untrack(t: Table, p: nat): Table
    requires WellSized(t)
  {
    var n := t.usedRegions;
    Table(seq(|t.regions|, i requires 0 <= i < |t.regions| =>
                if i < n && t.regions[i].p == p then CLEARED else t.regions[i]),
          if n > 0 && t.regions[n - 1].p == p then n - 1 else n,
          t.memUsed)
  }

  /** Every slot in use is cleared, or holds a region inside the arena whose
   *  end is counted in `memUsed`. */
  ghost predicate Recorded(t: Table, allmem: nat, arena: nat)
    requires WellSized(t)
  {
    forall i :: 0 <= i < t.usedRegions ==>
      t.regions[i] == CLEARED
      || (allmem <= t.regions[i].p && t.regions[i].p + t.regions[i].s < allmem + arena
          && t.regions[i].p + t.regions[i].s - allmem <= t.memUsed)
  }

  /** No two slots in use overlap. */
  ghost predicate Disjoint(t: Table)
    requires WellSized(t)
  {
    forall i, j :: 0 <= i < t.usedRegions && 0 <= j < t.usedRegions && i != j ==>
      !Overlaps(t.regions[i], t.regions[j].p, t.regions[j].s)
  }

  // ---------------------------------------------------------------------------
  // What trackAdd and trackFree guarantee

  /** The slot trackAdd writes, by the order the scan prefers: the last
   *  slot holding `p` on a resize, else the first empty slot, else a fresh
   *  slot while there is room, else the hashed slot. */
  lemma SlotChoice(t: Table, p: nat, resize: bool)
    requires WellSized(t)
    ensures var d, rs, n := Slot(t, p, resize), t.regions, t.usedRegions;
      && (resize && (exists i :: 0 <= i < n && rs[i].p == p) ==>
            d < n && rs[d].p == p && forall i :: d < i < n ==> rs[i].p != p)
      && (!(resize && (exists i :: 0 <= i < n && rs[i].p == p)) && (exists i :: 0 <= i < n && rs[i].s == 0) ==>
            d < n && rs[d].s == 0 && forall i :: 0 <= i < d ==> rs[i].s != 0)
      && (!(resize && (exists i :: 0 <= i < n && rs[i].p == p)) && !(exists i :: 0 <= i < n && rs[i].s == 0) ==>
            d == if n < MAX_REGIONS then n else (p * 91) % MAX_REGIONS)
  {
  }

  /** trackAdd rejects an address below the arena, a region reaching the
   *  arena's end or beyond (the test is `>=`), and a region overlapping a
   *  checked slot; a rejection leaves the table untouched. Otherwise the
   *  region is written at Slot, nothing else changes, the count stays
   *  within MAX_REGIONS, and `memUsed` rises to cover the region's end. */
  lemma AddOutcome(t: Table, allmem: nat, arena: nat, p: nat, s: nat, resize: bool)
    requires WellSized(t)
    ensures var (t', e) := Add(t, allmem, arena, p, s, resize);
      && (e == Some(IllegalAddress) <==> p < allmem)
      && (e == Some(Overflowed) <==> allmem <= p && p + s >= allmem + arena)
      && (e == Some(AlreadyUsed) <==>
            (allmem <= p && p + s < allmem + arena
             && exists i :: 0 <= i < t.usedRegions && Checked(t.regions[i], p, resize) && Overlaps(t.regions[i], p, s)))
      && (e.Some? ==> t' == t)
      && (e.None? ==>
            && WellSized(t')
            && var d := Slot(t, p, resize);
            && d < t'.usedRegions && t'.regions[d] == Region(p, s)
            && (forall i :: 0 <= i < MAX_REGIONS && i != d ==> t'.regions[i] == t.regions[i])
            && t.usedRegions <= t'.usedRegions <= t.usedRegions + 1
            && t'.memUsed >= t.memUsed && allmem + t'.memUsed >= p + s)
  {
  }

  /** trackAdd keeps every slot in use inside the arena and within `memUsed`. */
  lemma AddKeepsRecorded(t: Table, allmem: nat, arena: nat, p: nat, s: nat, resize: bool)
    requires WellSized(t) && Recorded(t, allmem, arena)
    ensures WellSized(Add(t, allmem, arena, p, s, resize).0)
    ensures Recorded(Add(t, allmem, arena, p, s, resize).0, allmem, arena)
  {
  }

  /** trackAdd keeps the slots in use pairwise apart when every slot is
   *  checked: always on a plain add, and on a resize when at most one slot
   *  holds the address. */
  lemma AddKeepsDisjoint(t: Table, allmem: nat, arena: nat, p: nat, s: nat, resize: bool)
    requires WellSized(t) && Disjoint(t)
    requires resize ==> forall i, j :: 0 <= i < j < t.usedRegions && t.regions[i].p == p ==> t.regions[j].p != p
    ensures WellSized(Add(t, allmem, arena, p, s, resize).0)
    ensures Disjoint(Add(t, allmem, arena, p, s, resize).0)
  {
    var (t', e) := Add(t, allmem, arena, p, s, resize);
    if e.None? {
      var d := Slot(t, p, resize);
      forall i, j | 0 <= i < t'.usedRegions && 0 <= j < t'.usedRegions && i != j
        ensures !Overlaps(t'.regions[i], t'.regions[j].p, t'.regions[j].s)
      {
        if i == d || j == d {
          var k := if i == d then j else i;
          assert k < t.usedRegions && t'.regions[k] == t.regions[k];
          assert !Overlaps(t.regions[k], p, s);
        }
      }
    }
  }

  /** trackFree forgets `p`: no slot in use holds it afterwards (unless it
   *  is NULL, the address of a cleared slot), every other slot is kept, and
   *  the count drops by at most one. */
  lemma UntrackForgets(t: Table, p: nat)
    requires WellSized(t)
    ensures var t' := Untrack(t, p);
      && WellSized(t') && t'.memUsed == t.memUsed
      && t.usedRegions - 1 <= t'.usedRegions <= t.usedRegions
      && (forall i :: 0 <= i < t'.usedRegions && t'.regions[i].p == p ==> p == 0 && t'.regions[i] == CLEARED)
      && (forall i :: 0 <= i < MAX_REGIONS && (t.usedRegions <= i || t.regions[i].p != p) ==> t'.regions[i] == t.regions[i])
  {
  }

  /** trackFree keeps the table recorded and its slots apart. */
  lemma UntrackKeeps(t: Table, allmem: nat, arena: nat, p: nat)
    requires WellSized(t) && Recorded(t, allmem, arena)
    ensures WellSized(Untrack(t, p)) && Recorded(Untrack(t, p), allmem, arena)
    ensures Disjoint(t) ==> Disjoint(Untrack(t, p))
  {
  }

  // ---------------------------------------------------------------------------
  // The tracker's state and routines

  class Tracker {
    const allmem: nat
    const memBits: nat
    const regions: array<Region>
    var usedRegions: nat
    var memUsed: nat
    var error: Option<Fault>

    ghost function Contents(): Table
      reads this, regions
    {
      Table(regions[..], usedRegions, memUsed)
    }

    ghost predicate Valid()
      reads this, regions
    {
      && regions.Length == MAX_REGIONS
      && usedRegions <= MAX_REGIONS
      && Recorded(Contents(), allmem, Pow2(memBits))
    }

    /** The tracker's static state: an all-zero table, no error. */
    constructor (allmem: nat, memBits: nat)
      ensures Valid() && this.allmem == allmem && this.memBits == memBits
      ensures Contents() == Table(seq(MAX_REGIONS, _ => CLEARED), 0, 0) && error.None?
      ensures fresh(regions)
    {
      this.allmem := allmem;
      this.memBits := memBits;
      regions := new Region[MAX_REGIONS](_ => CLEARED);
      usedRegions := 0;
      memUsed := 0;
      error := None;
    }

    /** trackAdd: reject a region outside the arena or overlapping a
     *  checked slot, else write it at the slot the scan picked and raise
     *  the peak. */
    method TrackAdd(p: nat, s: nat, resize: bool)
      requires Valid()
      modifies this, regions
      ensures Valid()
      ensures Contents() == Add(old(Contents()), allmem, Pow2(memBits), p, s, resize).0
      ensures var e := Add(old(Contents()), allmem, Pow2(memBits), p, s, resize).1;
        error == if e.Some? then e else old(error)
    {
      ghost var t := Contents();
      AddKeepsRecorded(t, allmem, Pow2(memBits), p, s, resize);
      if p < allmem {
        error := Some(IllegalAddress);
        return;
      }
      if p + s >= allmem + Pow2(memBits) {
        error := Some(Overflowed);
        return;
      }
      var clash, dest := Scan(p, s, resize);
      if clash {
        error := Some(AlreadyUsed);
        return;
      }
      if dest < 0 {
        if usedRegions < MAX_REGIONS {
          dest := usedRegions;
          usedRegions := usedRegions + 1;
        } else {
          dest := (p * 91) % MAX_REGIONS;
        }
      }
      assert dest == Slot(t, p, resize);
      regions[dest] := Region(p, s);
      var newUse := p + s - allmem;
      if newUse > memUsed {
        memUsed := newUse;
      }
    }

    /** trackAdd's scan of the slots in use: whether a checked slot
     *  overlaps [p, p + s), and otherwise the slot picked so far (the last
     *  slot holding `p` on a resize, else the first empty one, else -1). */
    method Scan(p: nat, s: nat, resize: bool) returns (clash: bool, dest: int)
      requires Valid()
      ensures clash <==> Clash(regions[..], usedRegions, p, s, resize)
      ensures !clash ==> dest == if resize && LastAt(regions[..], usedRegions, p) >= 0
                                 then LastAt(regions[..], usedRegions, p)
                                 else FirstEmpty(regions[..], usedRegions)
    {
      dest := -1;
      for i := 0 to usedRegions
        invariant forall k :: 0 <= k < i ==> !(Checked(regions[k], p, resize) && Overlaps(regions[k], p, s))
        invariant dest == if resize && LastAt(regions[..], i, p) >= 0 then LastAt(regions[..], i, p)
                           else FirstEmpty(regions[..], i)
      {
        if resize && regions[i].p == p {
          dest := i;
          continue;
        }
        if regions[i].p + regions[i].s > p && p + s > regions[i].p {
          return true, dest;
        }
        if dest < 0 && regions[i].s == 0 {
          dest := i;
        }
      }
      clash := false;
    }

    /** trackFree: clear every slot in use holding `p`; the count drops
     *  when the cleared slot is the last one. */
    method TrackFree(p: nat)
      requires Valid()
      modifies this, regions
      ensures Valid()
      ensures Contents() == Untrack(old(Contents()), p)
      ensures error == old(error)
    {
      ghost var t := Contents();
      ghost var n := usedRegions;
      UntrackKeeps(t, allmem, Pow2(memBits), p);
      var i := 0;
      while i < usedRegions
        invariant i <= n
        invariant usedRegions == if i == n && n > 0 && t.regions[n - 1].p == p then n - 1 else n
        invariant regions.Length == MAX_REGIONS && memUsed == t.memUsed && error == old(error)
        invariant forall k :: 0 <= k < MAX_REGIONS ==>
          regions[k] == if k < i && t.regions[k].p == p then CLEARED else t.regions[k]
        decreases n - i
      {
        if regions[i].p == p {
          regions[i] := CLEARED;
          if i == usedRegions - 1 {
            usedRegions := usedRegions - 1;
          }
        }
        i := i + 1;
      }
      assert regions[..] == Untrack(t, p).regions;
    }
  }
}
