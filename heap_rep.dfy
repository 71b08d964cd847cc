module HeapRep {
  import opened Layout
  import opened HeapSpec

  /** A header link: NULL or the offset of a header. */
  datatype Link = Nil | Hdr(off: nat)

  /** struct Metadata. */
  datatype Header = Header(size: nat, used: bool, nextFree: Link, prev: Link, next: Link)

  /** The header of chain block j is stored at its offset and agrees with the
   *  abstract block: size, flag, and address-order neighbours. */
  ghost predicate HeaderAt(hs: map<nat, Header>, bs: seq<Block>, j: nat)
    requires j < |bs|
  {
    && bs[j].off in hs
    && hs[bs[j].off].size == bs[j].size
    && hs[bs[j].off].used == bs[j].inUse
    && hs[bs[j].off].prev == (if j == 0 then Nil else Hdr(bs[j - 1].off))
    && hs[bs[j].off].next == (if j + 1 == |bs| then Nil else Hdr(bs[j + 1].off))
  }

  /** The doubly linked chain of headers spells out `bs`, ending at `last`. */
  ghost predicate Linked(hs: map<nat, Header>, bs: seq<Block>, last: Link)
  {
    && last == (if |bs| == 0 then Nil else Hdr(bs[|bs| - 1].off))
    && forall j :: 0 <= j < |bs| ==> HeaderAt(hs, bs, j)
  }

  /** The link that should follow entry k of a free list. */
  function Succ(fl: seq<nat>, k: nat): Link
    requires k < |fl|
  {
    if k + 1 == |fl| then Nil else Hdr(fl[k + 1])
  }

  /** The `next_free` links from `head` spell out the free list `fl`. */
  ghost predicate Threaded(hs: map<nat, Header>, fl: seq<nat>, head: Link)
  {
    && head == (if |fl| == 0 then Nil else Hdr(fl[0]))
    && (forall k :: 0 <= k < |fl| ==> fl[k] in hs)
    && (forall k {:trigger Succ(fl, k)} :: 0 <= k < |fl| ==> hs[fl[k]].nextFree == Succ(fl, k))
  }

  /** Following `next_free` from entry k of a threaded list reaches entry k+1,
   *  or NULL after the last entry. */
  lemma ThreadedStep(hs: map<nat, Header>, fl: seq<nat>, head: Link, k: nat)
    requires Threaded(hs, fl, head) && k < |fl|
    ensures fl[k] in hs && hs[fl[k]].nextFree == Succ(fl, k)
  {
  }

  /** A header map, with `head` and `last`, represents the chain `bs` ending
   *  at `used` and the free list `fl`. */
  ghost predicate Wf(hs: map<nat, Header>, bs: seq<Block>, fl: seq<nat>, used: nat, head: Link, last: Link)
  {
    && Contiguous(bs, used)
    && Distinct(fl)
    && Linked(hs, bs, last)
    && Threaded(hs, fl, head)
  }

  /** Two header maps agree on everything but the `next_free` links of the chain. */
  ghost predicate SameChainFields(hs: map<nat, Header>, hs': map<nat, Header>, bs: seq<Block>)
  {
    forall j :: 0 <= j < |bs| && bs[j].off in hs ==>
      && bs[j].off in hs'
      && hs'[bs[j].off].size == hs[bs[j].off].size
      && hs'[bs[j].off].used == hs[bs[j].off].used
      && hs'[bs[j].off].prev == hs[bs[j].off].prev
      && hs'[bs[j].off].next == hs[bs[j].off].next
  }

  /** Two header maps agree on the `next_free` links of the free list. */
  ghost predicate SameFreeLinks(hs: map<nat, Header>, hs': map<nat, Header>, fl: seq<nat>)
  {
    forall k :: 0 <= k < |fl| && fl[k] in hs ==> fl[k] in hs' && hs'[fl[k]].nextFree == hs[fl[k]].nextFree
  }

  lemma LinkedFrame(hs: map<nat, Header>, hs': map<nat, Header>, bs: seq<Block>, last: Link)
    requires Linked(hs, bs, last) && SameChainFields(hs, hs', bs)
    ensures Linked(hs', bs, last)
  {
    forall j | 0 <= j < |bs|
      ensures HeaderAt(hs', bs, j)
    {
      assert HeaderAt(hs, bs, j);
    }
  }

  lemma ThreadedFrame(hs: map<nat, Header>, hs': map<nat, Header>, fl: seq<nat>, head: Link)
    requires Threaded(hs, fl, head) && SameFreeLinks(hs, hs', fl)
    ensures Threaded(hs', fl, head)
  {
  }

  /** Unlinking entry k the way remove_from_list and mymalloc do: the
   *  predecessor takes over its `next_free`, or `head` does. */
  lemma UnlinkKeepsThreaded(hs: map<nat, Header>, fl: seq<nat>, head: Link, k: nat,
                            hs': map<nat, Header>, head': Link)
    requires Threaded(hs, fl, head) && Distinct(fl) && k < |fl|
    requires k == 0 ==> hs' == hs && head' == hs[fl[0]].nextFree
    requires 0 < k ==> hs' == hs[fl[k - 1] := hs[fl[k - 1]].(nextFree := hs[fl[k]].nextFree)] && head' == head
    ensures Threaded(hs', fl[..k] + fl[k + 1..], head')
    ensures hs'.Keys == hs.Keys
    ensures forall o :: o in hs' ==> hs'[o] == hs[o].(nextFree := hs'[o].nextFree)
  {
    var fl' := fl[..k] + fl[k + 1..];
    assert |fl'| == |fl| - 1;
    forall m | 0 <= m < |fl'|
      ensures fl'[m] in hs'
    {
      if m < k {
        assert fl'[m] == fl[m];
      } else {
        assert fl'[m] == fl[m + 1];
      }
    }
    forall m | 0 <= m < |fl'|
      ensures hs'[fl'[m]].nextFree == Succ(fl', m)
    {
      if m < k - 1 {
        assert fl'[m] == fl[m] && fl'[m + 1] == fl[m + 1];
        assert fl[m] != fl[k - 1];
        ThreadedStep(hs, fl, head, m);
      } else if m == k - 1 {
        assert fl'[m] == fl[k - 1];
        ThreadedStep(hs, fl, head, k);
        assert m + 1 < |fl'| ==> fl'[m + 1] == fl[k + 1];
      } else {
        assert fl'[m] == fl[m + 1];
        assert m + 1 < |fl'| ==> fl'[m + 1] == fl[m + 2];
        assert 0 < k ==> fl[m + 1] != fl[k - 1];
        ThreadedStep(hs, fl, head, m + 1);
      }
    }
    if k == 0 {
      ThreadedStep(hs, fl, head, 0);
      assert |fl'| > 0 ==> fl'[0] == fl[1];
    } else {
      assert fl'[0] == fl[0];
    }
  }

  /** The header map after split's writes to block `b`, in split's order:
   *  the new header `s` (its `next_free` still whatever the arena held), the
   *  successor's back link, `b`'s forward link, the push of `s` on the free
   *  list, and last `b`'s size. */
  function SplitWrites(hs: map<nat, Header>, b: nat, size: nat, head: Link): map<nat, Header>
    requires b in hs && size + H <= hs[b].size && (hs[b].next.Hdr? ==> hs[b].next.off in hs)
  {
    var h, s := hs[b], b + H + size;
    var stale := if s in hs then hs[s].nextFree else Nil;
    var hs1 := hs[s := Header(h.size - size - H, false, stale, Hdr(b), h.next)];
    var hs2 := if h.next.Hdr? then hs1[h.next.off := hs1[h.next.off].(prev := Hdr(s))] else hs1;
    var hs3 := hs2[b := hs2[b].(next := Hdr(s))];
    var hs4 := hs3[s := hs3[s].(nextFree := head)];
    hs4[b := hs4[b].(size := size)]
  }

  /** Where split writes: `b` and its successor are headers of the chain,
   *  and the new header `s` is neither a chain header nor listed. */
  lemma SplitFresh(st: HeapState, hs: map<nat, Header>, last: Link, i: nat, size: nat)
    requires Linked(hs, st.blocks, last) && Contiguous(st.blocks, st.used)
    requires i < |st.blocks| && size + H <= st.blocks[i].size
    ensures var b, s := st.blocks[i].off, st.blocks[i].off + H + size;
      && b in hs && hs[b].size == st.blocks[i].size
      && hs[b].next == (if i + 1 == |st.blocks| then Nil else Hdr(st.blocks[i + 1].off))
      && (i + 1 < |st.blocks| ==> st.blocks[i + 1].off in hs && st.blocks[i + 1].off != s && st.blocks[i + 1].off != b)
  {
    assert HeaderAt(hs, st.blocks, i);
    if i + 1 < |st.blocks| {
      assert HeaderAt(hs, st.blocks, i + 1) && Follows(st.blocks, i);
    }
  }

  /** What split's writes do to each header: `s` is new, `b` and its old
   *  successor `n` get new links, and nothing else changes. */
  lemma SplitWritesAt(hs: map<nat, Header>, b: nat, size: nat, head: Link)
    requires b in hs && size + H <= hs[b].size && (hs[b].next.Hdr? ==> hs[b].next.off in hs)
    requires hs[b].next.Hdr? ==> hs[b].next.off != b && hs[b].next.off != b + H + size
    ensures var hs', h, s := SplitWrites(hs, b, size, head), hs[b], b + H + size;
      var n := if h.next.Hdr? then h.next.off else b;
      && s in hs' && hs'[s].size == h.size - size - H && !hs'[s].used
      && hs'[s].prev == Hdr(b) && hs'[s].next == h.next && hs'[s].nextFree == head
      && b in hs' && hs'[b] == h.(size := size, next := Hdr(s))
      && (h.next.Hdr? ==> n in hs' && hs'[n] == hs[n].(prev := Hdr(s)))
      && (forall o :: o in hs && o != b && o != s && o != n ==> o in hs' && hs'[o] == hs[o])
  {
  }

  /** The header writes of split relink the chain as SplitAt says: block i
   *  (at `b`) keeps `size` bytes and points at the new header `s`, which
   *  points back at `b` and on to block i's old successor, whose `prev` now
   *  points at `s`; no other header changes. */
  lemma SplitLinked(bs: seq<Block>, used: nat, hs: map<nat, Header>, last: Link, i: nat, size: nat,
                    hs': map<nat, Header>, last0: Link, bs': seq<Block>)
    requires Linked(hs, bs, last0) && Contiguous(bs, used)
    requires i < |bs| && size + H <= bs[i].size
    requires |bs'| == |bs| + 1
    requires forall j :: 0 <= j < i ==> bs'[j] == bs[j]
    requires bs'[i] == bs[i].(size := size)
    requires bs'[i + 1] == Block(bs[i].off + H + size, bs[i].size - size - H, false)
    requires forall j :: i + 1 < j < |bs'| ==> bs'[j] == bs[j - 1]
    requires var b, s := bs[i].off, bs[i].off + H + size;
      var n := if i + 1 < |bs| then bs[i + 1].off else b;
      && b in hs && n in hs
      && s in hs'
      && hs'[s].size == bs[i].size - size - H && !hs'[s].used
      && hs'[s].prev == Hdr(b) && hs'[s].next == hs[b].next
      && b in hs' && hs'[b].size == size && hs'[b].used == hs[b].used
      && hs'[b].prev == hs[b].prev && hs'[b].next == Hdr(s)
      && (i + 1 < |bs| ==>
            n in hs' && hs'[n].size == hs[n].size && hs'[n].used == hs[n].used
            && hs'[n].prev == Hdr(s) && hs'[n].next == hs[n].next)
      && last == (if i + 1 == |bs| then Hdr(s) else last0)
      && (forall o :: o in hs && o != b && o != s && o != n ==> o in hs' && hs'[o] == hs[o])
    ensures Linked(hs', bs', last)
  {
    var b, s := bs[i].off, bs[i].off + H + size;
    assert HeaderAt(hs, bs, i);
    if i + 1 < |bs| {
      assert Follows(bs, i);
    }
    forall j | 0 <= j < |bs'|
      ensures HeaderAt(hs', bs', j)
    {
      if j < i {
        assert HeaderAt(hs, bs, j);
        ChainOrdered(bs, used, j, i);
      } else if j == i + 1 {
        assert i + 1 < |bs| ==> HeaderAt(hs, bs, i + 1);
      } else if j > i + 1 {
        assert HeaderAt(hs, bs, j - 1);
        ChainOrdered(bs, used, i, j - 1);
        if j > i + 2 {
          ChainOrdered(bs, used, i + 1, j - 1);
        }
      }
    }
  }

  /** split's writes relink the chain as SplitAt says and thread the new
   *  header in front of the free list. */
  lemma SplitRelinks(st: HeapState, hs: map<nat, Header>, head: Link, last: Link, i: nat, size: nat)
    requires Linked(hs, st.blocks, last) && Threaded(hs, st.free, head) && Contiguous(st.blocks, st.used)
    requires i < |st.blocks| && size + H <= st.blocks[i].size
    requires Find(st.free, st.blocks[i].off + H + size) == |st.free| && Distinct(st.free)
    ensures var b, s := st.blocks[i].off, st.blocks[i].off + H + size;
      && b in hs && size + H <= hs[b].size && (hs[b].next.Hdr? ==> hs[b].next.off in hs)
      && (hs[b].next == Nil <==> i + 1 == |st.blocks|)
      && Wf(SplitWrites(hs, b, size, head), SplitAt(st, i, size).blocks, SplitAt(st, i, size).free,
            st.used, Hdr(s), if i + 1 == |st.blocks| then Hdr(s) else last)
  {
    var b, s := st.blocks[i].off, st.blocks[i].off + H + size;
    SplitFresh(st, hs, last, i, size);
    SplitWritesAt(hs, b, size, head);
    var hs' := SplitWrites(hs, b, size, head);
    SplitShape(st, i, size);
    SplitLinked(st.blocks, st.used, hs, if i + 1 == |st.blocks| then Hdr(s) else last, i, size, hs', last, SplitAt(st, i, size).blocks);
    SplitThreaded(st, hs, head, last, i, size);
    SplitKeepsContiguous(st, i, size);
  }

  /** split's writes thread the new header in front of the free list. */
  lemma SplitThreaded(st: HeapState, hs: map<nat, Header>, head: Link, last: Link, i: nat, size: nat)
    requires Linked(hs, st.blocks, last) && Threaded(hs, st.free, head) && Contiguous(st.blocks, st.used)
    requires i < |st.blocks| && size + H <= st.blocks[i].size
    requires Find(st.free, st.blocks[i].off + H + size) == |st.free| && Distinct(st.free)
    ensures var b, s := st.blocks[i].off, st.blocks[i].off + H + size;
      && b in hs && size + H <= hs[b].size && (hs[b].next.Hdr? ==> hs[b].next.off in hs)
      && Threaded(SplitWrites(hs, b, size, head), [s] + st.free, Hdr(s))
      && Distinct([s] + st.free)
  {
    var b, s := st.blocks[i].off, st.blocks[i].off + H + size;
    SplitFresh(st, hs, last, i, size);
    SplitWritesAt(hs, b, size, head);
    forall k | 0 <= k < |st.free|
      ensures st.free[k] != s
    {
      FindFirst(st.free, s, k);
    }
    PushThreaded(hs, st.free, head, s, SplitWrites(hs, b, size, head));
    DistinctPush(st.free, s);
  }

  /** Pushing the fresh header `s` while only links other than `next_free`
   *  change elsewhere threads `s` in front of the free list. */
  lemma PushThreaded(hs: map<nat, Header>, fl: seq<nat>, head: Link, s: nat, hs': map<nat, Header>)
    requires Threaded(hs, fl, head)
    requires s in hs' && hs'[s].nextFree == head
    requires forall k :: 0 <= k < |fl| ==> fl[k] in hs' && hs'[fl[k]].nextFree == hs[fl[k]].nextFree
    ensures Threaded(hs', [s] + fl, Hdr(s))
  {
    var fl' := [s] + fl;
    forall k | 0 <= k < |fl'|
      ensures hs'[fl'[k]].nextFree == Succ(fl', k)
    {
      if 0 < k {
        assert fl'[k] == fl[k - 1];
        assert k + 1 < |fl'| ==> fl'[k + 1] == fl[k];
        ThreadedStep(hs, fl, head, k - 1);
      }
    }
  }

  /** The header map after block `a` absorbs its successor `d`, in the order
   *  merge_next and merge_prev write it: `a`'s size, `a`'s forward link, and
   *  the back link of `d`'s successor. */
  function FuseWrites(hs: map<nat, Header>, a: nat, d: nat): map<nat, Header>
    requires a in hs && d in hs && (hs[d].next.Hdr? ==> hs[d].next.off in hs)
  {
    var h, n := hs[a], hs[d];
    var hs1 := hs[a := h.(size := h.size + H + n.size)];
    var hs2 := hs1[a := hs1[a].(next := n.next)];
    if n.next.Hdr? then hs2[n.next.off := hs2[n.next.off].(prev := Hdr(a))] else hs2
  }

  /** What the fuse writes do to each header. */
  lemma FuseWritesAt(hs: map<nat, Header>, a: nat, d: nat)
    requires a in hs && d in hs && (hs[d].next.Hdr? ==> hs[d].next.off in hs && hs[d].next.off != a)
    ensures var hs', h, n := FuseWrites(hs, a, d), hs[a], hs[d];
      var e := if n.next.Hdr? then n.next.off else a;
      && a in hs' && hs'[a] == h.(size := h.size + H + n.size, next := n.next)
      && (n.next.Hdr? ==> e in hs' && hs'[e] == hs[e].(prev := Hdr(a)))
      && (forall o :: o in hs && o != a && o != e ==> o in hs' && hs'[o] == hs[o])
      && hs'.Keys == hs.Keys
  {
  }

  /** The fuse writes relink the chain as Fuse says. */
  lemma FuseLinked(bs: seq<Block>, used: nat, hs: map<nat, Header>, last0: Link, c: nat,
                   hs': map<nat, Header>, last: Link, bs': seq<Block>)
    requires Linked(hs, bs, last0) && Contiguous(bs, used) && c + 1 < |bs|
    requires |bs'| == |bs| - 1
    requires forall j :: 0 <= j < c ==> bs'[j] == bs[j]
    requires bs'[c] == bs[c].(size := bs[c].size + H + bs[c + 1].size)
    requires forall j :: c < j < |bs'| ==> bs'[j] == bs[j + 1]
    requires var a := bs[c].off;
      var e := if c + 2 < |bs| then bs[c + 2].off else a;
      && a in hs && a in hs' && bs[c + 1].off in hs
      && hs'[a].size == bs[c].size + H + bs[c + 1].size && hs'[a].used == hs[a].used
      && hs'[a].prev == hs[a].prev && hs'[a].next == hs[bs[c + 1].off].next
      && (c + 2 < |bs| ==>
            e in hs && e in hs' && hs'[e].size == hs[e].size && hs'[e].used == hs[e].used
            && hs'[e].prev == Hdr(a) && hs'[e].next == hs[e].next)
      && last == (if c + 2 == |bs| then Hdr(a) else last0)
      && (forall o :: o in hs && o != a && o != e ==> o in hs' && hs'[o] == hs[o])
    ensures Linked(hs', bs', last)
  {
    assert HeaderAt(hs, bs, c) && HeaderAt(hs, bs, c + 1);
    forall j | 0 <= j < |bs'|
      ensures HeaderAt(hs', bs', j)
    {
      if j < c {
        assert HeaderAt(hs, bs, j);
        ChainOrdered(bs, used, j, c);
        if c + 2 < |bs| {
          ChainOrdered(bs, used, j, c + 2);
        }
      } else if j > c {
        assert HeaderAt(hs, bs, j + 1);
        ChainOrdered(bs, used, c, j + 1);
        if j > c + 1 {
          ChainOrdered(bs, used, c + 2, j + 1);
        }
      }
    }
  }

  /** merge_next / merge_prev: block c absorbs block c+1; the chain is relinked
   *  as Fuse says and no `next_free` link changes. */
  lemma FuseRelinks(bs: seq<Block>, used: nat, hs: map<nat, Header>, last: Link, c: nat)
    requires Linked(hs, bs, last) && Contiguous(bs, used) && c + 1 < |bs|
    ensures var a, d := bs[c].off, bs[c + 1].off;
      && a in hs && d in hs && hs[a].next == Hdr(d) && hs[d].prev == Hdr(a)
      && (hs[d].next.Hdr? ==> hs[d].next.off in hs && hs[d].next.off != a)
      && (hs[d].next == Nil <==> c + 2 == |bs|)
      && Linked(FuseWrites(hs, a, d), Fuse(bs, c), if c + 2 == |bs| then Hdr(a) else last)
      && Contiguous(Fuse(bs, c), used)
      && FuseWrites(hs, a, d).Keys == hs.Keys
      && (forall o :: o in hs ==> FuseWrites(hs, a, d)[o].nextFree == hs[o].nextFree)
  {
    var a, d := bs[c].off, bs[c + 1].off;
    assert HeaderAt(hs, bs, c) && HeaderAt(hs, bs, c + 1);
    if c + 2 < |bs| {
      assert HeaderAt(hs, bs, c + 2);
      ChainOrdered(bs, used, c, c + 2);
    }
    FuseWritesAt(hs, a, d);
    FuseShape(bs, c);
    FuseKeepsContiguous(bs, used, c);
    FuseLinked(bs, used, hs, last, c, FuseWrites(hs, a, d), if c + 2 == |bs| then Hdr(a) else last, Fuse(bs, c));
  }

  /** merge_next and merge_prev as a whole: after the absorbed block's
   *  header has been unlinked from the free list (which wrote `next_free`
   *  links only, turning `hs0` into `hs`), the fuse writes leave a header map
   *  that represents the fused chain and the shortened free list. */
  lemma FuseRep(hs0: map<nat, Header>, bs: seq<Block>, used: nat, last: Link, c: nat,
                hs: map<nat, Header>, fl: seq<nat>, head: Link)
    requires Linked(hs0, bs, last) && Contiguous(bs, used) && c + 1 < |bs|
    requires Threaded(hs, fl, head) && Distinct(fl)
    requires hs.Keys == hs0.Keys
    requires forall o :: o in hs ==> hs[o] == hs0[o].(nextFree := hs[o].nextFree)
    ensures var a, d := bs[c].off, bs[c + 1].off;
      && a in hs && d in hs && (hs[d].next.Hdr? ==> hs[d].next.off in hs)
      && (hs[d].next == Nil <==> c + 2 == |bs|)
      && Wf(FuseWrites(hs, a, d), Fuse(bs, c), fl, used, head, if c + 2 == |bs| then Hdr(a) else last)
  {
    LinkedFrame(hs0, hs, bs, last);
    FuseRelinks(bs, used, hs, last, c);
    ThreadedFrame(hs, FuseWrites(hs, bs[c].off, bs[c + 1].off), fl, head);
  }

  /** Setting the `used` flag of chain block i in its header matches flipping
   *  the block's flag. */
  lemma FlagLinked(hs: map<nat, Header>, bs: seq<Block>, used: nat, last: Link, i: nat, flag: bool)
    requires Linked(hs, bs, last) && Contiguous(bs, used) && i < |bs|
    ensures bs[i].off in hs
    ensures Linked(hs[bs[i].off := hs[bs[i].off].(used := flag)], bs[i := bs[i].(inUse := flag)], last)
  {
    assert HeaderAt(hs, bs, i);
    var hs', bs' := hs[bs[i].off := hs[bs[i].off].(used := flag)], bs[i := bs[i].(inUse := flag)];
    forall j | 0 <= j < |bs'|
      ensures HeaderAt(hs', bs', j)
    {
      assert HeaderAt(hs, bs, j);
      if j < i {
        ChainOrdered(bs, used, j, i);
      } else if j > i {
        ChainOrdered(bs, used, i, j);
      }
    }
  }

  /** A header's `used` flag is not part of the free-list threading. */
  lemma FlagThreaded(hs: map<nat, Header>, fl: seq<nat>, head: Link, x: nat, flag: bool)
    requires Threaded(hs, fl, head) && x in hs
    ensures Threaded(hs[x := hs[x].(used := flag)], fl, head)
  {
  }

  /** The header writes of mymalloc's first-fit hit on entry k: the
   *  predecessor's `next_free` (or `head`) skips the block, which is then
   *  marked used. */
  function TakeWrites(hs: map<nat, Header>, fl: seq<nat>, k: nat): map<nat, Header>
    requires k < |fl| && fl[k] in hs && (0 < k ==> fl[k - 1] in hs)
  {
    var c := fl[k];
    var hs1 := if k == 0 then hs else hs[fl[k - 1] := hs[fl[k - 1]].(nextFree := hs[c].nextFree)];
    hs1[c := hs1[c].(used := true)]
  }

  /** The header of chain block i carries its size. */
  lemma HeaderSize(hs: map<nat, Header>, bs: seq<Block>, last: Link, i: nat)
    requires Linked(hs, bs, last) && i < |bs|
    ensures bs[i].off in hs && hs[bs[i].off].size == bs[i].size
  {
    assert HeaderAt(hs, bs, i);
  }

  /** The header of a listed block carries the block's size and a clear flag. */
  lemma ListedHeader(hs: map<nat, Header>, bs: seq<Block>, fl: seq<nat>, last: Link, k: nat)
    requires Linked(hs, bs, last) && Listed(bs, fl) && k < |fl|
    ensures IndexOf(bs, fl[k]) < |bs| && fl[k] in hs
    ensures hs[fl[k]].size == SizeAt(bs, fl[k]) && !hs[fl[k]].used
  {
    var i := IndexOf(bs, fl[k]);
    assert HeaderAt(hs, bs, i);
  }

  /** mymalloc's first-fit take keeps the representation. */
  lemma TakeRep(hs: map<nat, Header>, bs: seq<Block>, fl: seq<nat>, used: nat, head: Link, last: Link, k: nat,
                 hs': map<nat, Header>, bs': seq<Block>, fl': seq<nat>, head': Link)
    requires Wf(hs, bs, fl, used, head, last) && Listed(bs, fl) && k < |fl|
    requires fl[k] in hs && (0 < k ==> fl[k - 1] in hs) && hs' == TakeWrites(hs, fl, k)
    requires bs' == Take(HeapState(bs, fl, used), k).blocks && fl' == Take(HeapState(bs, fl, used), k).free
    requires head' == if k == 0 then hs[fl[0]].nextFree else head
    ensures Wf(hs', bs', fl', used, head', last)
  {
    var c, i := fl[k], IndexOf(bs, fl[k]);
    ListedHeader(hs, bs, fl, last, k);
    var head' := if k == 0 then hs[fl[0]].nextFree else head;
    var hs1 := if k == 0 then hs else hs[fl[k - 1] := hs[fl[k - 1]].(nextFree := hs[c].nextFree)];
    UnlinkKeepsThreaded(hs, fl, head, k, hs1, head');
    UnlinkAt(fl, k);
    LinkedFrame(hs, hs1, bs, last);
    FlagLinked(hs1, bs, used, last, i, true);
    FlagThreaded(hs1, fl[..k] + fl[k + 1..], head', c, true);
    FlagKeepsContiguous(bs, used, i, true);
  }

  /** The header writes of mymalloc's carve at the high-water mark: a new
   *  header at `used` (its `next_free` left as the arena held it), linked
   *  after `last`. */
  function CarveWrites(hs: map<nat, Header>, used: nat, size: nat, last: Link): map<nat, Header>
    requires last.Hdr? ==> last.off in hs
  {
    var stale := if used in hs then hs[used].nextFree else Nil;
    var hs1 := hs[used := Header(size, true, stale, last, Nil)];
    if last.Hdr? then hs1[last.off := hs1[last.off].(next := Hdr(used))] else hs1
  }

  /** The chain after mymalloc's carve: the new block is appended after `last`. */
  lemma CarveLinked(hs: map<nat, Header>, bs: seq<Block>, used: nat, last: Link, size: nat)
    requires Linked(hs, bs, last) && Contiguous(bs, used)
    ensures last.Hdr? ==> last.off in hs
    ensures Linked(CarveWrites(hs, used, size, last), bs + [Block(used, size, true)], Hdr(used))
  {
    if |bs| > 0 {
      assert HeaderAt(hs, bs, |bs| - 1);
    }
    var hs', bs' := CarveWrites(hs, used, size, last), bs + [Block(used, size, true)];
    forall j | 0 <= j < |bs'|
      ensures HeaderAt(hs', bs', j)
    {
      if j < |bs| {
        assert bs'[j] == bs[j] && HeaderAt(hs, bs, j);
        EndWithin(bs, used, j);
        if j + 1 < |bs| {
          assert bs'[j + 1] == bs[j + 1];
          ChainOrdered(bs, used, j, |bs| - 1);
        }
      }
    }
  }

  /** mymalloc's carve keeps the representation. */
  lemma CarveRep(hs: map<nat, Header>, bs: seq<Block>, fl: seq<nat>, used: nat, head: Link, last: Link, size: nat)
    requires Wf(hs, bs, fl, used, head, last)
    requires forall k :: 0 <= k < |fl| ==> fl[k] < used
    ensures last.Hdr? ==> last.off in hs
    ensures Wf(CarveWrites(hs, used, size, last), bs + [Block(used, size, true)], fl, used + H + size, head, Hdr(used))
  {
    CarveLinked(hs, bs, used, last, size);
    var hs', bs' := CarveWrites(hs, used, size, last), bs + [Block(used, size, true)];
    forall j | 0 <= j < |bs'| - 1
      ensures Follows(bs', j)
    {
      assert bs'[j] == bs[j];
      if j + 1 < |bs| {
        assert Follows(bs, j);
      }
    }
    forall k | 0 <= k < |fl|
      ensures fl[k] in hs' && hs'[fl[k]].nextFree == hs[fl[k]].nextFree
    {
      assert fl[k] != used;
    }
    ThreadedFrame(hs, hs', fl, head);
  }

  /** The header write of myfree's tail truncation: the predecessor, if
   *  any, ends the chain. */
  function CutWrites(hs: map<nat, Header>, pv: Link): map<nat, Header>
    requires pv.Hdr? ==> pv.off in hs
  {
    if pv.Hdr? then hs[pv.off := hs[pv.off].(next := Nil)] else hs
  }

  /** Cutting the unlisted last block off the chain keeps the representation. */
  lemma CutRep(hs: map<nat, Header>, bs: seq<Block>, fl: seq<nat>, used: nat, head: Link, last: Link)
    requires Wf(hs, bs, fl, used, head, last) && |bs| > 0
    ensures var n := |bs|;
      && bs[n - 1].off in hs
      && hs[bs[n - 1].off].prev == (if n == 1 then Nil else Hdr(bs[n - 2].off))
      && (n > 1 ==> bs[n - 2].off in hs)
      && Wf(CutWrites(hs, hs[bs[n - 1].off].prev), bs[..n - 1], fl, bs[n - 1].off, head,
            hs[bs[n - 1].off].prev)
  {
    var n := |bs|;
    assert HeaderAt(hs, bs, n - 1);
    var pv := hs[bs[n - 1].off].prev;
    if n > 1 {
      assert HeaderAt(hs, bs, n - 2) && Follows(bs, n - 2);
    }
    var hs', bs' := CutWrites(hs, pv), bs[..n - 1];
    forall j | 0 <= j < |bs'|
      ensures HeaderAt(hs', bs', j)
    {
      assert bs'[j] == bs[j] && HeaderAt(hs, bs, j);
      if j < n - 2 {
        ChainOrdered(bs, used, j, n - 2);
      }
    }
    forall j | 0 <= j < |bs'| - 1
      ensures Follows(bs', j)
    {
      assert bs'[j + 1] == bs[j + 1] && Follows(bs, j);
    }
    assert SameFreeLinks(hs, hs', fl) by {
      forall k | 0 <= k < |fl|
        ensures fl[k] in hs' && hs'[fl[k]].nextFree == hs[fl[k]].nextFree
      {
      }
    }
    ThreadedFrame(hs, hs', fl, head);
  }

  /** myrealloc's in-place growth of the last block: only its header's size
   *  changes, and `used` moves by the difference. */
  lemma GrowRep(hs: map<nat, Header>, bs: seq<Block>, fl: seq<nat>, used: nat, head: Link, last: Link, size: nat)
    requires Wf(hs, bs, fl, used, head, last) && |bs| > 0 && bs[|bs| - 1].size <= size
    ensures var n := |bs|; var o := bs[n - 1].off;
      && o in hs && hs[o].size == bs[n - 1].size && hs[o].next == Nil
      && Wf(hs[o := hs[o].(size := size)], bs[n - 1 := bs[n - 1].(size := size)], fl,
            used + (size - bs[n - 1].size), head, last)
  {
    var n := |bs|;
    var o := bs[n - 1].off;
    assert HeaderAt(hs, bs, n - 1);
    var hs', bs' := hs[o := hs[o].(size := size)], bs[n - 1 := bs[n - 1].(size := size)];
    forall j | 0 <= j < n
      ensures HeaderAt(hs', bs', j)
    {
      assert HeaderAt(hs, bs, j);
      if j < n - 1 {
        ChainOrdered(bs, used, j, n - 1);
      }
    }
    forall j | 0 <= j < n - 1
      ensures Follows(bs', j)
    {
      assert bs'[j] == bs[j] && Follows(bs, j);
    }
    ThreadedFrame(hs, hs', fl, head);
  }

  /** In a consistent chain, a block's `next` is NULL exactly when it is last. */
  lemma NextNilIffLast(hs: map<nat, Header>, bs: seq<Block>, last: Link, j: nat)
    requires Linked(hs, bs, last) && j < |bs|
    ensures bs[j].off in hs
    ensures hs[bs[j].off].next == Nil <==> j + 1 == |bs|
    ensures 0 < j ==> hs[bs[j].off].prev == Hdr(bs[j - 1].off)
    ensures j == 0 ==> hs[bs[j].off].prev == Nil
  {
    assert HeaderAt(hs, bs, j);
  }

  /** Free-list entries are headers of chain blocks, so they lie below `used`. */
  lemma ListedBelowUsed(st: HeapState)
    requires Inv(st)
    ensures forall k :: 0 <= k < |st.free| ==> st.free[k] < st.used
  {
    forall k | 0 <= k < |st.free|
      ensures st.free[k] < st.used
    {
      EndWithin(st.blocks, st.used, IndexOf(st.blocks, st.free[k]));
    }
  }
}
