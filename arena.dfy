module Arena {
  import opened Layout

  /** The pointer handed to the caller for an abstract payload offset (0 is NULL). */
  function ToPtr(base: nat, r: Option<nat>): nat
  {
    if r.None? then 0 else base + r.value
  }

  /** The abstract payload offset of a caller's pointer; NULL is None. */
  function FromPtr(base: nat, p: nat): Option<nat>
  {
    if p == 0 || p < base then None else Some(p - base)
  }

  /** `after` holds, from `dst`, the `n` bytes that `before` held from `src`. */
  ghost predicate Preserved(before: seq<bv8>, after: seq<bv8>, src: nat, dst: nat, n: nat)
  {
    && src + n <= |before| && dst + n <= |after|
    && after[dst..dst + n] == before[src..src + n]
  }

  /** `after` agrees with `before` everywhere outside [lo, hi). */
  ghost predicate SameOutside(before: seq<bv8>, after: seq<bv8>, lo: nat, hi: nat)
  {
    && |after| == |before|
    && forall a :: 0 <= a < |before| && !(lo <= a < hi) ==> after[a] == before[a]
  }

  /** The arena after memcpy of `n` bytes from `src` to `dst`, byte by
   *  byte from the front; every byte comes from `before`. */
  function CopyResult(before: seq<bv8>, dst: nat, src: nat, n: nat): (after: seq<bv8>)
    requires dst + n <= |before| && src + n <= |before|
    ensures |after| == |before|
    decreases n
  {
    if n == 0 then before
    else CopyResult(before, dst, src, n - 1)[dst + n - 1 := before[src + n - 1]]
  }

  /** Byte `a` after the copy: the source byte for a destination address,
   *  the old byte anywhere else. */
  lemma {:induction false} CopyResultAt(before: seq<bv8>, dst: nat, src: nat, n: nat, a: nat)
    requires dst + n <= |before| && src + n <= |before| && a < |before|
    ensures CopyResult(before, dst, src, n)[a] == if dst <= a < dst + n then before[a - dst + src] else before[a]
    decreases n
  {
    if n > 0 {
      CopyResultAt(before, dst, src, n - 1, a);
    }
  }

  /** memcpy delivers the source bytes at the destination and touches
   *  nothing else. */
  lemma CopyResultSpec(before: seq<bv8>, dst: nat, src: nat, n: nat)
    requires dst + n <= |before| && src + n <= |before|
    ensures Preserved(before, CopyResult(before, dst, src, n), src, dst, n)
    ensures SameOutside(before, CopyResult(before, dst, src, n), dst, dst + n)
  {
    var after := CopyResult(before, dst, src, n);
    forall a | 0 <= a < |before|
      ensures after[a] == if dst <= a < dst + n then before[a - dst + src] else before[a]
    {
      CopyResultAt(before, dst, src, n, a);
    }
    assert after[dst..dst + n] == before[src..src + n];
  }

  /** memcpy of `n` bytes between two non-overlapping ranges of the arena. */
  method MemCopy(mem: array<bv8>, dst: nat, src: nat, n: nat)
    requires dst + n <= mem.Length && src + n <= mem.Length
    requires src + n <= dst || dst + n <= src
    modifies mem
    ensures mem[..] == CopyResult(old(mem[..]), dst, src, n)
  {
    var k := 0;
    while k < n
      invariant k <= n
      invariant mem[..] == CopyResult(old(mem[..]), dst, src, k)
    {
      CopyResultAt(old(mem[..]), dst, src, k, src + k);
      mem[dst + k] := mem[src + k];
      k := k + 1;
    }
  }
}
