/** The arena's layout: header size, split threshold, capacity, and the
 *  blocks the chain is made of. */
module Layout {

  /** sizeof(Metadata) on an LP64 target: size_t, int (padded), three pointers. */
  const H: nat := 40
  /** A split is made only when the remainder can hold a header and this many bytes. */
  const MIN_REMAINDER: nat := 8
  /** The fixed capacity ceiling, MAX_HEAP_SIZE (128 MiB). */
  const MAX_HEAP_SIZE: nat := 128 * 1024 * 1024

  datatype Option<+T> = None | Some(value: T)

  /** One carved block: header offset, payload size, and the header's `used` flag. */
  datatype Block = Block(off: nat, size: nat, inUse: bool)

  /** First offset past the block's payload: where the chain's next block starts. */
  function End(b: Block): nat
  {
    b.off + H + b.size
  }

  /** The payload address of a block, relative to the arena base. */
  function Payload(b: Block): nat
  {
    b.off + H
  }

  /** Block j + 1 starts where block j ends. */
  ghost predicate Follows(bs: seq<Block>, j: nat)
    requires j + 1 < |bs|
  {
    bs[j + 1].off == End(bs[j])
  }
}
