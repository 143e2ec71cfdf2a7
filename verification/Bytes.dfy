/** Bytes, as the C sources see memory. */
module Bytes {
  type byte = x: int | 0 <= x < 256

  /** A slice of a slice. */
  lemma SliceOf(d: seq<byte>, base: nat, size: nat, x: nat, w: nat)
    requires base + size <= |d| && x + w <= size
    ensures d[base..base + size][x..x + w] == d[base + x..base + x + w]
  {
    var p, q := d[base..base + size][x..x + w], d[base + x..base + x + w];
    forall k | 0 <= k < w
      ensures p[k] == q[k]
    {
      assert p[k] == d[base..base + size][x + k] == d[base + (x + k)];
    }
  }
}
