/** The byte that C++ calls `unsigned char`, and arithmetic of addresses laid out in equal blocks. */
module Bytes {
  type byte = x: int | 0 <= x < 256

  /** Equal blocks of `size` bytes do not overlap: an address lies in one of them only. */
  lemma {:induction false} BlocksApart(size: nat, i: nat, j: nat)
    requires i < j
    ensures i * size + size <= j * size
  {
    assert j * size == (j - 1) * size + size;
    if i < j - 1 {
      BlocksApart(size, i, j - 1);
    }
  }

  /** Dividing an offset by the block size recovers the block number. */
  lemma BlockNumber(size: nat, i: nat, k: nat)
    requires k < size
    ensures (i * size + k) / size == i
  {
    var q := (i * size + k) / size;
    if q < i {
      BlocksApart(size, q, i);
    } else if i < q {
      BlocksApart(size, i, q);
    }
  }
}
