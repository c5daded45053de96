/** Facts about multiplication of naturals that row-major indexing needs. */
module Arithmetic {

  lemma MulMonotone(a: nat, b: nat, c: nat)
    requires a <= b
    ensures a * c <= b * c
  {
    assert b * c == a * c + (b - a) * c;
  }

  lemma MulCancelLess(a: nat, b: nat, c: nat)
    ensures a * c < b * c ==> a < b
  {
    if a >= b {
      MulMonotone(b, a, c);
    }
  }

  /** Row `r` of a `height x width` row-major buffer lies inside it. */
  lemma RowInBounds(height: nat, width: nat, r: nat)
    requires r < height
    ensures r * width + width <= height * width
  {
    MulMonotone(r + 1, height, width);
    assert (r + 1) * width == r * width + width;
  }

  /** Flat index `k` of a `height x width` buffer is row `r`, column `c`. */
  lemma RowMajorIndex(k: nat, height: nat, width: nat) returns (r: nat, c: nat)
    requires k < height * width
    ensures r < height && c < width && k == r * width + c
  {
    r, c := k / width, k % width;
    MulCancelLess(r, height, width);
  }
}
