/**
 * Row-major pixel buffers: the 32-bit signed pixel type, Rust's saturating
 * subtraction on `usize`, and the arithmetic of flat indices `r * width + c`.
 */
module Grid {

  /** Rust's `i32`. */
  newtype i32 = x: int | -0x8000_0000 <= x < 0x8000_0000

  const TwoTo32: int := 0x1_0000_0000

  /** The value a wrapping `i32` computation yields for the mathematical result `x`. */
  function WrapI32(x: int): (r: i32)
    ensures (r as int - x) % TwoTo32 == 0
    ensures -0x8000_0000 <= x < 0x8000_0000 ==> r as int == x
  {
    ((x + 0x8000_0000) % TwoTo32 - 0x8000_0000) as i32
  }

  /** `usize::saturating_sub`. */
  function SaturatingSub(a: nat, b: nat): (r: nat)
    ensures r + b >= a
    ensures r == 0 || r + b == a
  {
    if a >= b then a - b else 0
  }

  /** Flat position of cell (r, c) in a row-major buffer `width` cells wide. */
  function Index(r: nat, c: nat, width: nat): nat
  {
    r * width + c
  }

  lemma MulLeftMonotone(a: nat, b: nat, w: nat)
    requires a <= b
    ensures a * w <= b * w
  {
  }

  /** A cell inside a `height` x `width` grid has a flat index below `height * width`. */
  lemma IndexInBounds(r: nat, c: nat, height: nat, width: nat)
    requires r < height && c < width
    ensures Index(r, c, width) < height * width
  {
    MulLeftMonotone(r + 1, height, width);
  }

  /** The flat index of (r, c) decodes back to row r and column c. */
  lemma IndexDivMod(r: nat, c: nat, width: nat)
    requires c < width
    ensures Index(r, c, width) / width == r
    ensures Index(r, c, width) % width == c
  {
    var k := Index(r, c, width);
    var q, m := k / width, k % width;
    assert k == q * width + m;
    if q > r {
      MulLeftMonotone(r + 1, q, width);
    } else if q < r {
      MulLeftMonotone(q + 1, r, width);
    }
  }

  /** A flat index below `height * width` decodes to a cell inside the grid. */
  lemma DivModInGrid(k: nat, height: nat, width: nat)
    requires k < height * width
    ensures width > 0 && k / width < height && k % width < width
    ensures k == Index(k / width, k % width, width)
  {
    if width > 0 && k / width >= height {
      MulLeftMonotone(height, k / width, width);
    }
  }
}
