/**
 * The 5-point Laplacian over a padded row-major buffer: every interior cell is
 * replaced by `top + left - 4 * center + right + bottom`, computed in wrapping
 * `i32` arithmetic. The output drops the one-cell border on each side.
 */
module Laplacian {
  import opened Grid

  /** The stencil itself, on unbounded integers. */
  function Stencil(top: int, left: int, center: int, right: int, bottom: int): int
  {
    top + left - 4 * center + right + bottom
  }

  /**
   * What the stencil loop needs from its input: when the output is non-empty,
   * the last cell read, (paddedRows - 1, paddedCols - 2), lies in the buffer.
   */
  predicate Readable(len: nat, paddedRows: nat, paddedCols: nat)
  {
    paddedRows > 2 && paddedCols > 2 ==> paddedRows * paddedCols - 2 < len
  }

  /** The five cells around interior cell (i + 1, j + 1) lie inside a buffer of `len` cells. */
  lemma NeighbourhoodInBounds(len: nat, paddedRows: nat, paddedCols: nat, i: nat, j: nat)
    requires Readable(len, paddedRows, paddedCols)
    requires i + 2 < paddedRows && j + 2 < paddedCols
    ensures Index(i, j + 1, paddedCols) < Index(i + 1, j, paddedCols) < Index(i + 1, j + 1, paddedCols)
    ensures Index(i + 1, j + 1, paddedCols) < Index(i + 1, j + 2, paddedCols) < Index(i + 2, j + 1, paddedCols) < len
  {
    MulLeftMonotone(i + 3, paddedRows, paddedCols);
  }

  /** The unwrapped stencil at output cell (i, j), whose centre is padded cell (i + 1, j + 1). */
  function StencilAt(p: seq<i32>, paddedRows: nat, paddedCols: nat, i: nat, j: nat): int
    requires Readable(|p|, paddedRows, paddedCols)
    requires i + 2 < paddedRows && j + 2 < paddedCols
  {
    NeighbourhoodInBounds(|p|, paddedRows, paddedCols, i, j);
    Stencil(
      p[Index(i, j + 1, paddedCols)] as int,
      p[Index(i + 1, j, paddedCols)] as int,
      p[Index(i + 1, j + 1, paddedCols)] as int,
      p[Index(i + 1, j + 2, paddedCols)] as int,
      p[Index(i + 2, j + 1, paddedCols)] as int)
  }

  /** Output cell k as the `i32` arithmetic leaves it. */
  function LaplacianAt(p: seq<i32>, paddedRows: nat, paddedCols: nat, k: nat): i32
    requires Readable(|p|, paddedRows, paddedCols)
    requires k < SaturatingSub(paddedRows, 2) * SaturatingSub(paddedCols, 2)
  {
    var rows, cols := SaturatingSub(paddedRows, 2), SaturatingSub(paddedCols, 2);
    DivModInGrid(k, rows, cols);
    WrapI32(StencilAt(p, paddedRows, paddedCols, k / cols, k % cols))
  }

  /** With every input in 0..255 the stencil lies in -1020..1020, so the `i32` arithmetic does not wrap. */
  lemma StencilBounds(top: int, left: int, center: int, right: int, bottom: int)
    requires 0 <= top <= 255 && 0 <= left <= 255 && 0 <= center <= 255
    requires 0 <= right <= 255 && 0 <= bottom <= 255
    ensures -1020 <= Stencil(top, left, center, right, bottom) <= 1020
    ensures WrapI32(Stencil(top, left, center, right, bottom)) as int == Stencil(top, left, center, right, bottom)
  {
  }

  ghost predicate IsFilledUpTo(out: seq<i32>, p: seq<i32>, paddedRows: nat, paddedCols: nat, n: nat)
    requires Readable(|p|, paddedRows, paddedCols)
  {
    && |out| == SaturatingSub(paddedRows, 2) * SaturatingSub(paddedCols, 2)
    && forall k :: 0 <= k < |out| ==> out[k] == if k < n then LaplacianAt(p, paddedRows, paddedCols, k) else 0
  }

  /** Writing output cell (i, j) extends the filled prefix by one cell. */
  lemma FillStep(out: seq<i32>, p: seq<i32>, paddedRows: nat, paddedCols: nat, i: nat, j: nat)
    requires Readable(|p|, paddedRows, paddedCols)
    requires i + 2 < paddedRows && j + 2 < paddedCols
    requires IsFilledUpTo(out, p, paddedRows, paddedCols, Index(i, j, paddedCols - 2))
    ensures Index(i, j, paddedCols - 2) < |out|
    ensures IsFilledUpTo(out[Index(i, j, paddedCols - 2) := WrapI32(StencilAt(p, paddedRows, paddedCols, i, j))],
                         p, paddedRows, paddedCols, Index(i, j, paddedCols - 2) + 1)
  {
    var cols := paddedCols - 2;
    IndexInBounds(i, j, paddedRows - 2, cols);
    IndexDivMod(i, j, cols);
  }

  /** Reads the five neighbours of interior cell (i + 1, j + 1) and sums them in `i32` arithmetic. */
  method StencilCell(padded: array<i32>, paddedRows: nat, paddedCols: nat, i: nat, j: nat) returns (v: i32)
    requires Readable(padded.Length, paddedRows, paddedCols)
    requires i + 2 < paddedRows && j + 2 < paddedCols
    ensures v == WrapI32(StencilAt(padded[..], paddedRows, paddedCols, i, j))
  {
    NeighbourhoodInBounds(padded.Length, paddedRows, paddedCols, i, j);
    var top := padded[i * paddedCols + (j + 1)];
    var left := padded[(i + 1) * paddedCols + j];
    var center := padded[(i + 1) * paddedCols + (j + 1)];
    var right := padded[(i + 1) * paddedCols + (j + 2)];
    var bottom := padded[(i + 2) * paddedCols + (j + 1)];
    v := WrapI32(Stencil(top as int, left as int, center as int, right as int, bottom as int));
  }

  /** The inner loop: fills output row i, one cell at a time. */
  method FillRow(out: array<i32>, padded: array<i32>, paddedRows: nat, paddedCols: nat, i: nat)
    requires out != padded && Readable(padded.Length, paddedRows, paddedCols)
    requires i + 2 < paddedRows
    requires IsFilledUpTo(out[..], padded[..], paddedRows, paddedCols, Index(i, 0, SaturatingSub(paddedCols, 2)))
    modifies out
    ensures IsFilledUpTo(out[..], padded[..], paddedRows, paddedCols, Index(i + 1, 0, SaturatingSub(paddedCols, 2)))
  {
    var cols := SaturatingSub(paddedCols, 2);
    for j := 0 to cols
      invariant IsFilledUpTo(out[..], padded[..], paddedRows, paddedCols, Index(i, j, cols))
    {
      ghost var before := out[..];
      FillStep(before, padded[..], paddedRows, paddedCols, i, j);
      var v := StencilCell(padded, paddedRows, paddedCols, i, j);
      out[i * cols + j] := v;
      assert out[..] == before[Index(i, j, cols) := v];
    }
    assert Index(i, cols, cols) == Index(i + 1, 0, cols);
  }

  /**
   * Applies the stencil to every interior cell of a `paddedRows` x
   * `paddedCols` buffer. The output has two rows and two columns fewer
   * (none when the input is too small) and holds, row-major, the wrapped
   * stencil of each interior cell.
   */
  method ApplyLaplacian(padded: array<i32>, paddedRows: nat, paddedCols: nat)
    returns (out: array<i32>, rows: nat, cols: nat)
    requires Readable(padded.Length, paddedRows, paddedCols)
    ensures fresh(out)
    ensures rows == SaturatingSub(paddedRows, 2) && cols == SaturatingSub(paddedCols, 2)
    ensures out.Length == rows * cols
    ensures forall k :: 0 <= k < out.Length ==> out[k] == LaplacianAt(padded[..], paddedRows, paddedCols, k)
  {
    rows := SaturatingSub(paddedRows, 2);
    cols := SaturatingSub(paddedCols, 2);
    out := new i32[rows * cols](_ => 0);

    for i := 0 to rows
      invariant IsFilledUpTo(out[..], padded[..], paddedRows, paddedCols, Index(i, 0, cols))
    {
      FillRow(out, padded, paddedRows, paddedCols, i);
    }
    assert Index(rows, 0, cols) == out.Length;
  }
}
