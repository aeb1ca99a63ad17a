/**
 * The integer part of the blur score: the grayscale face crop is padded for the
 * face direction and the padded buffer goes straight into the Laplacian. The
 * variance of the result (floating point) is not part of this model.
 */
module Blur {
  import opened Grid
  import opened Direction
  import opened Padding
  import opened Laplacian

  /** With 8-bit input, the stencil at any output cell lies in -1020..1020, so the `i32` sum cannot wrap. */
  lemma ResponseDoesNotWrap(p: seq<i32>, paddedRows: nat, paddedCols: nat, i: nat, j: nat)
    requires Readable(|p|, paddedRows, paddedCols) && IsGray8(p)
    requires i + 2 < paddedRows && j + 2 < paddedCols
    ensures -1020 <= StencilAt(p, paddedRows, paddedCols, i, j) <= 1020
    ensures WrapI32(StencilAt(p, paddedRows, paddedCols, i, j)) as int == StencilAt(p, paddedRows, paddedCols, i, j)
  {
    NeighbourhoodInBounds(|p|, paddedRows, paddedCols, i, j);
    StencilBounds(
      p[Index(i, j + 1, paddedCols)] as int,
      p[Index(i + 1, j, paddedCols)] as int,
      p[Index(i + 1, j + 1, paddedCols)] as int,
      p[Index(i + 1, j + 2, paddedCols)] as int,
      p[Index(i + 2, j + 1, paddedCols)] as int);
  }

  /** The same, addressed by flat output index. */
  lemma CellDoesNotWrap(p: seq<i32>, paddedRows: nat, paddedCols: nat, k: nat)
    requires Readable(|p|, paddedRows, paddedCols) && IsGray8(p)
    requires k < SaturatingSub(paddedRows, 2) * SaturatingSub(paddedCols, 2)
    ensures -1020 <= LaplacianAt(p, paddedRows, paddedCols, k) <= 1020
  {
    var cols := SaturatingSub(paddedCols, 2);
    DivModInGrid(k, SaturatingSub(paddedRows, 2), cols);
    ResponseDoesNotWrap(p, paddedRows, paddedCols, k / cols, k % cols);
  }

  /** Cell k of the composed response: the Laplacian of the padded crop. */
  function ResponseAt(g: PadInput, k: nat): i32
    requires ValidInput(g) && k < g.rows * CopyCols(g.cols)
  {
    LaplacianAt(PaddedImage(g), g.rows + 2, PaddedCols(g.cols), k)
  }

  /**
   * The first steps of the blur score for a `grayRows` x `grayCols` crop of
   * 8-bit gray values: pad for the face direction, then apply the Laplacian.
   * The response has the crop's rows and 56 columns fewer; every value is the
   * stencil of the padded crop as `i32` arithmetic leaves it, and lies in
   * -1020..1020, where that arithmetic does not wrap (ResponseDoesNotWrap).
   */
  method BlurResponse(gray: array<i32>, grayRows: nat, grayCols: nat, direction: FaceDirection)
    returns (response: array<i32>, rows: nat, cols: nat)
    requires ValidInput(PadInput(gray[..], grayRows, grayCols, direction))
    requires IsGray8(gray[..])
    ensures fresh(response)
    ensures rows == grayRows && cols == grayCols - RemoveSideColumns
    ensures response.Length == rows * cols
    ensures forall k :: 0 <= k < response.Length ==>
              response[k] == ResponseAt(PadInput(gray[..], grayRows, grayCols, direction), k)
    ensures forall k :: 0 <= k < response.Length ==> -1020 <= response[k] <= 1020
  {
    ghost var g := PadInput(gray[..], grayRows, grayCols, direction);
    var padded, paddedRows, paddedCols := PadForDirection(gray, grayRows, grayCols, direction);
    response, rows, cols := ApplyLaplacian(padded, paddedRows, paddedCols);
    PaddingKeepsGray8(g);
    forall k | 0 <= k < response.Length
      ensures -1020 <= response[k] <= 1020
    {
      CellDoesNotWrap(padded[..], paddedRows, paddedCols, k);
    }
  }

  /** An aligned 112 x 112 crop meets the padding's demands and yields a 112 x 56 response from a 114 x 58 padded buffer. */
  lemma FaceCropShape(image: seq<i32>, d: FaceDirection)
    requires |image| == FaceSize * FaceSize
    ensures ValidInput(PadInput(image, FaceSize, FaceSize, d))
    ensures PaddedCols(FaceSize) == 58 && CopyCols(FaceSize) == 56
    ensures SaturatingSub(FaceSize + 2, 2) == 112 && SaturatingSub(PaddedCols(FaceSize), 2) == 56
  {
  }

  /**
   * A flat crop has no edges: when at least two rows and two columns are kept,
   * every response value is zero.
   */
  lemma FlatImageHasZeroResponse(g: PadInput, v: i32)
    requires ValidInput(g) && g.rows >= 2 && CopyCols(g.cols) >= 2
    requires forall k :: 0 <= k < |g.image| ==> g.image[k] == v
    ensures forall k :: 0 <= k < g.rows * CopyCols(g.cols) ==> ResponseAt(g, k) == 0
  {
    var p := PaddedImage(g);
    var pc := PaddedCols(g.cols);
    PaddingKeepsFlat(g, v);
    forall k | 0 <= k < g.rows * CopyCols(g.cols)
      ensures ResponseAt(g, k) == 0
    {
      var cols := CopyCols(g.cols);
      DivModInGrid(k, g.rows, cols);
      NeighbourhoodInBounds(|p|, g.rows + 2, pc, k / cols, k % cols);
    }
  }

  /**
   * With a single row the top and bottom borders stay zero, so even a flat
   * crop of value v has the stencil -2 v at output cell (0, j) wherever the
   * left and right neighbours are image pixels. The stored response is that
   * stencil wrapped to `i32`, which is -2 v itself whenever it fits, as it
   * does for 8-bit input.
   */
  lemma SingleRowFlatImageResponds(g: PadInput, v: i32, j: nat)
    requires ValidInput(g) && g.rows == 1
    requires forall k :: 0 <= k < |g.image| ==> g.image[k] == v
    requires 1 <= j && j + 2 <= CopyCols(g.cols)
    ensures StencilAt(PaddedImage(g), 3, PaddedCols(g.cols), 0, j) == -2 * v as int
    ensures ResponseAt(g, j) == WrapI32(-2 * v as int)
    ensures -0x4000_0000 < v as int < 0x4000_0000 ==> ResponseAt(g, j) as int == -2 * v as int
  {
    var pc := PaddedCols(g.cols);
    var p := PaddedImage(g);
    NeighbourhoodInBounds(|p|, 3, pc, 0, j);
    IndexDivMod(0, j + 1, pc);
    IndexDivMod(1, j, pc);
    IndexDivMod(1, j + 1, pc);
    IndexDivMod(1, j + 2, pc);
    IndexDivMod(2, j + 1, pc);
    InteriorCopiesWindow(g, 0, j - 1);
    InteriorCopiesWindow(g, 0, j);
    InteriorCopiesWindow(g, 0, j + 1);
    SingleRowBordersAreZero(g, j + 1);
    IndexDivMod(0, j, CopyCols(g.cols));
  }
}
