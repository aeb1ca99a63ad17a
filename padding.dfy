/**
 * Direction-aware reflect padding of a row-major grayscale buffer, the first
 * step of the blur score: 56 columns are cut from the sides (which ones depends
 * on where the face looks), and a one-pixel border is added around the rest by
 * mirroring without repeating the edge pixel.
 */
module Padding {
  import opened Grid
  import opened Direction

  /** Side length of an aligned face crop. */
  const FaceSize: nat := 112

  /** Number of columns the blur score ignores. */
  const RemoveSideColumns: nat := 56

  datatype Option<T> = None | Some(value: T)

  /** A grayscale buffer, its dimensions and the face direction that chooses the kept columns. */
  datatype PadInput = PadInput(image: seq<i32>, rows: nat, cols: nat, dir: FaceDirection)

  /**
   * What the padding code needs in order not to panic: a non-empty image at
   * least 57 columns wide (so that the padded row has three cells) whose buffer
   * holds every pixel.
   */
  predicate ValidInput(g: PadInput)
  {
    g.rows >= 1 && g.cols > RemoveSideColumns && |g.image| >= g.rows * g.cols
  }

  function PaddedCols(cols: nat): nat
    requires cols > RemoveSideColumns
  {
    cols + 2 - RemoveSideColumns
  }

  /** Columns of the image that survive the cut. */
  function CopyCols(cols: nat): nat
    requires cols > RemoveSideColumns
  {
    cols - RemoveSideColumns
  }

  function PaddedSize(g: PadInput): nat
    requires ValidInput(g)
  {
    (g.rows + 2) * PaddedCols(g.cols)
  }

  /** First image column kept: the 56 dropped columns are all on the left, all on the right, or half on each side. */
  function StartCol(d: FaceDirection): (s: nat)
    ensures s <= RemoveSideColumns
    ensures d == Left <==> s == RemoveSideColumns
    ensures d == Right <==> s == 0
    ensures d == Straight <==> s == RemoveSideColumns - s
  {
    match d
    case Straight => RemoveSideColumns / 2
    case Left => RemoveSideColumns
    case Right => 0
  }

  /** Pixel (sr, sc) of the kept window, sc counted from the window's first column. */
  function WindowPixel(g: PadInput, sr: nat, sc: nat): i32
    requires ValidInput(g) && sr < g.rows && sc < CopyCols(g.cols)
  {
    IndexInBounds(sr, sc + StartCol(g.dir), g.rows, g.cols);
    g.image[Index(sr, sc + StartCol(g.dir), g.cols)]
  }

  /**
   * OpenCV's BORDER_REFLECT_101 for the positions next to a line of n cells:
   * the line is mirrored about its edge cell, which is not repeated.
   */
  function Reflect101(x: int, n: nat): (m: int)
    requires -1 <= x <= n && n >= 2
    ensures 0 <= m < n
    ensures 0 <= x < n ==> m == x
    ensures x < 0 ==> m + x == 0
    ensures x >= n ==> m + x == 2 * (n - 1)
  {
    if x < 0 then -x else if x >= n then 2 * n - 2 - x else x
  }

  /**
   * The position in a line of n copied cells whose value the code leaves at
   * position x, for x from -1 to n. For a line of one cell, the borders are
   * copied from cells still holding their initial zero: None.
   */
  function BorderSource(x: int, n: nat): (m: Option<nat>)
    requires -1 <= x <= n && n >= 1
    ensures m.Some? ==> m.value < n
    ensures 0 <= x < n ==> m == Some(x)
    ensures m.None? <==> n == 1 && x != 0
  {
    if n >= 2 then Some(Reflect101(x, n)) else if x == 0 then Some(0) else None
  }

  /** The value the padding leaves at padded cell (r, c). */
  function PaddedPixel(g: PadInput, r: nat, c: nat): i32
    requires ValidInput(g) && r < g.rows + 2 && c < PaddedCols(g.cols)
  {
    match (BorderSource(r - 1, g.rows), BorderSource(c - 1, CopyCols(g.cols)))
    case (Some(sr), Some(sc)) => WindowPixel(g, sr, sc)
    case _ => 0
  }

  /** The same value addressed by flat index. */
  function PaddedAt(g: PadInput, k: nat): i32
    requires ValidInput(g) && k < PaddedSize(g)
  {
    DivModInGrid(k, g.rows + 2, PaddedCols(g.cols));
    PaddedPixel(g, k / PaddedCols(g.cols), k % PaddedCols(g.cols))
  }

  /** The whole padded buffer, row-major. */
  function PaddedImage(g: PadInput): seq<i32>
    requires ValidInput(g)
  {
    seq(PaddedSize(g), k requires 0 <= k < PaddedSize(g) => PaddedAt(g, k))
  }

  // ---------------------------------------------------------------------------
  // What the padded buffer holds

  /** Interior cell (i + 1, j + 1) holds image pixel (i, j + StartCol), and that pixel lies inside the image. */
  lemma InteriorCopiesWindow(g: PadInput, i: nat, j: nat)
    requires ValidInput(g) && i < g.rows && j < CopyCols(g.cols)
    ensures j + StartCol(g.dir) < g.cols
    ensures Index(i, j + StartCol(g.dir), g.cols) < |g.image|
    ensures PaddedPixel(g, i + 1, j + 1) == g.image[Index(i, j + StartCol(g.dir), g.cols)]
  {
    IndexInBounds(i, j + StartCol(g.dir), g.rows, g.cols);
  }

  /** Above and below the copied columns, border row 0 repeats padded row 2 and border row rows + 1 repeats padded row rows - 1. */
  lemma RowBordersMirror(g: PadInput, c: nat)
    requires ValidInput(g) && 1 <= c <= CopyCols(g.cols)
    ensures PaddedPixel(g, 0, c) == PaddedPixel(g, 2, c)
    ensures PaddedPixel(g, g.rows + 1, c) == PaddedPixel(g, g.rows - 1, c)
  {
  }

  /** In every padded row, corners included, column 0 repeats column 2 and the last column repeats the third-last. */
  lemma ColumnBordersMirror(g: PadInput, r: nat)
    requires ValidInput(g) && r < g.rows + 2
    ensures PaddedPixel(g, r, 0) == PaddedPixel(g, r, 2)
    ensures PaddedPixel(g, r, PaddedCols(g.cols) - 1) == PaddedPixel(g, r, PaddedCols(g.cols) - 3)
  {
  }

  /**
   * When at least two rows and two columns are kept, the padding is OpenCV's
   * BORDER_REFLECT_101 of the kept window, on both axes at once.
   */
  lemma PaddingIsReflect101(g: PadInput, r: nat, c: nat)
    requires ValidInput(g) && g.rows >= 2 && CopyCols(g.cols) >= 2
    requires r < g.rows + 2 && c < PaddedCols(g.cols)
    ensures PaddedPixel(g, r, c) == WindowPixel(g, Reflect101(r - 1, g.rows), Reflect101(c - 1, CopyCols(g.cols)))
  {
  }

  /** A single-row image gets all-zero top and bottom borders: they are copied from each other before either is written. */
  lemma SingleRowBordersAreZero(g: PadInput, c: nat)
    requires ValidInput(g) && g.rows == 1 && c < PaddedCols(g.cols)
    ensures PaddedPixel(g, 0, c) == 0 && PaddedPixel(g, 2, c) == 0
  {
  }

  /** Likewise, a single kept column gets all-zero left and right borders. */
  lemma SingleColumnBordersAreZero(g: PadInput, r: nat)
    requires ValidInput(g) && CopyCols(g.cols) == 1 && r < g.rows + 2
    ensures PaddedPixel(g, r, 0) == 0 && PaddedPixel(g, r, 2) == 0
  {
  }

  /** The buffer holds 8-bit grayscale values: every pixel lies in 0..255. */
  predicate IsGray8(s: seq<i32>)
  {
    forall k :: 0 <= k < |s| ==> 0 <= s[k] <= 255
  }

  lemma PixelGray8(g: PadInput, r: nat, c: nat)
    requires ValidInput(g) && IsGray8(g.image)
    requires r < g.rows + 2 && c < PaddedCols(g.cols)
    ensures 0 <= PaddedPixel(g, r, c) <= 255
  {
    match (BorderSource(r - 1, g.rows), BorderSource(c - 1, CopyCols(g.cols)))
    case (Some(sr), Some(sc)) =>
      IndexInBounds(sr, sc + StartCol(g.dir), g.rows, g.cols);
    case _ =>
  }

  /** Padding creates no new values: 8-bit input gives 8-bit output. */
  lemma PaddingKeepsGray8(g: PadInput)
    requires ValidInput(g) && IsGray8(g.image)
    ensures IsGray8(PaddedImage(g))
  {
    var p := PaddedImage(g);
    forall k | 0 <= k < |p|
      ensures 0 <= p[k] <= 255
    {
      DivModInGrid(k, g.rows + 2, PaddedCols(g.cols));
      PixelGray8(g, k / PaddedCols(g.cols), k % PaddedCols(g.cols));
    }
  }

  /** With at least two rows and columns kept, a flat image pads to a flat buffer. */
  lemma PaddingKeepsFlat(g: PadInput, v: i32)
    requires ValidInput(g) && g.rows >= 2 && CopyCols(g.cols) >= 2
    requires forall k :: 0 <= k < |g.image| ==> g.image[k] == v
    ensures forall k :: 0 <= k < |PaddedImage(g)| ==> PaddedImage(g)[k] == v
  {
    var p := PaddedImage(g);
    forall k | 0 <= k < |p|
      ensures p[k] == v
    {
      var pc := PaddedCols(g.cols);
      DivModInGrid(k, g.rows + 2, pc);
      var sr, sc := Reflect101(k / pc - 1, g.rows), Reflect101(k % pc - 1, CopyCols(g.cols));
      PaddingIsReflect101(g, k / pc, k % pc);
      IndexInBounds(sr, sc + StartCol(g.dir), g.rows, g.cols);
    }
  }

  // ---------------------------------------------------------------------------
  // Intermediate states of the padding loops

  /** Padded cell (r, c) after image rows 0..i-1 and the first j pixels of row i have been copied. */
  ghost function CopyCell(g: PadInput, i: nat, j: nat, r: nat, c: nat): i32
    requires ValidInput(g) && r < g.rows + 2
    requires i <= g.rows && j <= CopyCols(g.cols) && (j > 0 ==> i < g.rows)
  {
    if 1 <= r && 1 <= c <= CopyCols(g.cols) && (r <= i || (r == i + 1 && c <= j))
    then WindowPixel(g, r - 1, c - 1)
    else 0
  }

  /** The same state addressed by flat index. */
  ghost function CopyStage(g: PadInput, i: nat, j: nat, k: nat): i32
    requires ValidInput(g) && k < PaddedSize(g)
    requires i <= g.rows && j <= CopyCols(g.cols) && (j > 0 ==> i < g.rows)
  {
    var pc := PaddedCols(g.cols);
    DivModInGrid(k, g.rows + 2, pc);
    CopyCell(g, i, j, k / pc, k % pc)
  }

  /** Padded cell (r, c) once the top and bottom borders are complete. */
  ghost function RowMirrored(g: PadInput, r: nat, c: nat): i32
    requires ValidInput(g) && r < g.rows + 2 && c < PaddedCols(g.cols)
  {
    if 1 <= c <= CopyCols(g.cols) then
      match BorderSource(r - 1, g.rows)
      case Some(sr) => WindowPixel(g, sr, c - 1)
      case None => 0
    else 0
  }

  /** Padded cell (r, c) after the top and bottom borders of the first col copied columns have been written. */
  ghost function RowCell(g: PadInput, col: nat, r: nat, c: nat): i32
    requires ValidInput(g) && r < g.rows + 2 && c < PaddedCols(g.cols)
  {
    if (r == 0 || r == g.rows + 1) && c > col then 0 else RowMirrored(g, r, c)
  }

  /** The same state addressed by flat index. */
  ghost function RowStage(g: PadInput, col: nat, k: nat): i32
    requires ValidInput(g) && k < PaddedSize(g)
  {
    var pc := PaddedCols(g.cols);
    DivModInGrid(k, g.rows + 2, pc);
    RowCell(g, col, k / pc, k % pc)
  }

  /** After the left and right borders of padded rows 0..row-1 have been written. */
  ghost function ColumnStage(g: PadInput, row: nat, k: nat): i32
    requires ValidInput(g) && k < PaddedSize(g)
  {
    var pc := PaddedCols(g.cols);
    DivModInGrid(k, g.rows + 2, pc);
    var r, c := k / pc, k % pc;
    if r < row then PaddedPixel(g, r, c) else RowMirrored(g, r, c)
  }

  ghost predicate IsCopyStage(s: seq<i32>, g: PadInput, i: nat, j: nat)
    requires ValidInput(g)
    requires i <= g.rows && j <= CopyCols(g.cols) && (j > 0 ==> i < g.rows)
  {
    |s| == PaddedSize(g) && forall k :: 0 <= k < |s| ==> s[k] == CopyStage(g, i, j, k)
  }

  ghost predicate IsRowStage(s: seq<i32>, g: PadInput, col: nat)
    requires ValidInput(g)
  {
    |s| == PaddedSize(g) && forall k :: 0 <= k < |s| ==> s[k] == RowStage(g, col, k)
  }

  ghost predicate IsColumnStage(s: seq<i32>, g: PadInput, row: nat)
    requires ValidInput(g)
  {
    |s| == PaddedSize(g) && forall k :: 0 <= k < |s| ==> s[k] == ColumnStage(g, row, k)
  }

  lemma ZerosAreCopyStart(g: PadInput, s: seq<i32>)
    requires ValidInput(g) && |s| == PaddedSize(g)
    requires forall k :: 0 <= k < |s| ==> s[k] == 0
    ensures IsCopyStage(s, g, 0, 0)
  {
  }

  /** Writing image pixel (i, j) of the window to padded cell (i + 1, j + 1). */
  lemma CopyStep(g: PadInput, i: nat, j: nat, s: seq<i32>)
    requires ValidInput(g) && i < g.rows && j < CopyCols(g.cols)
    requires IsCopyStage(s, g, i, j)
    ensures Index(i + 1, j + 1, PaddedCols(g.cols)) < |s|
    ensures IsCopyStage(s[Index(i + 1, j + 1, PaddedCols(g.cols)) := WindowPixel(g, i, j)], g, i, j + 1)
  {
    var pc := PaddedCols(g.cols);
    IndexInBounds(i + 1, j + 1, g.rows + 2, pc);
    IndexDivMod(i + 1, j + 1, pc);
    var t := s[Index(i + 1, j + 1, pc) := WindowPixel(g, i, j)];
    forall k | 0 <= k < |t|
      ensures t[k] == CopyStage(g, i, j + 1, k)
    {
      DivModInGrid(k, g.rows + 2, pc);
    }
  }

  lemma CopyRowDone(g: PadInput, i: nat, s: seq<i32>)
    requires ValidInput(g) && i < g.rows
    requires IsCopyStage(s, g, i, CopyCols(g.cols))
    ensures IsCopyStage(s, g, i + 1, 0)
  {
  }

  /** Once every image row is copied, each cell holds what the row-border loop starts from. */
  lemma CopyDoneCell(g: PadInput, r: nat, c: nat)
    requires ValidInput(g) && r < g.rows + 2 && c < PaddedCols(g.cols)
    ensures CopyCell(g, g.rows, 0, r, c) == RowCell(g, 0, r, c)
  {
    if 1 <= r <= g.rows {
      assert BorderSource(r - 1, g.rows) == Some(r - 1);
    }
  }

  lemma CopyDoneIsRowStart(g: PadInput, s: seq<i32>)
    requires ValidInput(g) && IsCopyStage(s, g, g.rows, 0)
    ensures IsRowStage(s, g, 0)
  {
    var pc := PaddedCols(g.cols);
    forall k | 0 <= k < |s|
      ensures s[k] == RowStage(g, 0, k)
    {
      DivModInGrid(k, g.rows + 2, pc);
      CopyDoneCell(g, k / pc, k % pc);
    }
  }

  /** Writing the top and bottom border cells above and below copied column col. */
  lemma RowStep(g: PadInput, col: nat, s: seq<i32>)
    requires ValidInput(g) && col < CopyCols(g.cols)
    requires IsRowStage(s, g, col)
    ensures Index(2, 1 + col, PaddedCols(g.cols)) < |s| && Index(g.rows + 1, 1 + col, PaddedCols(g.cols)) < |s|
    ensures
      var pc := PaddedCols(g.cols);
      var s1 := s[Index(0, 1 + col, pc) := s[Index(2, 1 + col, pc)]];
      var s2 := s1[Index(g.rows + 1, 1 + col, pc) := s1[Index(g.rows - 1, 1 + col, pc)]];
      IsRowStage(s2, g, col + 1)
  {
    var pc := PaddedCols(g.cols);
    IndexInBounds(2, 1 + col, g.rows + 2, pc);
    IndexInBounds(g.rows + 1, 1 + col, g.rows + 2, pc);
    IndexDivMod(0, 1 + col, pc);
    IndexDivMod(2, 1 + col, pc);
    IndexDivMod(g.rows + 1, 1 + col, pc);
    IndexDivMod(g.rows - 1, 1 + col, pc);
    var s1 := s[Index(0, 1 + col, pc) := s[Index(2, 1 + col, pc)]];
    var s2 := s1[Index(g.rows + 1, 1 + col, pc) := s1[Index(g.rows - 1, 1 + col, pc)]];
    forall k | 0 <= k < |s2|
      ensures s2[k] == RowStage(g, col + 1, k)
    {
      DivModInGrid(k, g.rows + 2, pc);
    }
  }

  lemma RowDoneIsColumnStart(g: PadInput, s: seq<i32>)
    requires ValidInput(g) && IsRowStage(s, g, CopyCols(g.cols))
    ensures IsColumnStage(s, g, 0)
  {
    var pc := PaddedCols(g.cols);
    forall k | 0 <= k < |s|
      ensures s[k] == ColumnStage(g, 0, k)
    {
      DivModInGrid(k, g.rows + 2, pc);
      var r, c := k / pc, k % pc;
      assert RowStage(g, CopyCols(g.cols), k) == RowMirrored(g, r, c);
      assert ColumnStage(g, 0, k) == RowMirrored(g, r, c);
    }
  }

  /** Writing the left and right border cells of padded row `row`. */
  lemma ColumnStep(g: PadInput, row: nat, s: seq<i32>)
    requires ValidInput(g) && row < g.rows + 2
    requires IsColumnStage(s, g, row)
    ensures Index(row, PaddedCols(g.cols) - 1, PaddedCols(g.cols)) < |s|
    ensures
      var pc := PaddedCols(g.cols);
      var s1 := s[Index(row, 0, pc) := s[Index(row, 2, pc)]];
      var s2 := s1[Index(row, pc - 1, pc) := s1[Index(row, pc - 3, pc)]];
      IsColumnStage(s2, g, row + 1)
  {
    var pc := PaddedCols(g.cols);
    IndexInBounds(row, pc - 1, g.rows + 2, pc);
    IndexDivMod(row, 0, pc);
    IndexDivMod(row, 2, pc);
    IndexDivMod(row, pc - 1, pc);
    IndexDivMod(row, pc - 3, pc);
    var s1 := s[Index(row, 0, pc) := s[Index(row, 2, pc)]];
    var s2 := s1[Index(row, pc - 1, pc) := s1[Index(row, pc - 3, pc)]];
    forall k | 0 <= k < |s2|
      ensures s2[k] == ColumnStage(g, row + 1, k)
    {
      DivModInGrid(k, g.rows + 2, pc);
    }
  }

  lemma ColumnDoneIsPadded(g: PadInput, s: seq<i32>)
    requires ValidInput(g) && IsColumnStage(s, g, g.rows + 2)
    ensures s == PaddedImage(g)
  {
    forall k | 0 <= k < |s|
      ensures s[k] == PaddedImage(g)[k]
    {
      DivModInGrid(k, g.rows + 2, PaddedCols(g.cols));
    }
  }

  // ---------------------------------------------------------------------------

  /** The copy loop: image window pixel (i, j) goes to padded cell (i + 1, j + 1). */
  method CopyWindow(padded: array<i32>, image: array<i32>, ghost g: PadInput, rows: nat, cols: nat, paddedCols: nat, startCol: nat, copyCols: nat)
    requires ValidInput(g) && g.image == image[..] && padded != image
    requires rows == g.rows && cols == g.cols && paddedCols == PaddedCols(cols)
    requires startCol == StartCol(g.dir) && copyCols == CopyCols(cols)
    requires IsCopyStage(padded[..], g, 0, 0)
    modifies padded
    ensures IsCopyStage(padded[..], g, rows, 0)
  {
    for i := 0 to rows
      invariant IsCopyStage(padded[..], g, i, 0)
    {
      for j := 0 to copyCols
        invariant IsCopyStage(padded[..], g, i, j)
      {
        ghost var before := padded[..];
        CopyStep(g, i, j, before);
        IndexInBounds(i, j + startCol, rows, cols);
        assert image[i * cols + (j + startCol)] == WindowPixel(g, i, j);
        padded[(i + 1) * paddedCols + (j + 1)] := image[i * cols + (j + startCol)];
        assert padded[..] == before[Index(i + 1, j + 1, paddedCols) := WindowPixel(g, i, j)];
      }
      CopyRowDone(g, i, padded[..]);
    }
  }

  /** The top border row mirrors padded row 2, the bottom one padded row rows - 1. */
  method MirrorRowBorders(padded: array<i32>, ghost g: PadInput, rows: nat, paddedCols: nat, copyCols: nat)
    requires ValidInput(g) && rows == g.rows && paddedCols == PaddedCols(g.cols) && copyCols == CopyCols(g.cols)
    requires IsRowStage(padded[..], g, 0)
    modifies padded
    ensures IsRowStage(padded[..], g, copyCols)
  {
    for col := 0 to copyCols
      invariant IsRowStage(padded[..], g, col)
    {
      ghost var before := padded[..];
      RowStep(g, col, before);
      padded[1 + col] := padded[2 * paddedCols + 1 + col];
      ghost var middle := padded[..];
      assert middle == before[Index(0, 1 + col, paddedCols) := before[Index(2, 1 + col, paddedCols)]];
      padded[(rows + 1) * paddedCols + 1 + col] := padded[(rows - 1) * paddedCols + 1 + col];
      assert padded[..] == middle[Index(rows + 1, 1 + col, paddedCols) := middle[Index(rows - 1, 1 + col, paddedCols)]];
    }
  }

  /** In every padded row, column 0 mirrors column 2 and the last column mirrors the third-last. */
  method MirrorColumnBorders(padded: array<i32>, ghost g: PadInput, rows: nat, paddedCols: nat)
    requires ValidInput(g) && rows == g.rows && paddedCols == PaddedCols(g.cols)
    requires IsColumnStage(padded[..], g, 0)
    modifies padded
    ensures IsColumnStage(padded[..], g, rows + 2)
  {
    for row := 0 to rows + 2
      invariant IsColumnStage(padded[..], g, row)
    {
      ghost var before := padded[..];
      ColumnStep(g, row, before);
      var rowStart := row * paddedCols;
      padded[rowStart] := padded[rowStart + 2];
      ghost var middle := padded[..];
      assert middle == before[Index(row, 0, paddedCols) := before[Index(row, 2, paddedCols)]];
      padded[rowStart + paddedCols - 1] := padded[rowStart + paddedCols - 3];
      assert padded[..] == middle[Index(row, paddedCols - 1, paddedCols) := middle[Index(row, paddedCols - 3, paddedCols)]];
    }
  }

  /**
   * Cuts the side columns chosen by `direction` from a `rows` x `cols` buffer
   * and surrounds the rest with a mirrored one-pixel border. Returns the new
   * buffer and its dimensions.
   */
  method PadForDirection(image: array<i32>, rows: nat, cols: nat, direction: FaceDirection)
    returns (padded: array<i32>, paddedRows: nat, paddedCols: nat)
    requires ValidInput(PadInput(image[..], rows, cols, direction))
    ensures fresh(padded)
    ensures paddedRows == rows + 2 && paddedCols == cols + 2 - RemoveSideColumns
    ensures padded.Length == paddedRows * paddedCols
    ensures padded[..] == PaddedImage(PadInput(image[..], rows, cols, direction))
  {
    ghost var g := PadInput(image[..], rows, cols, direction);
    paddedCols := cols + 2 - RemoveSideColumns;
    paddedRows := rows + 2;
    padded := new i32[paddedRows * paddedCols](_ => 0);

    var startCol := StartCol(direction);
    var copyCols := SaturatingSub(paddedCols, 2);

    ZerosAreCopyStart(g, padded[..]);
    CopyWindow(padded, image, g, rows, cols, paddedCols, startCol, copyCols);
    CopyDoneIsRowStart(g, padded[..]);
    if copyCols > 0 {
      MirrorRowBorders(padded, g, rows, paddedCols, copyCols);
    }
    RowDoneIsColumnStart(g, padded[..]);
    MirrorColumnBorders(padded, g, rows, paddedCols);
    ColumnDoneIsPadded(g, padded[..]);
  }
}
