# Face alignment: blur-score buffers and face direction

This project models the integer core of the face-alignment step of the photos
app's on-device ML pipeline (`mobile/apps/photos/rust/src/ml/face/align.rs`).

For each detected face, the pipeline computes a blur score from the aligned
112 x 112 crop. The crop is converted to 8-bit gray and padded. Padding drops
56 side columns, chosen by the direction the face looks, and adds a one-pixel
border mirrored without repeating the edge pixel. A 5-point Laplacian stencil
then runs over the padded buffer, and the score is the variance of the result.
The direction (Left, Right or Straight) comes from a rule over the five
detector landmarks.

Modules:

- `Grid` (`grid.dfy`) holds Rust's `i32` as a newtype, wrapping `i32` results,
  `usize::saturating_sub`, and flat row-major indices `r * width + c` with
  their bounds and decoding lemmas.
- `Direction` (`direction.dfy`) holds `FaceDirection` and `face_direction` as
  a pure function over `real` coordinates, with lemmas about precedence,
  exclusivity and mirror symmetry.
- `Padding` (`padding.dfy`) holds `pad_image_for_direction` as a method on
  arrays. It is specified by a reference function, `PaddedPixel`, built on
  OpenCV's BORDER_REFLECT_101 rule. The source's three loop phases are three
  methods, each proved against a description of the buffer after that phase.
- `Laplacian` (`laplacian.dfy`) holds `apply_laplacian` as a method on arrays,
  specified cell by cell in wrapping `i32` arithmetic.
- `Blur` (`blur.dfy`) holds the pipe from padding into the Laplacian inside
  `compute_blur_value`, with its output shape, the absence of `i32` overflow
  for 8-bit input, and the response to flat images.

The padding has a degenerate edge case, modelled as the code behaves. With a
single image row, the top and bottom borders are copied from each other before
either is written, so both stay zero. The same happens to the left and right
borders when a single column is kept. In those cases the padding is not a
reflection, and a flat single-row crop of value v answers -2v, which is
non-zero unless v = 0 (`SingleRowFlatImageResponds`). Real crops have 112 rows and keep 56 columns,
so this does not arise (`FaceCropShape`).

## Model

| member | source | states |
|---|---|---|
| `Grid.WrapI32` | mobile/apps/photos/rust/src/ml/face/align.rs:320 | the wrapped result is congruent to the exact one modulo 2^32, and equals it whenever the exact one fits in `i32` |
| `Grid.SaturatingSub` | mobile/apps/photos/rust/src/ml/face/align.rs:310-311 | the result plus the subtrahend reaches the minuend, and the result is either zero or the exact difference |
| `Direction.FaceDirectionOf` | mobile/apps/photos/rust/src/ml/face/align.rs:246-275 | the result is Left exactly when the left cue holds, Right exactly when the right cue holds and the left cue does not, and Straight exactly when neither holds |
| `Direction.SticksOutExclusive` | mobile/apps/photos/rust/src/ml/face/align.rs:260-263 | "nose sticking out left" and "nose sticking out right" never hold together |
| `Direction.NoseNeverCloseToBothEyes` | mobile/apps/photos/rust/src/ml/face/align.rs:265-266 | the nose is never within a fifth of the eye distance of both eyes |
| `Direction.NoseLeftOfAllIsLeft` | mobile/apps/photos/rust/src/ml/face/align.rs:260-269 | a nose strictly left of both eyes and both mouth corners gives Left |
| `Direction.CuesExclusiveWhenEyesOrdered` | mobile/apps/photos/rust/src/ml/face/align.rs:257-266 | when the left eye is not right of the right eye, the left and right cues exclude each other |
| `Direction.NoseRightOfAllIsRight` | mobile/apps/photos/rust/src/ml/face/align.rs:262-271 | with the eyes in order, a nose strictly right of both eyes and both mouth corners gives Right |
| `Direction.MirrorLeftCue` | mobile/apps/photos/rust/src/ml/face/align.rs:257-266 | the mirror image has the left cue exactly when the original has the right cue |
| `Direction.MirrorSwapsCues` | mobile/apps/photos/rust/src/ml/face/align.rs:253-266 | mirroring the landmarks horizontally turns the left cue into the right cue and back |
| `Direction.MirrorSymmetry` | mobile/apps/photos/rust/src/ml/face/align.rs:268-274 | mirroring swaps Left and Right and keeps Straight, if and only if the two cues do not both hold |
| `Direction.LeftWinsWhenBothCuesHold` | mobile/apps/photos/rust/src/ml/face/align.rs:268-271 | some landmarks satisfy both cues, the nose sticks out right, and Left is still the answer |
| `Padding.StartCol` | mobile/apps/photos/rust/src/ml/face/align.rs:336-340 | Left drops all 56 columns on the left, Right drops all 56 on the right, and Straight drops an equal number on each side |
| `Padding.Reflect101` | mobile/apps/photos/rust/src/ml/face/align.rs:349-360 | the mirrored position lies inside the line, is the identity inside, and reflects about the edge cell without repeating it |
| `Padding.BorderSource` | mobile/apps/photos/rust/src/ml/face/align.rs:349-360 | the source cell of a padded position lies inside the copied line, is the identity inside, and is missing exactly when the line has one cell and the position is a border |
| `Padding.InteriorCopiesWindow` | mobile/apps/photos/rust/src/ml/face/align.rs:343-347 | interior cell (i+1, j+1) holds image pixel (i, j + start_col), and that pixel lies inside the image buffer |
| `Padding.RowBordersMirror` | mobile/apps/photos/rust/src/ml/face/align.rs:349-354 | over the copied columns, row 0 equals padded row 2 and row rows+1 equals padded row rows-1 |
| `Padding.ColumnBordersMirror` | mobile/apps/photos/rust/src/ml/face/align.rs:356-360 | in every padded row, corners included, column 0 equals column 2 and the last column equals the third-last |
| `Padding.PaddingIsReflect101` | mobile/apps/photos/rust/src/ml/face/align.rs:343-360 | with at least two rows and two kept columns, every padded cell is the BORDER_REFLECT_101 pixel of the kept window |
| `Padding.SingleRowBordersAreZero` | mobile/apps/photos/rust/src/ml/face/align.rs:349-354 | for a one-row image, the top and bottom border rows are zero |
| `Padding.SingleColumnBordersAreZero` | mobile/apps/photos/rust/src/ml/face/align.rs:356-360 | when one column is kept, the left and right border columns are zero |
| `Padding.PixelGray8` | mobile/apps/photos/rust/src/ml/face/align.rs:343-360 | every padded cell of an 8-bit image lies in 0..255 |
| `Padding.PaddingKeepsGray8` | mobile/apps/photos/rust/src/ml/face/align.rs:343-360 | padding writes only copied pixels or zeros, so an image whose values lie in 0..255 (the clamp at align.rs:297-299) gives a buffer whose values all lie in 0..255 |
| `Padding.PaddingKeepsFlat` | mobile/apps/photos/rust/src/ml/face/align.rs:343-360 | with at least two rows and two kept columns, a constant image pads to a constant buffer of the same value |
| `Padding.CopyWindow` | mobile/apps/photos/rust/src/ml/face/align.rs:343-347 | after the copy loop, the buffer holds the kept window in its interior and zeros elsewhere |
| `Padding.MirrorRowBorders` | mobile/apps/photos/rust/src/ml/face/align.rs:349-354 | after the row-border loop, the top and bottom rows hold their mirrored rows over the copied columns |
| `Padding.MirrorColumnBorders` | mobile/apps/photos/rust/src/ml/face/align.rs:356-360 | after the column-border loop, every cell holds its reference value `PaddedPixel` |
| `Padding.PadForDirection` | mobile/apps/photos/rust/src/ml/face/align.rs:326-363 | the output has rows+2 rows, cols+2-56 columns and their product as length, and equals the reference padding of the image; the buffer is newly allocated |
| `Laplacian.NeighbourhoodInBounds` | mobile/apps/photos/rust/src/ml/face/align.rs:315-319 | the five cells read for output (i, j) are in increasing order and inside the buffer whenever its last needed cell is |
| `Laplacian.StencilBounds` | mobile/apps/photos/rust/src/ml/face/align.rs:320 | for inputs in 0..255 the stencil lies in -1020..1020, and wrapping to `i32` leaves it unchanged |
| `Laplacian.StencilCell` | mobile/apps/photos/rust/src/ml/face/align.rs:315-320 | the value computed for output cell (i, j) is the wrapped stencil of the five neighbours of padded cell (i + 1, j + 1) |
| `Laplacian.FillRow` | mobile/apps/photos/rust/src/ml/face/align.rs:314-321 | after the inner loop for row i, every output cell up to the end of row i holds its Laplacian value and the rest are still zero |
| `Laplacian.ApplyLaplacian` | mobile/apps/photos/rust/src/ml/face/align.rs:305-324 | the output has saturating rows-2 by cols-2 cells, and each cell is the wrapped stencil of its 3x3 neighbourhood; the buffer is newly allocated |
| `Blur.ResponseDoesNotWrap` | mobile/apps/photos/rust/src/ml/face/align.rs:320 | on an 8-bit padded buffer, each output cell's stencil lies in -1020..1020 and is not changed by `i32` wrapping |
| `Blur.CellDoesNotWrap` | mobile/apps/photos/rust/src/ml/face/align.rs:313-321 | on an 8-bit padded buffer, every flat-indexed output cell lies in -1020..1020 |
| `Blur.BlurResponse` | mobile/apps/photos/rust/src/ml/face/align.rs:279-281 | padding then Laplacian gives exactly gray_rows x (gray_cols - 56) cells, each the Laplacian of the padded crop and within -1020..1020; the buffer is newly allocated |
| `Blur.FaceCropShape` | mobile/apps/photos/rust/src/ml/face/align.rs:332-334 | a 112 x 112 crop meets the padding's demands, pads to 114 x 58 and yields a 112 x 56 response |
| `Blur.FlatImageHasZeroResponse` | mobile/apps/photos/rust/src/ml/face/align.rs:279-281 | with at least two rows and two kept columns, a constant crop has an all-zero response |
| `Blur.SingleRowFlatImageResponds` | mobile/apps/photos/rust/src/ml/face/align.rs:349-354 | for a one-row constant crop of value v, wherever both horizontal neighbours are image pixels, the stencil before `i32` wrapping is -2v, the stored response is -2v wrapped to `i32`, and it is -2v itself whenever that fits in `i32` (so for every 8-bit v) |

## Left out

- `estimate_similarity_transform` and `mean_2d` (align.rs:92-194): a fit in `f32` via SVD from an external linear-algebra library.
- `warp_face_image` (align.rs:196-231): a wrapper over an external bicubic image warp.
- `normalize_face_rgb_for_mobilefacenet` (align.rs:233-244): floating-point pixel scaling.
- `to_grayscale_buffer` (align.rs:290-303): floating-point weighting and rounding. Only its clamp to 0..255 is kept, as the `IsGray8` precondition of `BlurResponse`.
- `variance_2d` and the rest of `compute_blur_value` (align.rs:277-288, 365-384): floating-point accumulation and the `is_finite` fallback to `LAPLACIAN_HARD_THRESHOLD + 1`.
- `to_absolute_detection`, `run_face_alignment` and `rgb_image_from_decoded` (align.rs:34-90): orchestration over the image crate, error wrapping, and types from modules that are not part of this model.
- Direction.FaceDirectionOf: coordinates are `real`, so the `f32` rounding of `0.5 *` and `0.2 *` and the `f32` comparisons are not modelled, only the structure of the rule. Keypoints are named fields instead of indices into a five-element array.
- Padding.PadForDirection: index arithmetic is on unbounded naturals. `usize` overflow of the products `padded_rows * padded_cols` (align.rs:334), `i * cols` and `(i + 1) * padded_cols` (align.rs:345) is not modelled, and the `usize` underflow and out-of-bounds panics are excluded by the precondition (`rows >= 1`, `cols >= 57`, every pixel in the buffer). The last clause is stricter than the no-panic condition: Right reads only up to index `rows * cols - 57` and Straight only up to `rows * cols - 29` (align.rs:345). The only caller meets it, since `to_grayscale_buffer` allocates exactly `w * h` cells (align.rs:293).
- Laplacian.ApplyLaplacian: the `i32` sum is modelled as wrapping, as in a release build. A debug build would panic on overflow instead. For 8-bit input the two agree, because no overflow occurs (`StencilBounds`). Index arithmetic is on unbounded naturals, so the `usize` overflow of `rows * cols` (align.rs:312) is not modelled. The out-of-bounds panic of the five reads (align.rs:315-319), which happens when the buffer is shorter than `padded_rows * padded_cols - 1`, is excluded by the `Readable` precondition.
