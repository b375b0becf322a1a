# Time displacement: a verified model of the pixel-displacement core

The program reads a movie as a sequence of PNG frames and writes a new sequence. Each output frame is put together from pixels of *different* input frames. Each pixel's source frame depends on how far the pixel is from the top-left corner. The result is a row-wise, column-wise or diagonal temporal smear.

This project models the part of `src/main.rs` that does the work:

- the packed frame buffer `Frame`: a flat byte vector plus the decoder's geometry (width, height, row stride `line_size`, colour type);
- the pixel address `pixel_index`;
- the copy primitives `copy_row` and `copy_col`, and the swap-based vertical flip `rotate`;
- `DISPLACEMENT_STEP` and the three strategies `displace_frame_by_row`, `displace_frame_by_col` and `displace_frame_by_rowcol`.

## Layout

- `arith.dfy`, module `Arith`. Natural-number multiplication as repeated addition (`Mul`) and division as repeated subtraction (`Div`, `Mod`). A lemma proves `Mul` equals `*`, and two lemmas characterise `Div` and `Mod` as the quotient and remainder of Euclidean division. Because the definitions are recursive, the solver unfolds them only when a proof needs them.
- `geometry.dfy`, module `Geometry`. The header `Info` and the PNG colour types with their samples per pixel. It also defines `PixelIndex` and its inverse `Locate`, which decodes a byte offset into (row, column, channel). `IsColorByte` picks out the three colour bytes of an in-grid pixel, and `InWindow` is the three-byte window of a pixel. The lemmas show the windows are in bounds, do not overlap, and together cover exactly the colour bytes.
- `frame.dfy`, module `Frames`. Defines `Frame`, `NewFrame` and the primitives `CopyRow`, `CopyCol` and `Rotate`. Each primitive is a loop that writes bytes in the same order as the Rust code. Its postcondition equates the result with a declarative byte-by-byte reference: `RowCopied`, `ColCopied` or `Flip`. Lemmas restate these references pixel by pixel (`PixelAt` is the RGB triple of a pixel) and prove that flipping is an involution.
- `displacement.dfy`, module `Displacement`. Defines the step constant, the source-frame formulas, the byte-by-byte references `RowDisplaced`, `ColDisplaced` and `RowColDisplaced`, and the three strategy methods. Lemmas state each strategy pixel by pixel: which frame each pixel comes from, which pixels keep stale content, and that bytes outside the pixel grid are never written.

Buffers are values. Each primitive takes the destination frame and returns it with the writes applied, and the strategies thread the output frame through their loops the same way. The Rust `&mut Frame` output is reused across calls without being cleared, so every strategy takes the previous output contents as input. The contracts say exactly which bytes keep those contents.

## Model

| member | source | states |
|---|---|---|
| `Frames.NewFrame` | src/main.rs:32-37 | A new frame has the given header and a buffer of `buffer_size()` = stride × height bytes, all zero; with a valid header it is a valid frame |
| `Geometry.PixelIndexInBounds` | src/main.rs:39-41 | For row < height and col < width, the whole pixel at `row * line_size + col * samples` (so at least its three colour bytes) lies inside the buffer |
| `Geometry.LocatePixelIndex` | src/main.rs:39-41 | The pixel address can be inverted: byte k of pixel (row, col) decodes back to (row, col, k) |
| `Geometry.LocateColorByte` | src/main.rs:39-41 | Every colour byte decodes to an in-grid pixel and is that pixel's address plus its channel |
| `Geometry.PixelWindow` | src/main.rs:39-41 | The three bytes from `pixel_index(row, col)` are exactly the colour bytes that decode to (row, col) |
| `Geometry.PixelWindowsDisjoint` | src/main.rs:39-41 | Distinct in-grid pixels have addresses at least `samples` bytes apart, so their three-byte windows never overlap |
| `Geometry.ColorByteInGrid` | src/main.rs:39-41 | A byte of the buffer is a colour byte iff it lies in the window of some in-grid pixel |
| `Frames.CopyRow` | src/main.rs:59-68 | Copying row `row` pixel by pixel, three bytes each, gives the buffer whose colour bytes in that row come from the source and whose other bytes are unchanged |
| `Frames.RowCopiedPixel` | src/main.rs:59-68 | After copying row `row`, each of its pixels equals the source's pixel, and every byte outside that row's pixel windows keeps its old value |
| `Frames.CopyCol` | src/main.rs:70-79 | Copying column `col` pixel by pixel gives the buffer whose colour bytes in that column come from the source and whose other bytes are unchanged |
| `Frames.ColCopiedPixel` | src/main.rs:70-79 | After copying column `col`, each of its pixels equals the source's pixel, and every byte outside that column's pixel windows keeps its old value |
| `Frames.SwapPixelStep` | src/main.rs:48-55 | Three byte swaps between pixel (row, col) and pixel (h − 1 − row, col) extend the set of exchanged pixels by exactly that pair |
| `Frames.RotatedAll` | src/main.rs:48-56 | Once the rows above h / 2 have been swapped, the buffer is the flipped original, because an odd height's middle row is its own mirror |
| `Frames.Rotate` | src/main.rs:44-57 | On an RGB frame, the swap loops produce the vertical flip of the buffer: every colour byte holds the same channel of the mirrored pixel and padding is untouched |
| `Frames.FlipPixel` | src/main.rs:44-57 | After the flip, pixel (r, c) equals the old pixel (h − 1 − r, c) |
| `Frames.FlipFixesMiddleRow` | src/main.rs:48 | When the height is odd, the middle row is unchanged |
| `Frames.FlipInvolutive` | src/main.rs:44-57 | Flipping twice gives back the original buffer |
| `Displacement.RowColSource` | src/main.rs:115 | The wrapped source index is always a valid frame index, and it is 0 when there is a single frame |
| `Displacement.RowSourceInRange` | src/main.rs:89-101 | With index < frame count, row `row` has a source frame iff row < 2 × (count − index), and column `col` has one iff col < 2 × (count − index) |
| `Displacement.ColSourceMonotone` | src/main.rs:100 | The selected frame index never decreases from left to right |
| `Displacement.DisplaceByRow` | src/main.rs:85-94 | The by-row loop produces the reference result: colour bytes of rows whose source frame `index + row / 2` exists come from that frame; all other bytes keep the output's previous contents |
| `Displacement.RowDisplacedPixel` | src/main.rs:85-94 | By row, pixel (r, c) equals pixel (r, c) of frame `index + r / 2` when that frame exists and otherwise keeps its stale value; bytes outside the grid are never written |
| `Displacement.RowDisplacedFreshOutput` | src/main.rs:85-94 | Into a zero-filled output, every row past 2 × (count − index) stays black |
| `Displacement.DisplaceByCol` | src/main.rs:96-105 | The by-column loop produces the reference result: colour bytes of columns whose source frame `index + col / 2` exists come from that frame; all other bytes keep their previous contents |
| `Displacement.ColDisplacedPixel` | src/main.rs:96-105 | By column, pixel (r, c) equals pixel (r, c) of frame `index + c / 2` when that frame exists and otherwise keeps its stale value; bytes outside the grid are never written |
| `Displacement.DisplaceByRowCol` | src/main.rs:107-126 | The per-pixel loop produces the reference result: every colour byte comes from the frame selected by the wrapping formula |
| `Displacement.RowColDisplacedPixel` | src/main.rs:107-126 | By row and column, every pixel (r, c) equals pixel (r, c) of frame `(index + (r + c) / 2) % count`, whatever the output held before (full coverage); bytes outside the grid are never written |
| `Displacement.RowColSingleFrame` | src/main.rs:115 | With a single frame, every output pixel comes from frame 0 |
| `Displacement.RowRuns` | src/main.rs:141-147 | Running the by-row strategy for indices 0, 1, … on one buffer keeps the buffer's header and the shared geometry |
| `Displacement.RowRunsPixel` | src/main.rs:141-147 | With the buffer reused as the driver loop does, a row with no source frame for the current index holds the row of the last frame; only rows at or past 2 × count keep the buffer's initial content |

Notes on the model:

- The output frame is allocated once (src/main.rs:141) and reused for every output index (src/main.rs:147) without being cleared. The model follows the code. A row that the by-row strategy skips is therefore not black in general. `RowRunsPixel` shows that it holds the last frame's row, written for an earlier index, so the reused buffer acts as "clamp to the last frame". Only rows that no index reaches keep the zeros from `Frame::new`. Reading the program as "skipped rows stay at the cleared value" is true only for the first output frame (`RowDisplacedFreshOutput`).
- The copy and swap primitives move exactly three bytes per pixel, as the Rust code does, not `samples` bytes. A frame is therefore valid only when its colour type has at least three samples per pixel (RGB or RGBA) and its stride holds a row of pixels. With RGBA the alpha byte is never copied, and the contracts say so: it is not a colour byte.
- `copy_row` and `copy_col` read the source at the source's own `pixel_index`. The model requires the source and destination headers to be equal, so the two addresses coincide. The Rust code never checks this, and no frame geometry is validated at load time either. The strategies therefore take `SharedGeometry` (all frames and the output frame have one valid header) as a precondition.
- `rotate` asserts the RGB colour type, and the model takes that as a precondition. An out-of-range row or column passed to a copy primitive would make the Rust code panic, so it is a precondition too. With zero width (or zero height) no byte is addressed and nothing panics, and the preconditions allow that case.
- The colour types and their samples per pixel are those of the PNG standard (section 6.1 of the PNG specification), at bit depth 8.

## Left out

- `Frame::load` and `Frame::save` (src/main.rs:14-30): file I/O and PNG decoding/encoding through the `png` crate. The header fields they produce are inputs of the model.
- `main` (src/main.rs:128-153): hard-coded directories, file naming, directory creation, progress printing and the load loop. Its one relevant behaviour, reusing one output frame across iterations of the by-row strategy, is modelled by `RowRuns`; the file writes between iterations are left out.
- Bit depths other than 8, interlacing and palette handling: they live in the `png` crate, which is not part of this model.
- Machine integers: the model uses unbounded naturals. `pixel_index` is computed in `usize`. For in-range pixels the result is below the buffer length, so it cannot overflow; the model does not track intermediate overflow for out-of-range arguments, which the preconditions exclude anyway.
- Panics: the Rust code panics on an out-of-bounds index. The model turns each such case into a precondition, so no panic path is modelled.
