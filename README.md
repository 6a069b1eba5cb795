# ft-rs scan-line spectrum viewer, modelled in Dafny

ft-rs is a small image viewer. Each frame it does the following:

- It draws an image into a 1500 × 800 framebuffer of packed `u32` colours.
- It marks one row of the image (the scan line) in red.
- It plots the spectrum of that row's green channel twice: as purple bars before a frequency-domain filter and as yellow bars after it. Bars are OR-composited.
- It writes the filtered, inverse-transformed row back into the image as grayscale.
- It overlays a green bar per column near the bottom of the window, showing the green level of the scan line.

This project models the integer part of that program: colour packing, the framebuffer primitives, image drawing, the spectrum bar geometry, scan-line extraction and write-back, and the frame loop's bookkeeping. Each loop or in-place update of the program is a Dafny method with a loop over an `array` or `array2`. Each method is proved against a function that says, cell by cell, what the buffer or image holds afterwards. Lemmas prove the properties of those functions.

Modules, in dependency order:

- `Bitwise` (`bitwise.dfy`): left shift and bitwise OR over natural numbers, with OR's algebra (bit-wise meaning, commutativity, associativity, idempotence, disjoint fields).
- `Colors` (`colors.dfy`): `FTypes::RGB`, its packing into a `u32`, and its conversion to an opaque RGBA pixel.
- `Framebuffer` (`framebuffer.dfy`): the `WIDTH * HEIGHT` row-major buffer and `set_pixel`, `add_pixel`, `get_pixel` and `clear_buf`.
- `SpectrumBars` (`spectrum_bars.dfy`): `draw_freqs`, including its `i32` row arithmetic, the conversion of a negative row to `usize`, and the loop's early stop.
- `Compositor` (`compositor.dfy`): `draw_img` and the green level overlay of the frame loop.
- `Scanline` (`scanline.dfy`): the extraction loop, the spectrum drawing and the write-back loop of `fft`. The float stages are a `FloatStage` parameter.
- `Viewer` (`viewer.dfy`): one frame of `main`'s loop, the loop run for a given number of frames, and how the marker row relates to the scanned row.

Conventions of the model:

- A framebuffer cell is a `Word`, a natural number below 2^32.
- `|` is the recursive `Bitwise.Or`, which is proved to stay below 2^32 for words.
- The image is an `array2<Rgba>` indexed `img[x, y]`. `Length0` is its width and `Length1` its height.
- `line as u32` is truncation modulo 2^32 (`Scanline.AsU32`).
- The program is taken as a release build on a 64-bit target. The bar row `(HEIGHT as i32) - 400 - m * mag.signum()` is then wrapping `i32` arithmetic followed by a sign-extending cast to a 64-bit `usize` (`SpectrumBars.BarRow`).

Three facts about the code shape the model:

- `draw_freqs` draws coefficients 1 up to ceil(len / 2). The loop stops only once `2 * i >= len` for enumeration index i = coefficient − 1. For length 8 that is coefficients 1 to 4.
- The frame loop marks row `frame % 800`, the buffer height, but gives the raw, unreduced `frame` to `fft`. So the spectrum and the write-back follow the marker only until `frame` reaches the image height or 800, whichever comes first. Once `frame` reaches the image height, every image row has been scanned once, the extracted signal is all zero, and the write-back changes nothing.
- The bar height is `(re * 0.02) as i32`, which truncates toward zero and saturates. That cast is inside the float stage here.

## Model

| member | source | states |
|---|---|---|
| Bitwise.Or | src/main.rs:18 | `a \| b` is at least each operand and at most their sum |
| Bitwise.OrBit | src/main.rs:41 | a bit of `a \| b` is set exactly when it is set in a or in b |
| Bitwise.OrComm | src/main.rs:41 | OR is commutative |
| Bitwise.OrAssoc | src/main.rs:41 | OR is associative |
| Bitwise.OrSelf | src/main.rs:41 | OR is idempotent |
| Bitwise.OrDisjoint | src/main.rs:18 | OR of a value shifted left by k and a value below 2^k is their sum |
| Bitwise.OrBelow | src/main.rs:41 | OR of two values below 2^k stays below 2^k, so `\|=` on a `u32` cannot overflow |
| Colors.PackedFields | src/main.rs:15-21 | `(r << 16) \| (g << 8) \| b` equals r·2^16 + g·2^8 + b for bytes |
| Colors.FieldsReadBack | src/main.rs:15-21 | r·2^16 + g·2^8 + b is below 2^24, and bits 16–23, 8–15 and 0–7 give back r, g and b |
| Colors.Pack | src/main.rs:15-21 | the packed word is below 2^24, and each channel reads back exactly from its field |
| Colors.PackInjective | src/main.rs:15-21 | two colours pack to the same word if and only if they are equal |
| Colors.ToRgba | src/main.rs:23-29 | the RGBA conversion keeps r, g and b and always has alpha 255 |
| Colors.ConversionsAgree | src/main.rs:15-29 | the RGBA pixel's channels are the channels the packed word carries |
| Colors.Gray | src/main.rs:163 | `RGB(g, g, g).into()` is an opaque gray pixel of level g |
| Framebuffer.IndexOf | src/main.rs:34-35 | an in-range (x, y) has cell x + y·WIDTH inside the buffer, and that cell's column and row are x and y |
| Framebuffer.CellOf | src/main.rs:34-35 | every cell is the index of exactly one in-range pixel |
| Framebuffer.WrittenPixels | src/main.rs:33-37 | after a write in range, pixel (x, y) holds the colour and every other pixel is unchanged; out of range, nothing changes |
| Framebuffer.WrittenCells | src/main.rs:33-37 | the same, cell by cell |
| Framebuffer.CompositeLaws | src/main.rs:39-43 | compositing never clears a bit, adding the same colour twice equals adding it once, and the order of two colours does not matter |
| Framebuffer.AddedPixels | src/main.rs:39-43 | after an add in range, pixel (x, y) is `old \| colour` and every other pixel is unchanged; no bit of any pixel is cleared; out of range, nothing changes |
| Framebuffer.AddedCells | src/main.rs:39-43 | the same, cell by cell |
| Framebuffer.AddedIdempotent | src/main.rs:39-43 | `add_pixel` twice with the same colour leaves the buffer as one call does |
| Framebuffer.AddedCommute | src/main.rs:39-43 | two `add_pixel` calls commute, at the same pixel or at different ones |
| Framebuffer.SetPixel | src/main.rs:33-37 | the new buffer is the old one with only the cell of (x, y) set to the packed colour, or unchanged out of range |
| Framebuffer.AddPixel | src/main.rs:39-43 | the new buffer is the old one with only the cell of (x, y) ORed with the packed colour, or unchanged out of range |
| Framebuffer.GetPixel | src/main.rs:45-51 | returns cell x + y·WIDTH in range and 0 otherwise, without changing the buffer |
| Framebuffer.ClearBuf | src/main.rs:53-57 | every cell is 0 afterwards whatever it held before, so a second call changes nothing; the length is fixed |
| SpectrumBars.WrapI32 | src/main.rs:96 | wrapping `i32` arithmetic gives the `i32` congruent to its argument modulo 2^32, and the argument itself when it is an `i32` |
| SpectrumBars.StepRow | src/main.rs:96 | step m of a bar lands in the buffer exactly when 400 − m·sign(mag) is a buffer row, and then lands on that row; a negative row, or one reached by a wrapped `i32` product in a release build, is clipped |
| SpectrumBars.PrefixGrows | src/main.rs:92-117 | each step of a bar adds exactly the row it aims at, one row further from the baseline |
| SpectrumBars.BarRows | src/main.rs:92-117 | a bar of magnitude mag touches exactly the buffer rows 400 − m·sign(mag) for 0 ≤ m < \|mag\|, and none when mag is 0 |
| SpectrumBars.DrawnCoefficients | src/main.rs:83-86 | for length ≥ 2 the coefficients drawn are exactly 1 to ceil(len / 2); the DC term is never drawn |
| SpectrumBars.FreqCellKeepsBits | src/main.rs:93-116 | drawing the spectrum never clears a bit of any cell |
| SpectrumBars.FreqCellOwner | src/main.rs:83-117 | a changed cell lies in columns 4i to 4i + 3 of a drawn coefficient i + 1 with nonzero magnitude; the DC term and undrawn coefficients never affect the buffer |
| SpectrumBars.AddBarStep | src/main.rs:93-116 | one step ORs the colour into columns 4i to 4i + 3 of the row it aims at, and changes nothing else |
| SpectrumBars.DrawFreqs | src/main.rs:81-119 | every cell ends up as its old value ORed with the colour exactly where a bar of a drawn coefficient covers it, and is unchanged elsewhere |
| Compositor.ImageCellShows | src/main.rs:59-70 | where the image reaches, a cell off the scan line carries its pixel's r, g and b, and a cell on the scan line is pure red; beyond the image the cell is unchanged |
| Compositor.ImageCellOverwrites | src/main.rs:64-67 | where the image reaches, the result does not depend on the buffer's old contents |
| Compositor.DrawImgRow | src/main.rs:60-69 | one image row of the row-major walk sets exactly the cells of that row that the image covers |
| Compositor.DrawImg | src/main.rs:59-70 | every cell the image covers shows its pixel, red on the scan line, and every other cell is unchanged |
| Compositor.LevelBounds | src/main.rs:215-216 | a level bar lies between rows HEIGHT − 56 and HEIGHT − 5, so `HEIGHT - 5 - u` cannot underflow; a brighter pixel's bar contains a darker one's; a level below 5 draws no row at all |
| Compositor.LevelColor | src/main.rs:216 | the overlay colour carries green g and no red or blue |
| Compositor.LevelCellKeepsBits | src/main.rs:216 | the overlay never clears a bit of any cell |
| Compositor.DrawLevelBar | src/main.rs:215-217 | green is ORed into exactly the g / 5 rows up from HEIGHT − 5 in column x, and nothing else changes |
| Compositor.DrawLevelsRow | src/main.rs:209-218 | only the image row equal to the marker row draws anything |
| Compositor.DrawLevels | src/main.rs:209-218 | every cell gets its column's level bar for the marker row ORed in, and nothing else changes |
| Scanline.AsU32 | src/main.rs:135 | `line as u32` is below 2^32, congruent to line, and equal to line when line fits |
| Scanline.RowSignal | src/main.rs:125-131 | the signal has one entry per image column |
| Scanline.RowPixels | src/main.rs:134-143 | the scanned row has one pixel per image column: pixel (i, line as u32) when that row is in the image, and a blank pixel otherwise |
| Scanline.RowSignalFacts | src/main.rs:134-143 | a line past the bottom of the image yields an all-zero signal, and the signal repeats with period 2^32 in line |
| Scanline.ExtractRow | src/main.rs:125-143 | the signal has image-width entries; entry i is the green byte of pixel (i, line as u32), or 0 when that row is not in the image |
| Scanline.WriteBack | src/main.rs:154-170 | pixel (n, line as u32) becomes the gray of the n-th intensity, `levels[n]`, when in bounds, and every other pixel is unchanged |
| Scanline.WrittenBackFacts | src/main.rs:163-169 | the written pixel is opaque gray of the given level, and a pixel off row `line as u32` is unchanged |
| Scanline.Fft | src/main.rs:121-171 | the buffer gets the purple pre-filter bars and then the yellow post-filter bars of the scan line's signal, and the image gets the gray write-back of its reconstruction |
| Viewer.MarkerRow | src/main.rs:205 | the marker row is always a buffer row |
| Viewer.MarkerAndScan | src/main.rs:205-207 | the marker and scanned rows agree for frame < 800; for frames 800 to 1599 the marker restarts at the top while the raw frame is scanned; a scanned row past the image's bottom gives a zero signal and no write-back |
| Viewer.Tick | src/main.rs:203-222 | one frame sets every buffer cell to: the image pixel with the marker row `frame % 800` in red, then the purple and yellow spectra of row `frame as u32` ORed in, then the green level overlay of the marker row; it replaces image row `frame as u32` by the gray of the inverse stage applied to that row's old green signal, and advances the counter |
| Viewer.ScanStart | src/main.rs:201 | before the first frame, the snapshot of the image's rows and green signals describes the image exactly, with no row scanned yet |
| Viewer.ScanStep | src/main.rs:203-222 | a frame with counter below 2^32 extends the scanned rows by one: rows above `frame + 1` are the gray of their original signal's reconstruction, the rest keep their original pixels, and the buffer is Tick's for the original row `frame` |
| Viewer.FrameLoop | src/main.rs:201-224 | after n ≤ 2^32 frames, each pixel of image row y < n is the gray of the inverse stage applied to row y's original green signal, rows n and below are unchanged, and the buffer holds the cells of frame n − 1 computed from the original row n − 1 |

## Left out

- The forward and inverse FFT (`FftPlanner`, `process`; src/main.rs:122-123, 145, 151-152) are an external library doing floating-point numerics. They enter through `Scanline.FloatStage` as functions of the extracted row. So are the filter `process_freq_domain` (src/main.rs:72-79), the cast `(re * 0.02) as i32` (src/main.rs:88) and the cast `(z.re / HEIGHT) as u8` (src/main.rs:155). The model constrains them only by their output lengths and by the range of the magnitudes.
- The imaginary parts of the signal are not modelled. Extraction sets only the real parts, and the imaginary parts start at zero and are consumed only by the float stages.
- `(g as f32 * 0.2) as usize` (src/main.rs:215) is modelled as g / 5. The single-precision product of a byte and 0.2 truncates to that value.
- SpectrumBars.DrawFreqs requires that no drawn magnitude is `i32::MIN`, so that `mag.abs()` cannot overflow. The spectrum of a row of bytes is at most 255 times the width, far below 2^31 / 0.02, so the saturating cast never produces it.
- Scanline.FloatStage.Valid requires this bound of every magnitude, not only of the drawn ones.
- The window, its rate limit, key polling and the display call (`minifb`; src/main.rs:189-199, 203, 223) are I/O. Viewer.FrameLoop runs for a given number of frames instead of until the window closes.
- Argument handling, the usage exit and image decoding (src/main.rs:174-181) are process I/O and a foreign decoder. The image is a given `array2<Rgba>`. Only 8-bit RGBA pixels are modelled, as `img.pixels()` yields them.
- Viewer.FrameLoop requires at most 2^32 frames. Beyond that `frame as u32` wraps and rows are scanned again from the top, which the model does not follow; the `usize` counter itself would take 2^64 frames to overflow.
- SpectrumBars.StepRow assumes a release build: in a debug build `400 - m * mag.signum()` (src/main.rs:96) panics on `i32` overflow, which needs a magnitude below −(2^31 − 401); that panic is not modelled.
- The allocation of the buffer (src/main.rs:183) is not modelled. The model takes a buffer of length WIDTH · HEIGHT as given.
- The commented-out code and the unused `mark` colour (src/main.rs:156-161, 164, 167) have no effect and are not modelled.
