# cooler_couleur colormap routines in Dafny

This project models the two colormap routines of cooler_couleur:

- `color` in `lib/src/image.rs`. It maps a buffer of unsigned samples (u8, u16 or u32) onto a colour table and paints a fresh `w` by `h` RGB raster.
- `color_greyscale` in `src/main.rs`. It recolours an RGB raster in place through a colour table, using each pixel's red channel.

## Files

- `machine.dfy` (module `Machine`) holds the Rust integer semantics the code relies on:
  - the panics a call can end in (`Panic`) and the `Result` that carries them;
  - the widths u32 and usize (taken to be 64 bits);
  - `FitTo`, the rule for storing an exact result into an unsigned type. A debug build panics on overflow; a release build wraps around. Which build is meant is a `Build` parameter, because it also decides whether `debug_assert!` is checked.
- `raster.dfy` (module `Raster`) holds the RGB raster: `Rgb` pixels stored row by row, the zeroed raster `Blank`, and the cell arithmetic.
- `image.dfy` (module `Image`) models `color`:
  - `DataRange`;
  - the cast `from_usize`;
  - the unsigned `min`/`max` reductions;
  - the slope and offset (`MakeTransform`);
  - the per-pixel body (`PixelColor`);
  - the specification `Colored` of the whole call.

  The method `Color` allocates an `array<Rgb>` and fills it with the nested loops `Paint`/`PaintRow`. It is proved equal to `Colored`, panics included.
- `color_properties.dfy` (module `ColorProperties`) proves what `Colored` guarantees:
  - the row-major layout of the painted raster;
  - the first-panic rule;
  - the exact colour index `(from_usize(len - 1) / (max - min)) * (v - min)` and its bound, where `from_usize` is the truncating cast;
  - the boundary cases of the integer slope;
  - every early return and panic of the call.
- `color_scenarios.dfy` (module `ColorScenarios`) works out small calls exactly: the short-table slope, offset overflow and wrap-around, the truncating cast, and the row stride.
- `greyscale.dfy` (module `Greyscale`) models `color_greyscale` as a method with nested loops over an `array<Rgb>`, together with the properties of its index `(red * (len - 1)) / 255`.

Every panic of the source becomes an `Err` value rather than a precondition:
- `assert_eq!`, `assert!`, `unwrap()`;
- the bounds checks of slice indexing;
- overflow of unsigned arithmetic in a debug build;
- `debug_assert!` in a debug build.

So each contract covers the failing inputs as well.

The row offset of `color` is `y * h`, not `y * w` (lib/src/image.rs:140). `Config.stride` selects it:
- `ByHeight` is the code as written;
- `ByWidth` is the row-major stride that the surrounding code evidently assumes. See "Findings".

The comment at lib/src/image.rs:123-126 states the intent of the affine map: `f(min) = 0` and `f(max) = color_map.len() - 1`. The TODO at lines 130-131 notes that the integer slope can be 0. The model follows the code, which meets the first equation but not always the second:
- **Two-entry table.** A two-entry table `[black, white]` with `MinMax(0, 255)` gives `[black, black]`, not `[black, white]`. The integer slope `(2 - 1) / 255` is 0 (`ColorScenarios.TwoEntryTableStaysOnFirstEntry`). The greyscale routine on the same table does reach white (`Greyscale.TwoEntryTableReachesLastEntry`).
- **Last entry.** For a table whose last index fits the sample type, the sample `max` gets the last entry only when `max - min` divides `len - 1` (`ColorProperties.MaximumGetsLastEntryIff`). A longer table has `len - 1` truncated by the cast first (`ColorScenarios.LongTableTruncates`).

## Model

| member | source | states |
|---|---|---|
| Machine.FitTo | lib/src/image.rs:127-146 | the rule behind every arithmetic step of both routines (lib/src/image.rs:127, 128, 140, 142 and 146; src/main.rs:11): storing an exact result into an unsigned type of `limit` values panics exactly in a debug build when it does not fit; otherwise the stored value is the result modulo `limit`, and the result itself when it fits |
| Machine.Sub | lib/src/image.rs:127 | definition: the unsigned subtraction `x - y` under `FitTo`, as in `color_map.len() - 1` (also src/main.rs:11) and `slope * v - minus_y_offset` (line 146) |
| Machine.Mul | lib/src/image.rs:128 | definition: the unsigned product `x * y` under `FitTo`, as in `slope * min`, `y * h` (line 140), `slope * v` (line 146) and `v * (map.len() - 1)` (src/main.rs:11) |
| Machine.Add | lib/src/image.rs:142 | definition: the unsigned sum `x + y` under `FitTo`, as in the u32 offset `l + x` |
| Raster.Blank | lib/src/image.rs:106 | the freshly allocated raster has `n` cells, all `[0, 0, 0]` |
| Image.FromUsize | lib/src/image.rs:33-35 | `x as T` is a value of T, equals `x` when `x` fits, and otherwise differs from `x` by a multiple of T's range |
| Image.Minimum | lib/src/image.rs:81-83 | `min().unwrap()` panics exactly on an empty slice; otherwise the result is an element that is at most every element |
| Image.Maximum | lib/src/image.rs:84-86 | `max().unwrap()` panics exactly on an empty slice; otherwise the result is an element that is at least every element |
| Image.ResolveRange | lib/src/image.rs:112-115 | `MinMax` passes its pair through; `Automatic` succeeds exactly on non-empty data, and then gives min <= max, both elements of the data and bounding every sample |
| Image.ColorIndex | lib/src/image.rs:146 | `slope * v - minus_y_offset`, both steps in the sample type; the result is a value of the sample type, and the only panic is a debug-build overflow |
| Image.SampleOffset | lib/src/image.rs:140-142 | the buffer position `y * h + x` (or `y * w + x` with the row-major stride), both steps in u32; the result is below 2^32, and the only panic is a debug-build overflow |
| Image.PixelColor | lib/src/image.rs:142-148 | the loop body for pixel (x, y): read the sample at its offset (panics past the buffer), check it against min and max in a debug build, compute the colour index and look it up (panics past the table); a colour it returns is an entry of the table |
| Image.Rows | lib/src/image.rs:139-150 | definition: the outcome of the loop nest over rows 0 .. y-1, pixel by pixel in row-major order, stopping at the first pixel that panics |
| Image.RowPrefix | lib/src/image.rs:141-149 | definition: the outcome after the earlier rows and pixels 0 .. x-1 of row y |
| Image.Colored | lib/src/image.rs:95-153 | definition of the whole call: the length check, the zeroed raster for empty data, the range resolution and `min <= max` check, the zeroed raster for a flat range, the slope and offset, then the loop nest `Rows` |
| Image.MakeTransform | lib/src/image.rs:127-128 | slope and offset panic only on debug overflow, always for an empty table in a debug build; `slope * (max - min)` fits the sample type and is at most `len - 1`; the slope is `(len - 1) / (max - min)` when `len - 1` fits, and offset is `slope * min` modulo the sample range |
| Image.Color | lib/src/image.rs:95-153 | `color` returns a fresh raster whose cells are exactly `Colored(...)`, or panics exactly with `Colored`'s panic |
| Image.Paint | lib/src/image.rs:139-150 | the nested pixel loops leave exactly the rows the specification `Rows` computes in the raster, or stop with the panic `Rows` ends in |
| Image.PaintRow | lib/src/image.rs:141-149 | one pass of the inner loop extends the painted prefix by row y, or stops with the panic of the whole loop nest |
| Image.RowPrefixStep | lib/src/image.rs:141-148 | one more pixel of a row appends its colour, or makes the row panic with that pixel's panic |
| Image.RowPanicPersists | lib/src/image.rs:141-149 | once a pixel of a row panics, the rest of the row does not change the outcome |
| Image.RowsPanicPersists | lib/src/image.rs:139-150 | once some row panics, the later rows do not change the outcome |
| ColorProperties.RowPrefixOk | lib/src/image.rs:141-149 | a row prefix is painted exactly when the earlier rows are painted and each pixel of the prefix computes a colour |
| ColorProperties.RowPrefixLayout | lib/src/image.rs:141-148 | a painted row prefix is the earlier rows followed by exactly those pixels' colours, in order |
| ColorProperties.RowPrefixFirstPanic | lib/src/image.rs:141-149 | a panicking row prefix carries the panic of the earlier rows or of the first pixel of the row that panics |
| ColorProperties.RowsOk | lib/src/image.rs:139-150 | the loops finish exactly when every pixel of the raster computes a colour |
| ColorProperties.RowsLayout | lib/src/image.rs:139-150 | the painted raster has `y * w` cells, and cell `yy * w + xx` holds the colour of pixel (xx, yy) |
| ColorProperties.RowsFirstPanic | lib/src/image.rs:139-150 | a panic of the loops is that of the first pixel, in row-major order, that panics; every earlier pixel computes a colour |
| ColorProperties.ScaledIndex | lib/src/image.rs:146-147 | the index `slope * (v - min)` of a sample in [min, max] lies inside the table |
| ColorProperties.ScaledIndexInTable | lib/src/image.rs:146-147 | `(from_usize(len - 1) / (max - min)) * (v - min) < len` for every sample v in [min, max], where `from_usize` is the truncating cast |
| ColorProperties.ColorIndexExact | lib/src/image.rs:127-147 | for a sample in [min, max], `slope * v - offset` is exactly `slope * (v - min)` and inside the table; a release build never panics there, a debug build panics there exactly when `slope * v` overflows |
| ColorProperties.TransformIndex | lib/src/image.rs:146-147 | the same for any slope and offset satisfying `MakeTransform`'s guarantees, including wrap-around cancelling out in a release build |
| ColorProperties.MinimumGetsFirstEntry | lib/src/image.rs:146 | a sample equal to min gets table entry 0 |
| ColorProperties.ScaledIndexMonotone | lib/src/image.rs:146 | a larger sample never gets a smaller index |
| ColorProperties.MaximumGetsLastEntryIff | lib/src/image.rs:124-127 | for a table of at most 2^bits entries (bits the width of the sample type), the sample max gets the last entry exactly when `max - min` divides `len - 1` |
| ColorProperties.ShortTableGivesFirstEntryIff | lib/src/image.rs:127-131 | for a table of at most 2^bits entries, every sample in range gets entry 0 exactly when `len - 1 < max - min` |
| ColorProperties.LoopJob | lib/src/image.rs:112-128 | a call that reaches the loops gives exactly the loops' outcome over its samples, table and computed transform |
| ColorProperties.PixelPanics | lib/src/image.rs:142-147 | a pixel can panic only on overflow, an out-of-bounds read, a debug range check, or the table-index assertion |
| ColorProperties.LoopPanics | lib/src/image.rs:139-150 | a panic of the loops is one of those pixel panics |
| ColorProperties.LengthMismatchIff | lib/src/image.rs:105 | `color` panics on its length check exactly when `w * h != data.len()` |
| ColorProperties.RangeInvertedIff | lib/src/image.rs:112-117 | `color` fails `min <= max` exactly when the lengths agree, the data are non-empty, and an explicit range is inverted; an automatic range never is |
| ColorProperties.BlankWithoutContrast | lib/src/image.rs:106-121 | empty data or a flat range return the zeroed `w * h` raster, whatever the table |
| ColorProperties.AutomaticBounds | lib/src/image.rs:81-86 | the automatic range is exactly the smallest and the largest sample |
| ColorProperties.FlatDataIsBlank | lib/src/image.rs:113-121 | all-equal samples under `Automatic` return the zeroed raster |
| ColorProperties.SampleOffsetExact | lib/src/image.rs:140-142 | the u32 sample offset is the exact cell `y * stride + x` when that fits, and a debug build never yields a wrapped offset |
| ColorProperties.RowMajorCells | lib/src/image.rs:140-142 | read in row-major order, pixel (x, y) reads cell `y * w + x`, inside the buffer, with no wrap-around when there are at most 2^32 pixels |
| ColorProperties.PixelShows | lib/src/image.rs:142-148 | a pixel that computes a colour shows `color_map[(from_usize(len - 1) / (max - min)) * (v - min)]` for the sample v at its source cell, and v lies in [min, max]; in a release build this needs every sample in [min, max] and the cell's offset below 2^32, since the debug checks are absent |
| ColorProperties.PixelSucceeds | lib/src/image.rs:142-147 | a pixel computes a colour when its source cell is in the buffer, its sample is in range, and in a debug build `slope * v` fits |
| ColorProperties.ColoredPixels | lib/src/image.rs:139-149 | every pixel (x, y) of the returned raster, at cell `y * w + x`, is `color_map[(from_usize(len - 1) / (max - min)) * (v - min)]` for the sample v at its source cell `y * h + x`, and v lies in [min, max]; that cell is `y * w + x` when the samples are read row-major. In a release build this needs every sample in the resolved range and no offset wrapping around in u32 |
| ColorProperties.ColoredPixel | lib/src/image.rs:139-149 | the statement of `ColoredPixels` for one pixel, under the same release-build conditions |
| ColorProperties.PaintedPixel | lib/src/image.rs:139-149 | the statement of `ColoredPixels` for one pixel of any raster the loops paint, under the same release-build conditions |
| ColorProperties.MakeTransformOkIff | lib/src/image.rs:127-128 | slope and offset are computed without panic exactly in a release build, or when the table is non-empty and `slope * min` fits |
| ColorProperties.CellOfPixel | lib/src/image.rs:139-142 | every cell of a `w * h` buffer is `y * w + x` for some pixel (x, y) |
| ColorProperties.ReleaseAutomaticNeverPanics | lib/src/image.rs:105-149 | a release build with `Automatic`, reading row-major, at most 2^32 pixels and a non-empty table, never panics past the length check |
| ColorProperties.DebugAutomaticOkIff | lib/src/image.rs:127-147 | a debug build with `Automatic` and some contrast (row-major, at most 2^32 pixels, non-empty table) succeeds exactly when `slope * max` fits the sample type |
| ColorProperties.DebugOffsetOverflowPanics | lib/src/image.rs:128 | a debug build panics on overflow before painting when `slope * min` does not fit |
| ColorScenarios.TwoPixels | lib/src/image.rs:139-148 | a 2 by 1 raster is its two pixels in order |
| ColorScenarios.TwoEntryTableStaysOnFirstEntry | lib/src/image.rs:127-131 | u8 samples [0, 255], table [black, white], range 0..255 give [black, black]: the slope is 0 |
| ColorScenarios.DebugOffsetOverflows | lib/src/image.rs:128 | u8, a 256-entry table and range 254..255 panic on overflow of `slope * min` in a debug build |
| ColorScenarios.ReleaseOffsetWraps | lib/src/image.rs:127-147 | the same call in a release build wraps around and still gives the first and last entries |
| ColorScenarios.LongTableTruncates | lib/src/image.rs:127 | u8 with a 257-entry table casts `len - 1 = 256` to 0, so both pixels get entry 0; a 256-entry table gives entries 0 and 255 |
| ColorScenarios.TwoRows | lib/src/image.rs:139-148 | a `w` by 2 raster holds row 0 and then row 1 |
| ColorScenarios.NarrowRasterReadsPastData | lib/src/image.rs:140-142 | with the stride `y * h`, a 1 by 2 raster reads sample 2 of a 2-sample buffer and panics |
| ColorScenarios.NarrowRasterRowMajor | lib/src/image.rs:140-142 | with the row-major stride, the same call paints [black, white] |
| ColorScenarios.UnitSlopePixel | lib/src/image.rs:146-148 | with slope 1 and offset 0, a pixel shows the table entry numbered by its sample |
| ColorScenarios.SixSamples | lib/src/image.rs:112-128 | samples 0 .. 5 with a six-entry table reach the loops with slope 1 and offset 0 |
| ColorScenarios.WideRasterRepeatsSamples | lib/src/image.rs:140-142 | with the stride `y * h`, a 3 by 2 raster shows entries 0, 1, 2, 2, 3, 4: sample 2 twice and sample 5 never |
| ColorScenarios.WideRasterRowMajor | lib/src/image.rs:140-142 | with the row-major stride it shows entries 0 .. 5 once each |
| ColorScenarios.SixPixels | lib/src/image.rs:139-148 | the 3 by 2 raster of samples 0 .. 5 for either stride |
| ColorScenarios.SixRows | lib/src/image.rs:139-148 | the 3 by 2 raster of samples 0 .. 5 for a given stride: row 1 starts at entry `stride` |
| ColorScenarios.SixPixel | lib/src/image.rs:140-148 | pixel (x, y) of it shows entry `y * stride + x` |
| Greyscale.GreyIndex | src/main.rs:10-12 | `(red * (len - 1)) / 255` in usize, then `assert!(i < map.len())`; an index it returns lies inside the table |
| Greyscale.Recolored | src/main.rs:10-13 | the new value of one pixel, the table entry its red channel selects, or the panic of its index; a colour it returns is an entry of the table |
| Greyscale.ColorGreyscale | src/main.rs:4-16 | the loops finish exactly when every pixel can be recoloured, and then every cell holds `map[(red * (len - 1)) / 255]` of its old value, once; otherwise they stop at the first pixel that panics, with earlier cells recoloured and later ones untouched |
| Greyscale.GreyIndexInTable | src/main.rs:11-12 | when `red * (len - 1)` fits usize, the index is exactly `(red * (len - 1)) / 255` and below `len`, so the assertion never fires |
| Greyscale.ProductFits | src/main.rs:11 | tables of at most 2^56 entries never overflow the product |
| Greyscale.DebugGreyIndexOkIff | src/main.rs:11 | a debug build computes the index exactly when the table is non-empty and the product fits; otherwise it panics on overflow |
| Greyscale.EmptyTablePanics | src/main.rs:11-12 | an empty table panics: on `len - 1` in a debug build, on the assertion in a release build |
| Greyscale.EndpointsSelectEnds | src/main.rs:11 | red 0 selects entry 0 and red 255 selects entry `len - 1` |
| Greyscale.GreyIndexMonotone | src/main.rs:11 | a larger red value never selects an earlier entry |
| Greyscale.OnlyRedMatters | src/main.rs:10-13 | the new colour depends on the red channel only |
| Greyscale.RecoloringNeverPanics | src/main.rs:10-13 | with a non-empty table of at most 2^56 entries a pixel never panics and becomes `map[(red * (len - 1)) / 255]` |
| Greyscale.TwoEntryTableReachesLastEntry | src/main.rs:11-13 | on [black, white] a black pixel stays black and a white pixel becomes white |

## Left out

- The `f32`/`f64` instantiations (lib/src/image.rs:48-49, 51-76) are left out: they are floating-point numerics, with NaN assertions and infinity folds.
- The `println!` of slope and offset (lib/src/image.rs:132-137) is I/O. The `len - 1` it prints is the same subtraction as on line 127, so it adds no panic.
- The `image` crate's `RgbImage`, `put_pixel` and `get_pixel_mut` are a foreign library. The raster is an `array<Rgb>` stored row by row, and `put_pixel(x, y, ...)` is the write of cell `y * w + x`.
- `color_greyscale` takes the raster's width and height as u32 parameters, with `pixels.Length == w * h`: the raster's own dimensions are not modelled.
- `main`'s image decoding and file saving (src/main.rs:18-53) are I/O.
- The f64 luma computation (src/main.rs:32-33) is floating-point.
- The colormap tables `inferno`, `magma`, `plasma` and `viridis` are not part of this model; a table is any sequence of RGB triples.
- The generic trait plumbing (`ColorRegression`, `Display`, the macros) is replaced by one model parameterised over the sample type u8, u16 or u32. `to_usize` is the identity on these types.
- usize is taken to be 64 bits wide.
- Samples and the bounds of `MinMax` are any natural numbers. A Rust value of the sample type is below 2^bits, but no contract needs that bound, so none requires it.
- A panic is modelled as the `Err` value that ends the call. Unwinding and partial effects on the caller are not modelled; in `color` the raster is local and is dropped.
- The debug and release builds are a parameter. No other compile-time settings, such as `overflow-checks` in release, are modelled.
- Greyscale.ProductFits: proved for tables of at most 2^56 entries, a sufficient bound rather than the exact one.
- ColorProperties.ColoredPixels: in a release build it assumes that the samples lie in the range and that no sample offset wraps around. Otherwise the missing debug checks let wrapped values through, and the lemma does not describe them.

## Findings

| source | as written | input that shows it | evidently intended | confidence | as-written member | corrected member |
|---|---|---|---|---|---|---|
| lib/src/image.rs:140 | the row offset is `y * h`, so pixel (x, y) reads sample `y * h + x` | u8 samples [0, 1, 2, 3, 4, 5] on a 3 by 2 raster (samples 2 read twice, 5 never); samples [0, 1] on a 1 by 2 raster (reads past the buffer and panics) | row-major `y * w + x`, so each sample is shown exactly once at its own cell | not executed | ColorScenarios.WideRasterRepeatsSamples | ColorProperties.ColoredPixels |

The model keeps both strides behind `Config.stride`:
- `ByHeight` is the code as written. `ColorScenarios.WideRasterRepeatsSamples` and `ColorScenarios.NarrowRasterReadsPastData` show the discrepancy.
- `ByWidth` is the corrected stride. With it, `ColorProperties.ColoredPixels` places every sample at its own cell, and `ColorProperties.ReleaseAutomaticNeverPanics` and `ColorProperties.DebugAutomaticOkIff` show that no read goes past the buffer. `ColorScenarios.WideRasterRowMajor` and `ColorScenarios.NarrowRasterRowMajor` work the same inputs through.
