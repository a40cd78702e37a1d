/** Properties of the model of `color` (lib/src/image.rs): which pixel of
    the raster holds which colour, when the call panics, the exact colour
    index of a sample, and the boundary cases of the integer slope. */
module ColorProperties {
  import opened Machine
  import opened Raster
  import opened Image

  // ---------------------------------------------------------------------
  // The pixel loops
  // ---------------------------------------------------------------------

  /** Every pixel that the loops visit before pixel (x, y) computes a colour. */
  ghost predicate EarlierPixelsOk(pixel: Pixels, w: nat, x: nat, y: nat)
  {
    (forall yy: nat, xx: nat :: yy < y && xx < w ==> pixel(xx, yy).Ok?) &&
    (forall xx: nat :: xx < x ==> pixel(xx, y).Ok?)
  }

  /** Painting pixels 0 .. x-1 of row y finishes exactly when the earlier
      rows finish and each of those pixels computes a colour. */
  lemma {:induction false} RowPrefixOk(pixel: Pixels, w: nat, y: nat, x: nat)
    ensures RowPrefix(pixel, w, y, x).Ok? <==>
      Rows(pixel, w, y).Ok? && forall xx: nat :: xx < x ==> pixel(xx, y).Ok?
    decreases x
  {
    if x > 0 {
      RowPrefixOk(pixel, w, y, x - 1);
    }
  }

  /** Painting pixels 0 .. x-1 of row y extends the earlier rows by exactly
      their colours. */
  lemma {:induction false} RowPrefixLayout(pixel: Pixels, w: nat, y: nat, x: nat)
    requires RowPrefix(pixel, w, y, x).Ok?
    ensures Rows(pixel, w, y).Ok?
    ensures |RowPrefix(pixel, w, y, x).value| == |Rows(pixel, w, y).value| + x
    ensures RowPrefix(pixel, w, y, x).value[..|Rows(pixel, w, y).value|] == Rows(pixel, w, y).value
    ensures forall xx: nat :: xx < x ==>
      pixel(xx, y).Ok? &&
      RowPrefix(pixel, w, y, x).value[|Rows(pixel, w, y).value| + xx] == pixel(xx, y).value
    decreases x
  {
    if x > 0 {
      RowPrefixLayout(pixel, w, y, x - 1);
    }
  }

  /** When painting pixels 0 .. x-1 of row y panics, either the earlier rows
      panicked already, or the earlier rows finished and the panic is that
      of the first pixel of row y that panics. */
  lemma {:induction false} RowPrefixFirstPanic(pixel: Pixels, w: nat, y: nat, x: nat)
    requires RowPrefix(pixel, w, y, x).Err?
    ensures Rows(pixel, w, y) == RowPrefix(pixel, w, y, x) ||
      (Rows(pixel, w, y).Ok? &&
       exists xx: nat :: xx < x && pixel(xx, y) == Err(RowPrefix(pixel, w, y, x).error) &&
         forall x': nat :: x' < xx ==> pixel(x', y).Ok?)
    decreases x
  {
    if x > 0 && RowPrefix(pixel, w, y, x - 1).Err? {
      RowPrefixFirstPanic(pixel, w, y, x - 1);
    } else if x > 0 {
      RowPrefixOk(pixel, w, y, x - 1);
    }
  }

  /** The loops over the first y rows finish exactly when every pixel of
      those rows computes a colour. */
  lemma {:induction false} RowsOk(pixel: Pixels, w: nat, y: nat)
    ensures Rows(pixel, w, y).Ok? <==>
      forall yy: nat, xx: nat :: yy < y && xx < w ==> pixel(xx, yy).Ok?
    decreases y
  {
    if y > 0 {
      RowsOk(pixel, w, y - 1);
      RowPrefixOk(pixel, w, y - 1, w);
    }
  }

  /** Cell `yy * w + xx` of `s` exists and holds the colour of pixel
      (xx, yy). */
  ghost predicate CellHolds(pixel: Pixels, w: nat, s: seq<Rgb>, xx: nat, yy: nat)
  {
    0 <= yy * w + xx < |s| && pixel(xx, yy).Ok? && s[yy * w + xx] == pixel(xx, yy).value
  }

  /** `s` is the raster of the first y rows: pixel (xx, yy) of it is cell
      `yy * w + xx`, and holds the colour of that pixel. */
  ghost predicate LaidOut(pixel: Pixels, w: nat, y: nat, s: seq<Rgb>)
  {
    |s| == y * w && forall yy: nat, xx: nat :: yy < y && xx < w ==> CellHolds(pixel, w, s, xx, yy)
  }

  /** The loops over the first y rows paint every pixel with its colour, at
      its row-major cell. */
  lemma {:induction false} RowsLayout(pixel: Pixels, w: nat, y: nat)
    requires Rows(pixel, w, y).Ok?
    ensures LaidOut(pixel, w, y, Rows(pixel, w, y).value)
    decreases y
  {
    if y > 0 {
      var py := y - 1;
      assert Rows(pixel, w, y) == RowPrefix(pixel, w, py, w);
      RowPrefixLayout(pixel, w, py, w);
      RowsLayout(pixel, w, py);
      var s, base := Rows(pixel, w, y).value, Rows(pixel, w, py).value;
      RowEnd(w, y, py);
      forall yy: nat, xx: nat | yy < y && xx < w
        ensures CellHolds(pixel, w, s, xx, yy)
      {
        AppendedRowCell(pixel, w, py, base, s, xx, yy);
      }
    }
  }

  /** Cell (xx, yy) of rows 0 .. py, where row py is appended to rows
      0 .. py-1. */
  lemma AppendedRowCell(pixel: Pixels, w: nat, py: nat, base: seq<Rgb>, s: seq<Rgb>, xx: nat, yy: nat)
    requires LaidOut(pixel, w, py, base)
    requires |s| == |base| + w && s[..|base|] == base
    requires forall x: nat :: x < w ==> pixel(x, py).Ok? && s[|base| + x] == pixel(x, py).value
    requires yy <= py && xx < w
    ensures CellHolds(pixel, w, s, xx, yy)
  {
    RowEnd(w, py + 1, py);
    CellIndex(w, py + 1, xx, yy);
    if yy < py {
      assert CellHolds(pixel, w, base, xx, yy);
      assert s[yy * w + xx] == s[..|base|][yy * w + xx];
    }
  }

  /** When the loops over the first y rows panic, they panic with the panic
      of the first pixel in row-major order whose computation panics. */
  lemma {:induction false} RowsFirstPanic(pixel: Pixels, w: nat, y: nat)
    requires Rows(pixel, w, y).Err?
    ensures exists yy: nat, xx: nat ::
      (yy < y && xx < w && pixel(xx, yy) == Err(Rows(pixel, w, y).error) &&
       EarlierPixelsOk(pixel, w, xx, yy))
    decreases y
  {
    var py := y - 1;
    assert Rows(pixel, w, y) == RowPrefix(pixel, w, py, w);
    RowPrefixFirstPanic(pixel, w, py, w);
    if Rows(pixel, w, py).Err? {
      RowsFirstPanic(pixel, w, py);
      var yy: nat, xx: nat :| yy < py && xx < w &&
        pixel(xx, yy) == Err(Rows(pixel, w, py).error) && EarlierPixelsOk(pixel, w, xx, yy);
      assert EarlierPixelsOk(pixel, w, xx, yy);
    } else {
      RowsOk(pixel, w, py);
      var xx: nat :| xx < w && pixel(xx, py) == Err(Rows(pixel, w, y).error) &&
        forall x': nat :: x' < xx ==> pixel(x', py).Ok?;
      assert EarlierPixelsOk(pixel, w, xx, py);
    }
  }

  // ---------------------------------------------------------------------
  // The colour index of one sample
  // ---------------------------------------------------------------------

  /** The integer slope `from_usize(len - 1) / (max - min)`. */
  function SlopeOf(t: SampleType, mapLen: nat, min: nat, max: nat): nat
    requires 0 < mapLen && min < max
  {
    FromUsize(t, mapLen - 1) / (max - min)
  }

  /** The colour index the affine map assigns to a sample v in
      [min, max]: `slope * (v - min)`, computed without overflow. */
  function ScaledIndex(t: SampleType, mapLen: nat, min: nat, max: nat, v: nat): (i: nat)
    requires 0 < mapLen && min < max && min <= v
    ensures v <= max ==> i < mapLen
  {
    if v <= max then ScaledIndexInTable(t, mapLen, min, max, v); SlopeOf(t, mapLen, min, max) * (v - min)
    else SlopeOf(t, mapLen, min, max) * (v - min)
  }

  /** `slope * (v - min) <= slope * (max - min) <= len - 1`. */
  lemma ScaledIndexInTable(t: SampleType, mapLen: nat, min: nat, max: nat, v: nat)
    requires 0 < mapLen && min <= v <= max && min < max
    ensures SlopeOf(t, mapLen, min, max) * (v - min) < mapLen
  {
    var s := SlopeOf(t, mapLen, min, max);
    MulMonotone(v - min, max - min, s);
    SlopeBound(FromUsize(t, mapLen - 1), max - min);
    assert (v - min) * s == s * (v - min);
  }

  /** For a sample v in [min, max], `slope * v - offset` is exactly
      `slope * (v - min)` and indexes the table: in a release build the
      wrap-around of both products cancels out, in a debug build the call
      panics exactly when `slope * v` overflows the sample type. */
  lemma ColorIndexExact(cfg: Config, mapLen: nat, min: nat, max: nat, v: nat)
    requires 0 < mapLen <= USIZE_LIMIT && min <= v <= max && min < max
    requires MakeTransform(cfg, mapLen, min, max).Ok?
    ensures MakeTransform(cfg, mapLen, min, max).value.slope == SlopeOf(cfg.sample, mapLen, min, max)
    ensures cfg.build == Release ==> ColorIndex(cfg, MakeTransform(cfg, mapLen, min, max).value, v).Ok?
    ensures cfg.build == Debug ==>
      (ColorIndex(cfg, MakeTransform(cfg, mapLen, min, max).value, v).Ok? <==>
       SlopeOf(cfg.sample, mapLen, min, max) * v < Limit(cfg.sample))
    ensures ColorIndex(cfg, MakeTransform(cfg, mapLen, min, max).value, v).Ok? ==>
      ColorIndex(cfg, MakeTransform(cfg, mapLen, min, max).value, v).value
        == ScaledIndex(cfg.sample, mapLen, min, max, v) < mapLen
  {
    var tr := MakeTransform(cfg, mapLen, min, max).value;
    assert Sub(cfg.build, USIZE_LIMIT, mapLen, 1) == Ok(mapLen - 1);
    assert tr.slope == SlopeOf(cfg.sample, mapLen, min, max);
    TransformIndex(cfg, tr, mapLen, v);
  }

  /** The same on any transform with the properties `MakeTransform`
      guarantees. */
  lemma TransformIndex(cfg: Config, tr: Transform, mapLen: nat, v: nat)
    requires tr.min <= v <= tr.max
    requires tr.slope * (tr.max - tr.min) < Limit(cfg.sample)
    requires tr.slope * (tr.max - tr.min) <= mapLen - 1
    requires tr.offset == (tr.slope * tr.min) % Limit(cfg.sample)
    requires cfg.build == Debug ==> tr.offset == tr.slope * tr.min
    ensures cfg.build == Release ==> ColorIndex(cfg, tr, v) == Ok(tr.slope * (v - tr.min))
    ensures cfg.build == Debug ==> (ColorIndex(cfg, tr, v).Ok? <==> tr.slope * v < Limit(cfg.sample))
    ensures ColorIndex(cfg, tr, v).Ok? ==>
      ColorIndex(cfg, tr, v).value == tr.slope * (v - tr.min) < mapLen
  {
    var m, slope := Limit(cfg.sample), tr.slope;
    var d := slope * (v - tr.min);
    ScaledBelow(slope, v - tr.min, tr.max - tr.min, m, mapLen);
    ProductDifference(m, slope, v, tr.min, d);
    if cfg.build == Release {
      ReleaseIndex(cfg, tr, v, m, d);
    } else if slope * v < m {
      assert Sub(cfg.build, m, slope * v, tr.offset) == Ok(d);
    }
  }

  /** A product below a bound stays below it for a smaller factor. */
  lemma ScaledBelow(slope: nat, k: nat, n: nat, m: nat, mapLen: nat)
    requires k <= n && slope * n < m && slope * n <= mapLen - 1
    ensures slope * k < m && slope * k <= mapLen - 1
  {
    MulMonotone(k, n, slope);
  }

  /** `slope * v - offset` in a release build, when the wrapped difference
      is known. */
  lemma ReleaseIndex(cfg: Config, tr: Transform, v: nat, m: nat, d: nat)
    requires cfg.build == Release && m == Limit(cfg.sample) && tr.offset < m && d < m
    requires ((tr.slope * v) % m - tr.offset) % m == d
    ensures ColorIndex(cfg, tr, v) == Ok(d)
  {
    var slope, offset, build := tr.slope, tr.offset, cfg.build;
    var p := (slope * v) % m;
    assert Mul(build, m, slope, v) == Ok(p);
    assert Sub(build, m, p, offset) == Ok(d);
  }

  /** `s * v - s * min` is `s * (v - min)`, also after wrapping both
      products modulo m, when that difference is below m. */
  lemma ProductDifference(m: nat, s: nat, v: nat, min: nat, d: nat)
    requires m > 0 && min <= v && d == s * (v - min) && d < m
    ensures s * v - s * min == d
    ensures ((s * v) % m - (s * min) % m) % m == d
  {
    assert s * v == s * min + s * (v - min);
    WrappedDifference(m, s * v, s * min);
    DivModUnique(m, d, 0, d);
  }

  /** A sample equal to the minimum gets table entry 0. */
  lemma MinimumGetsFirstEntry(t: SampleType, mapLen: nat, min: nat, max: nat)
    requires 0 < mapLen && min < max
    ensures ScaledIndex(t, mapLen, min, max, min) == 0
  {
  }

  /** A larger sample never gets a smaller colour index. */
  lemma ScaledIndexMonotone(t: SampleType, mapLen: nat, min: nat, max: nat, v: nat, v': nat)
    requires 0 < mapLen && min < max && min <= v <= v'
    ensures ScaledIndex(t, mapLen, min, max, v) <= ScaledIndex(t, mapLen, min, max, v')
  {
    MulMonotone(v - min, v' - min, SlopeOf(t, mapLen, min, max));
  }

  /** The maximum gets the last table entry exactly when `max - min`
      divides `len - 1` (for a table whose last index fits the sample
      type); otherwise the top of the table is never used. */
  lemma MaximumGetsLastEntryIff(t: SampleType, mapLen: nat, min: nat, max: nat)
    requires 0 < mapLen <= Limit(t) && min < max
    ensures ScaledIndex(t, mapLen, min, max, max) == mapLen - 1 <==> (mapLen - 1) % (max - min) == 0
  {
    var top, d := mapLen - 1, max - min;
    assert FromUsize(t, top) == top;
    assert top == (top / d) * d + top % d;
  }

  /** The slope is 0, so that every sample in range gets table entry 0,
      exactly when the table has fewer entries than the range has steps
      (the concern of the TODO note in the source). */
  lemma ShortTableGivesFirstEntryIff(t: SampleType, mapLen: nat, min: nat, max: nat)
    requires 0 < mapLen <= Limit(t) && min < max
    ensures (forall v :: min <= v <= max ==> ScaledIndex(t, mapLen, min, max, v) == 0)
      <==> mapLen - 1 < max - min
  {
    var top, d := mapLen - 1, max - min;
    assert FromUsize(t, top) == top;
    SmallQuotient(top, d);
    if top >= d {
      var s := SlopeOf(t, mapLen, min, max);
      AtLeastOneMultiple(s, d);
      assert ScaledIndex(t, mapLen, min, max, max) != 0;
    }
  }

  /** The quotient is 0 exactly when the dividend is below the divisor. */
  lemma SmallQuotient(n: nat, d: nat)
    requires d > 0
    ensures n / d == 0 <==> n < d
  {
    if n < d {
      DivModUnique(d, n, 0, n);
    } else {
      var q, r := n / d, n % d;
      assert n == q * d + r;
    }
  }

  // ---------------------------------------------------------------------
  // The whole call
  // ---------------------------------------------------------------------

  /** The (min, max) pair a call resolves, when there is one. */
  function Bounds(range: DataRange, data: seq<nat>): (nat, nat)
    requires |data| > 0 || range.MinMax?
  {
    ResolveRange(range, data).value
  }

  /** The call gets past its early returns into the pixel loops. */
  ghost predicate ReachesLoops(cfg: Config, w: U32, h: U32, data: seq<nat>, colorMap: seq<Rgb>, range: DataRange)
  {
    w * h == |data| && |data| > 0 &&
    Bounds(range, data).0 < Bounds(range, data).1 &&
    MakeTransform(cfg, |colorMap|, Bounds(range, data).0, Bounds(range, data).1).Ok?
  }

  /** What the pixel loops of such a call work on. */
  ghost function LoopJob(cfg: Config, w: U32, h: U32, data: seq<nat>, colorMap: seq<Rgb>, range: DataRange): (job: Job)
    requires ReachesLoops(cfg, w, h, data, colorMap, range)
    ensures Colored(cfg, w, h, data, colorMap, range) == Rows(PixelsOf(job), w, h)
    ensures job.cfg == cfg && job.w == w && job.h == h && job.data == data && job.colorMap == colorMap
    ensures MakeTransform(cfg, |colorMap|, Bounds(range, data).0, Bounds(range, data).1) == Ok(job.tr)
    ensures job.tr.min == Bounds(range, data).0 && job.tr.max == Bounds(range, data).1
  {
    Job(cfg, w, h, data, colorMap, MakeTransform(cfg, |colorMap|, Bounds(range, data).0, Bounds(range, data).1).value)
  }

  /** The panics that the computation of one pixel can end in. */
  predicate IsPixelPanic(e: Panic)
  {
    e.ArithmeticOverflow? || e.DataIndexOutOfBounds? || e.SampleBelowMin? ||
    e.SampleAboveMax? || e.ColorIndexOutOfBounds?
  }

  /** A pixel can only panic in the pixel loop's own ways. */
  lemma PixelPanics(job: Job, x: nat, y: nat)
    ensures PixelColor(job, x, y).Err? ==> IsPixelPanic(PixelColor(job, x, y).error)
  {
  }

  /** When the pixel loops panic, it is with a pixel's panic. */
  lemma LoopPanics(job: Job)
    requires Rows(PixelsOf(job), job.w, job.h).Err?
    ensures IsPixelPanic(Rows(PixelsOf(job), job.w, job.h).error)
  {
    RowsFirstPanic(PixelsOf(job), job.w, job.h);
    var yy: nat, xx: nat :| yy < job.h && xx < job.w &&
      PixelColor(job, xx, yy) == Err(Rows(PixelsOf(job), job.w, job.h).error) && EarlierPixelsOk(PixelsOf(job), job.w, xx, yy);
    PixelPanics(job, xx, yy);
  }

  /** `color` panics on its length check exactly when `w * h` differs from
      the number of samples. */
  lemma LengthMismatchIff(cfg: Config, w: U32, h: U32, data: seq<nat>, colorMap: seq<Rgb>, range: DataRange)
    ensures Colored(cfg, w, h, data, colorMap, range) == Err(LengthMismatch) <==> w * h != |data|
  {
    if ReachesLoops(cfg, w, h, data, colorMap, range) {
      var job := LoopJob(cfg, w, h, data, colorMap, range);
      if Rows(PixelsOf(job), w, h).Err? {
        LoopPanics(job);
      }
    }
  }

  /** `color` panics on `min <= max` exactly when the lengths agree, there
      are samples, and an explicit range has min > max: an automatic range
      is never inverted. */
  lemma RangeInvertedIff(cfg: Config, w: U32, h: U32, data: seq<nat>, colorMap: seq<Rgb>, range: DataRange)
    ensures Colored(cfg, w, h, data, colorMap, range) == Err(RangeInverted) <==>
      w * h == |data| && |data| > 0 && range.MinMax? && range.min > range.max
  {
    if ReachesLoops(cfg, w, h, data, colorMap, range) {
      var job := LoopJob(cfg, w, h, data, colorMap, range);
      if Rows(PixelsOf(job), w, h).Err? {
        LoopPanics(job);
      }
    }
  }

  /** Without samples, or without contrast (min == max), `color` returns the
      zeroed w by h raster, whatever the colour table. */
  lemma BlankWithoutContrast(cfg: Config, w: U32, h: U32, data: seq<nat>, colorMap: seq<Rgb>, range: DataRange)
    requires w * h == |data|
    requires |data| == 0 || Bounds(range, data).0 == Bounds(range, data).1
    ensures Colored(cfg, w, h, data, colorMap, range) == Ok(Blank(w * h))
    ensures forall k :: 0 <= k < w * h ==> Colored(cfg, w, h, data, colorMap, range).value[k] == Black
  {
  }

  /** An automatic range is exactly the smallest and the largest sample. */
  lemma AutomaticBounds(data: seq<nat>, lo: nat, hi: nat)
    requires lo in data && hi in data
    requires forall i :: 0 <= i < |data| ==> lo <= data[i] <= hi
    ensures Bounds(Automatic, data) == (lo, hi)
  {
    var b := Bounds(Automatic, data);
    var i :| 0 <= i < |data| && data[i] == lo;
    var j :| 0 <= j < |data| && data[j] == hi;
    assert b.0 <= data[i] && data[j] <= b.1;
  }

  /** Samples that are all equal have no contrast under `Automatic`, so
      the raster stays zeroed. */
  lemma FlatDataIsBlank(cfg: Config, w: U32, h: U32, data: seq<nat>, colorMap: seq<Rgb>)
    requires w * h == |data| > 0
    requires forall i :: 0 <= i < |data| ==> data[i] == data[0]
    ensures Colored(cfg, w, h, data, colorMap, Automatic) == Ok(Blank(w * h))
  {
    var b := Bounds(Automatic, data);
    assert b.0 == data[0] == b.1;
  }

  // ---------------------------------------------------------------------
  // Which sample each pixel shows
  // ---------------------------------------------------------------------

  /** The cell of the sample buffer that pixel (x, y) reads, in exact
      arithmetic: `y * h + x` as the source writes it, `y * w + x` with the
      row-major stride. */
  function SourceCell(cfg: Config, w: nat, h: nat, x: nat, y: nat): nat
  {
    y * (if cfg.stride == ByHeight then h else w) + x
  }

  /** No pixel's sample offset wraps around in u32. */
  ghost predicate OffsetsFit(cfg: Config, w: nat, h: nat)
  {
    forall y: nat, x: nat :: y < h && x < w ==> SourceCell(cfg, w, h, x, y) < U32_LIMIT
  }

  /** The samples are read in row-major order: with the row-major stride,
      or with the source's stride on a square raster. */
  predicate ReadsRowMajor(cfg: Config, w: nat, h: nat)
  {
    cfg.stride == ByWidth || w == h
  }

  /** The u32 computation of the sample offset gives the exact cell when
      that fits, and a debug build never yields a wrapped offset. */
  lemma SampleOffsetExact(cfg: Config, w: nat, h: nat, x: nat, y: nat)
    ensures SourceCell(cfg, w, h, x, y) < U32_LIMIT ==>
      SampleOffset(cfg, w, h, x, y) == Ok(SourceCell(cfg, w, h, x, y))
    ensures cfg.build == Debug && SampleOffset(cfg, w, h, x, y).Ok? ==>
      SampleOffset(cfg, w, h, x, y) == Ok(SourceCell(cfg, w, h, x, y))
  {
    var stride := if cfg.stride == ByHeight then h else w;
    assert 0 <= y * stride;
  }

  /** Read in row-major order, pixel (x, y) reads cell `y * w + x`, and on
      a raster of at most 2^32 pixels no offset wraps around. */
  lemma RowMajorCells(cfg: Config, w: nat, h: nat)
    requires ReadsRowMajor(cfg, w, h) && w * h <= U32_LIMIT
    ensures OffsetsFit(cfg, w, h)
    ensures forall y: nat, x: nat :: y < h && x < w ==>
      SourceCell(cfg, w, h, x, y) == y * w + x < w * h
  {
    forall y: nat, x: nat | y < h && x < w
      ensures SourceCell(cfg, w, h, x, y) == y * w + x < w * h
    {
      CellIndex(w, h, x, y);
    }
  }

  /** What a pixel that computes a colour shows: the table entry of the
      scaled sample at its source cell, which lies in [min, max]. */
  lemma PixelShows(job: Job, x: nat, y: nat)
    requires job.tr.min < job.tr.max && |job.colorMap| <= USIZE_LIMIT
    requires MakeTransform(job.cfg, |job.colorMap|, job.tr.min, job.tr.max) == Ok(job.tr)
    requires PixelColor(job, x, y).Ok?
    requires job.cfg.build == Debug || SourceCell(job.cfg, job.w, job.h, x, y) < U32_LIMIT
    requires job.cfg.build == Debug ||
      forall i :: 0 <= i < |job.data| ==> job.tr.min <= job.data[i] <= job.tr.max
    ensures 0 < |job.colorMap|
    ensures SourceCell(job.cfg, job.w, job.h, x, y) < |job.data|
    ensures job.tr.min <= job.data[SourceCell(job.cfg, job.w, job.h, x, y)] <= job.tr.max
    ensures PixelColor(job, x, y).value == job.colorMap[
      ScaledIndex(job.cfg.sample, |job.colorMap|, job.tr.min, job.tr.max,
                  job.data[SourceCell(job.cfg, job.w, job.h, x, y)])]
  {
    SampleOffsetExact(job.cfg, job.w, job.h, x, y);
    var k := SourceCell(job.cfg, job.w, job.h, x, y);
    assert SampleOffset(job.cfg, job.w, job.h, x, y) == Ok(k);
    var v := job.data[k];
    ColorIndexExact(job.cfg, |job.colorMap|, job.tr.min, job.tr.max, v);
    var i := ScaledIndex(job.cfg.sample, |job.colorMap|, job.tr.min, job.tr.max, v);
    assert ColorIndex(job.cfg, job.tr, v) == Ok(i);
    assert PixelColor(job, x, y) == Ok(job.colorMap[i]);
  }

  /** A pixel computes a colour when its source cell is inside the buffer,
      its sample is in range, and (in a debug build) `slope * v` fits the
      sample type. */
  lemma PixelSucceeds(job: Job, x: nat, y: nat)
    requires job.tr.min < job.tr.max && 0 < |job.colorMap| <= USIZE_LIMIT
    requires MakeTransform(job.cfg, |job.colorMap|, job.tr.min, job.tr.max) == Ok(job.tr)
    requires SourceCell(job.cfg, job.w, job.h, x, y) < U32_LIMIT
    requires SourceCell(job.cfg, job.w, job.h, x, y) < |job.data|
    requires job.tr.min <= job.data[SourceCell(job.cfg, job.w, job.h, x, y)] <= job.tr.max
    requires job.cfg.build == Debug ==>
      SlopeOf(job.cfg.sample, |job.colorMap|, job.tr.min, job.tr.max) *
        job.data[SourceCell(job.cfg, job.w, job.h, x, y)] < Limit(job.cfg.sample)
    ensures PixelColor(job, x, y).Ok?
  {
    SampleOffsetExact(job.cfg, job.w, job.h, x, y);
    var v := job.data[SourceCell(job.cfg, job.w, job.h, x, y)];
    ColorIndexExact(job.cfg, |job.colorMap|, job.tr.min, job.tr.max, v);
  }

  /** Cell `y * w + x` of `img` holds the table entry of the sample that
      pixel (x, y) reads, and that sample lies in [lo, hi]. */
  ghost predicate ShowsSample(cfg: Config, w: nat, h: nat, data: seq<nat>, colorMap: seq<Rgb>,
                              lo: nat, hi: nat, img: seq<Rgb>, x: nat, y: nat)
  {
    0 < |colorMap| && lo < hi &&
    0 <= y * w + x < |img| && SourceCell(cfg, w, h, x, y) < |data| &&
    lo <= data[SourceCell(cfg, w, h, x, y)] <= hi &&
    img[y * w + x] == colorMap[ScaledIndex(cfg.sample, |colorMap|, lo, hi, data[SourceCell(cfg, w, h, x, y)])]
  }

  /** Each pixel (x, y) of the returned raster, at cell `y * w + x`, is the
      table entry `((len - 1) / (max - min)) * (v - min)` of the sample v
      at the pixel's source cell `y * h + x` (with the source's stride), and
      that sample lies in [min, max]. A release build is taken with its
      debug checks absent, so it needs the samples in range and the offsets
      unwrapped, which `Automatic` and a raster of at most 2^32 pixels give. */
  lemma ColoredPixels(cfg: Config, w: U32, h: U32, data: seq<nat>, colorMap: seq<Rgb>, range: DataRange)
    requires ReachesLoops(cfg, w, h, data, colorMap, range)
    requires Colored(cfg, w, h, data, colorMap, range).Ok?
    requires |colorMap| <= USIZE_LIMIT
    requires cfg.build == Debug || OffsetsFit(cfg, w, h)
    requires cfg.build == Debug ||
      forall i :: 0 <= i < |data| ==> Bounds(range, data).0 <= data[i] <= Bounds(range, data).1
    ensures |Colored(cfg, w, h, data, colorMap, range).value| == w * h
    ensures forall y: nat, x: nat :: y < h && x < w ==>
      ShowsSample(cfg, w, h, data, colorMap, Bounds(range, data).0, Bounds(range, data).1,
                  Colored(cfg, w, h, data, colorMap, range).value, x, y)
    ensures ReadsRowMajor(cfg, w, h) ==>
      forall y: nat, x: nat :: y < h && x < w ==> SourceCell(cfg, w, h, x, y) == y * w + x
  {
    var img := Colored(cfg, w, h, data, colorMap, range).value;
    var lo, hi := Bounds(range, data).0, Bounds(range, data).1;
    assert 0 < w && 0 < h;
    ColoredPixel(cfg, w, h, data, colorMap, range, 0, 0);
    forall y: nat, x: nat | y < h && x < w
      ensures ShowsSample(cfg, w, h, data, colorMap, lo, hi, img, x, y)
    {
      ColoredPixel(cfg, w, h, data, colorMap, range, x, y);
    }
  }

  /** `ColoredPixels` for one pixel. */
  lemma ColoredPixel(cfg: Config, w: U32, h: U32, data: seq<nat>, colorMap: seq<Rgb>, range: DataRange, x: nat, y: nat)
    requires ReachesLoops(cfg, w, h, data, colorMap, range)
    requires Colored(cfg, w, h, data, colorMap, range).Ok?
    requires |colorMap| <= USIZE_LIMIT && x < w && y < h
    requires cfg.build == Debug || OffsetsFit(cfg, w, h)
    requires cfg.build == Debug ||
      forall i :: 0 <= i < |data| ==> Bounds(range, data).0 <= data[i] <= Bounds(range, data).1
    ensures |Colored(cfg, w, h, data, colorMap, range).value| == w * h
    ensures ShowsSample(cfg, w, h, data, colorMap, Bounds(range, data).0, Bounds(range, data).1,
                        Colored(cfg, w, h, data, colorMap, range).value, x, y)
  {
    var job := LoopJob(cfg, w, h, data, colorMap, range);
    PaintedPixel(job, Colored(cfg, w, h, data, colorMap, range).value, x, y);
  }

  /** One pixel of the raster the loops paint: `PixelShows` read at the
      pixel's cell. */
  lemma PaintedPixel(job: Job, img: seq<Rgb>, x: nat, y: nat)
    requires Rows(PixelsOf(job), job.w, job.h) == Ok(img) && x < job.w && y < job.h
    requires job.tr.min < job.tr.max && |job.colorMap| <= USIZE_LIMIT
    requires MakeTransform(job.cfg, |job.colorMap|, job.tr.min, job.tr.max) == Ok(job.tr)
    requires job.cfg.build == Debug || OffsetsFit(job.cfg, job.w, job.h)
    requires job.cfg.build == Debug ||
      forall i :: 0 <= i < |job.data| ==> job.tr.min <= job.data[i] <= job.tr.max
    ensures |img| == job.w * job.h
    ensures ShowsSample(job.cfg, job.w, job.h, job.data, job.colorMap, job.tr.min, job.tr.max, img, x, y)
  {
    RowsLayout(PixelsOf(job), job.w, job.h);
    assert CellHolds(PixelsOf(job), job.w, img, x, y);
    PixelShows(job, x, y);
  }

  // ---------------------------------------------------------------------
  // When the pixel loops finish
  // ---------------------------------------------------------------------

  /** The slope and offset are computed without panic exactly in a release
      build, or in a debug build when the table is not empty and
      `slope * min` fits the sample type. */
  lemma MakeTransformOkIff(cfg: Config, mapLen: nat, min: nat, max: nat)
    requires min < max && mapLen <= USIZE_LIMIT
    ensures MakeTransform(cfg, mapLen, min, max).Ok? <==>
      cfg.build == Release ||
      (0 < mapLen && SlopeOf(cfg.sample, mapLen, min, max) * min < Limit(cfg.sample))
    ensures 0 < mapLen && MakeTransform(cfg, mapLen, min, max).Ok? ==>
      MakeTransform(cfg, mapLen, min, max).value.slope == SlopeOf(cfg.sample, mapLen, min, max)
  {
    if 0 < mapLen {
      assert Sub(cfg.build, USIZE_LIMIT, mapLen, 1) == Ok(mapLen - 1);
    }
  }

  /** A sample at a given cell of a w by h buffer is read by some pixel
      when the samples are read in row-major order. */
  lemma CellOfPixel(w: nat, h: nat, k: nat) returns (x: nat, y: nat)
    requires k < w * h
    ensures x < w && y < h && y * w + x == k
  {
    x, y := k % w, k / w;
    assert k == y * w + x;
    if y >= h {
      MulMonotone(h, y, w);
    }
  }

  /** A release build with an automatic range never panics past the length
      check, provided the samples are read in row-major order and the
      raster has at most 2^32 pixels and the table is not empty. */
  lemma ReleaseAutomaticNeverPanics(cfg: Config, w: U32, h: U32, data: seq<nat>, colorMap: seq<Rgb>)
    requires cfg.build == Release && ReadsRowMajor(cfg, w, h)
    requires w * h == |data| <= U32_LIMIT && 0 < |colorMap| <= USIZE_LIMIT
    ensures Colored(cfg, w, h, data, colorMap, Automatic).Ok?
  {
    if |data| > 0 && Bounds(Automatic, data).0 < Bounds(Automatic, data).1 {
      assert ReachesLoops(cfg, w, h, data, colorMap, Automatic);
      var job := LoopJob(cfg, w, h, data, colorMap, Automatic);
      RowMajorCells(cfg, w, h);
      forall y: nat, x: nat | y < h && x < w
        ensures PixelColor(job, x, y).Ok?
      {
        PixelSucceeds(job, x, y);
      }
      RowsOk(PixelsOf(job), w, h);
    }
  }

  /** A debug build with an automatic range and some contrast computes the
      raster exactly when `slope * max` fits the sample type (for samples
      read in row-major order, a raster of at most 2^32 pixels and a
      non-empty table): the largest sample is the one whose product
      overflows first. */
  lemma DebugAutomaticOkIff(cfg: Config, w: U32, h: U32, data: seq<nat>, colorMap: seq<Rgb>)
    requires cfg.build == Debug && ReadsRowMajor(cfg, w, h)
    requires w * h == |data| <= U32_LIMIT && 0 < |colorMap| <= USIZE_LIMIT
    requires |data| > 0 && Bounds(Automatic, data).0 < Bounds(Automatic, data).1
    ensures Colored(cfg, w, h, data, colorMap, Automatic).Ok? <==>
      SlopeOf(cfg.sample, |colorMap|, Bounds(Automatic, data).0, Bounds(Automatic, data).1)
        * Bounds(Automatic, data).1 < Limit(cfg.sample)
  {
    var lo, hi := Bounds(Automatic, data).0, Bounds(Automatic, data).1;
    var s := SlopeOf(cfg.sample, |colorMap|, lo, hi);
    MakeTransformOkIff(cfg, |colorMap|, lo, hi);
    MulMonotone(lo, hi, s);
    assert lo * s == s * lo && hi * s == s * hi;
    RowMajorCells(cfg, w, h);
    if s * hi < Limit(cfg.sample) {
      assert ReachesLoops(cfg, w, h, data, colorMap, Automatic);
      var job := LoopJob(cfg, w, h, data, colorMap, Automatic);
      forall y: nat, x: nat | y < h && x < w
        ensures PixelColor(job, x, y).Ok?
      {
        var v := data[SourceCell(cfg, w, h, x, y)];
        MulMonotone(v, hi, s);
        assert v * s == s * v;
        PixelSucceeds(job, x, y);
      }
      RowsOk(PixelsOf(job), w, h);
    } else if ReachesLoops(cfg, w, h, data, colorMap, Automatic) {
      var job := LoopJob(cfg, w, h, data, colorMap, Automatic);
      var k :| 0 <= k < |data| && data[k] == hi;
      var x, y := CellOfPixel(w, h, k);
      SampleOffsetExact(cfg, w, h, x, y);
      ColorIndexExact(cfg, |colorMap|, lo, hi, hi);
      assert PixelColor(job, x, y).Err?;
      RowsOk(PixelsOf(job), w, h);
    }
  }

  /** A debug build panics on overflow before any pixel is drawn when
      `slope * min` does not fit the sample type. */
  lemma DebugOffsetOverflowPanics(cfg: Config, w: U32, h: U32, data: seq<nat>, colorMap: seq<Rgb>, range: DataRange)
    requires cfg.build == Debug && w * h == |data| > 0 && 0 < |colorMap| <= USIZE_LIMIT
    requires Bounds(range, data).0 < Bounds(range, data).1
    requires SlopeOf(cfg.sample, |colorMap|, Bounds(range, data).0, Bounds(range, data).1)
      * Bounds(range, data).0 >= Limit(cfg.sample)
    ensures Colored(cfg, w, h, data, colorMap, range) == Err(ArithmeticOverflow)
  {
    MakeTransformOkIff(cfg, |colorMap|, Bounds(range, data).0, Bounds(range, data).1);
  }
}
