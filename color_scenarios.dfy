/** Worked calls of the model of `color` (lib/src/image.rs) on small
    rasters: the integer slope of a short table, overflow of the offset in
    the sample type, the truncating cast of `len - 1`, and the row stride. */
module ColorScenarios {
  import opened Machine
  import opened Raster
  import opened Image
  import opened ColorProperties

  const White: Rgb := Rgb(255, 255, 255)

  /** The two pixels of a 2 by 1 raster. */
  lemma TwoPixels(pixel: Pixels)
    requires pixel(0, 0).Ok? && pixel(1, 0).Ok?
    ensures Rows(pixel, 2, 1) == Ok([pixel(0, 0).value, pixel(1, 0).value])
  {
    assert RowPrefix(pixel, 2, 0, 0) == Ok([]);
    RowPrefixStep(pixel, 2, 0, 0);
    assert [] + [pixel(0, 0).value] == [pixel(0, 0).value];
    RowPrefixStep(pixel, 2, 0, 1);
    assert [pixel(0, 0).value] + [pixel(1, 0).value] == [pixel(0, 0).value, pixel(1, 0).value];
    assert Rows(pixel, 2, 1) == RowPrefix(pixel, 2, 0, 2);
  }

  /** A range of 255 steps and a table of two entries: the slope
      `(2 - 1) / 255` is 0, so both ends of the range get the first entry. */
  lemma TwoEntryTableStaysOnFirstEntry(cfg: Config)
    requires cfg.sample == Uint8
    ensures Colored(cfg, 2, 1, [0, 255], [Black, White], MinMax(0, 255)) == Ok([Black, Black])
  {
    var tr := Transform(0, 255, 0, 0);
    assert MakeTransform(cfg, 2, 0, 255) == Ok(tr);
    var job := Job(cfg, 2, 1, [0, 255], [Black, White], tr);
    assert PixelColor(job, 0, 0) == Ok(Black);
    assert PixelColor(job, 1, 0) == Ok(Black);
    TwoPixels(PixelsOf(job));
  }

  /** With eight-bit samples, a table of 256 entries and the range
      [254, 255], the slope is 255 and the offset `255 * 254` does not fit
      in a byte: a debug build panics before painting. */
  lemma DebugOffsetOverflows(cfg: Config, colorMap: seq<Rgb>)
    requires cfg.sample == Uint8 && cfg.build == Debug && |colorMap| == 256
    ensures Colored(cfg, 2, 1, [254, 255], colorMap, MinMax(254, 255)) == Err(ArithmeticOverflow)
  {
    assert Sub(cfg.build, USIZE_LIMIT, 256, 1) == Ok(255);
    assert Mul(cfg.build, 256, 255, 254) == Err(ArithmeticOverflow);
  }

  /** The same call in a release build: both products wrap around modulo
      256 and their difference still gives the first and the last entry. */
  lemma ReleaseOffsetWraps(cfg: Config, colorMap: seq<Rgb>)
    requires cfg.sample == Uint8 && cfg.build == Release && |colorMap| == 256
    ensures Colored(cfg, 2, 1, [254, 255], colorMap, MinMax(254, 255)) == Ok([colorMap[0], colorMap[255]])
  {
    assert Sub(cfg.build, USIZE_LIMIT, 256, 1) == Ok(255);
    var tr := Transform(254, 255, 255, 2);
    assert MakeTransform(cfg, 256, 254, 255) == Ok(tr);
    var job := Job(cfg, 2, 1, [254, 255], colorMap, tr);
    assert SampleOffset(cfg, 2, 1, 0, 0) == Ok(0);
    assert SampleOffset(cfg, 2, 1, 1, 0) == Ok(1);
    assert ColorIndex(cfg, tr, 254) == Ok(0);
    assert ColorIndex(cfg, tr, 255) == Ok(255);
    assert PixelColor(job, 0, 0) == Ok(colorMap[0]);
    assert PixelColor(job, 1, 0) == Ok(colorMap[255]);
    TwoPixels(PixelsOf(job));
  }

  /** With eight-bit samples, `len - 1 = 256` is cast to 0: a table of 257
      entries gives slope 0 and only its first entry, where one of 256
      entries spans the whole table. */
  lemma LongTableTruncates(cfg: Config, colorMap: seq<Rgb>)
    requires cfg.sample == Uint8 && |colorMap| == 257
    ensures Colored(cfg, 2, 1, [0, 1], colorMap, Automatic) == Ok([colorMap[0], colorMap[0]])
    ensures Colored(cfg, 2, 1, [0, 1], colorMap[..256], Automatic) == Ok([colorMap[0], colorMap[255]])
  {
    var data := [0, 1];
    assert data[0] == 0 && data[1] == 1;
    AutomaticBounds(data, 0, 1);
    assert Sub(cfg.build, USIZE_LIMIT, 257, 1) == Ok(256);
    assert Sub(cfg.build, USIZE_LIMIT, 256, 1) == Ok(255);
    assert SampleOffset(cfg, 2, 1, 0, 0) == Ok(0);
    assert SampleOffset(cfg, 2, 1, 1, 0) == Ok(1);
    var long := Transform(0, 1, 0, 0);
    assert MakeTransform(cfg, 257, 0, 1) == Ok(long);
    var job := Job(cfg, 2, 1, data, colorMap, long);
    assert ColorIndex(cfg, long, 0) == Ok(0) && ColorIndex(cfg, long, 1) == Ok(0);
    assert PixelColor(job, 0, 0) == Ok(colorMap[0]);
    assert PixelColor(job, 1, 0) == Ok(colorMap[0]);
    TwoPixels(PixelsOf(job));
    var short := Transform(0, 1, 255, 0);
    assert MakeTransform(cfg, 256, 0, 1) == Ok(short);
    var job' := Job(cfg, 2, 1, data, colorMap[..256], short);
    assert ColorIndex(cfg, short, 0) == Ok(0) && ColorIndex(cfg, short, 1) == Ok(255);
    assert PixelColor(job', 0, 0) == Ok(colorMap[0]);
    assert PixelColor(job', 1, 0) == Ok(colorMap[255]);
    TwoPixels(PixelsOf(job'));
  }

  // ---------------------------------------------------------------------
  // The row stride
  // ---------------------------------------------------------------------

  /** The pixels of a `w` by 2 raster, when all of them compute a colour,
      row 0 first. */
  lemma TwoRows(pixel: Pixels, w: nat, s: seq<Rgb>)
    requires |s| == 2 * w
    requires forall yy: nat, xx: nat :: yy < 2 && xx < w ==> pixel(xx, yy).Ok? && s[yy * w + xx] == pixel(xx, yy).value
    ensures Rows(pixel, w, 2) == Ok(s)
  {
    RowsOk(pixel, w, 2);
    RowsLayout(pixel, w, 2);
    var r := Rows(pixel, w, 2).value;
    assert |r| == |s|;
    forall k | 0 <= k < |s|
      ensures r[k] == s[k]
    {
      var xx, yy := CellOfPixel(w, 2, k);
      assert CellHolds(pixel, w, r, xx, yy);
    }
    assert r == s;
  }

  /** On a raster one pixel wide and two high, the source's stride `y * h`
      reads cell 2 of a buffer of two samples for pixel (0, 1): the call
      panics on the bounds check, in either build. */
  lemma NarrowRasterReadsPastData(cfg: Config)
    requires cfg.stride == ByHeight && cfg.sample == Uint8
    ensures Colored(cfg, 1, 2, [0, 1], [Black, White], Automatic) == Err(DataIndexOutOfBounds)
  {
    var data := [0, 1];
    assert data[0] == 0 && data[1] == 1;
    AutomaticBounds(data, 0, 1);
    assert Sub(cfg.build, USIZE_LIMIT, 2, 1) == Ok(1);
    var tr := Transform(0, 1, 1, 0);
    assert MakeTransform(cfg, 2, 0, 1) == Ok(tr);
    var job := Job(cfg, 1, 2, data, [Black, White], tr);
    assert SampleOffset(cfg, 1, 2, 0, 0) == Ok(0);
    assert ColorIndex(cfg, tr, 0) == Ok(0);
    assert PixelColor(job, 0, 0) == Ok(Black);
    assert SampleOffset(cfg, 1, 2, 0, 1) == Ok(2);
    assert PixelColor(job, 0, 1) == Err(DataIndexOutOfBounds);
    var pixel := PixelsOf(job);
    assert RowPrefix(pixel, 1, 0, 0) == Ok([]);
    RowPrefixStep(pixel, 1, 0, 0);
    assert [] + [Black] == [Black];
    assert Rows(pixel, 1, 1) == RowPrefix(pixel, 1, 0, 1) == Ok([Black]);
    assert RowPrefix(pixel, 1, 1, 0) == Rows(pixel, 1, 1);
    RowPrefixStep(pixel, 1, 1, 0);
    assert Rows(pixel, 1, 2) == RowPrefix(pixel, 1, 1, 1);
  }

  /** With the row-major stride the same call paints both samples. */
  lemma NarrowRasterRowMajor(cfg: Config)
    requires cfg.stride == ByWidth && cfg.sample == Uint8
    ensures Colored(cfg, 1, 2, [0, 1], [Black, White], Automatic) == Ok([Black, White])
  {
    var data := [0, 1];
    assert data[0] == 0 && data[1] == 1;
    AutomaticBounds(data, 0, 1);
    assert Sub(cfg.build, USIZE_LIMIT, 2, 1) == Ok(1);
    var tr := Transform(0, 1, 1, 0);
    assert MakeTransform(cfg, 2, 0, 1) == Ok(tr);
    var job := Job(cfg, 1, 2, data, [Black, White], tr);
    assert SampleOffset(cfg, 1, 2, 0, 0) == Ok(0);
    assert SampleOffset(cfg, 1, 2, 0, 1) == Ok(1);
    assert ColorIndex(cfg, tr, 0) == Ok(0) && ColorIndex(cfg, tr, 1) == Ok(1);
    assert PixelColor(job, 0, 0) == Ok(Black);
    assert PixelColor(job, 0, 1) == Ok(White);
    TwoRows(PixelsOf(job), 1, [Black, White]);
  }

  /** A pixel under the transform of slope 1 and offset 0 shows the table
      entry numbered by its sample. */
  lemma UnitSlopePixel(job: Job, x: nat, y: nat, k: nat)
    requires job.tr.slope == 1 && job.tr.offset == 0
    requires SourceCell(job.cfg, job.w, job.h, x, y) == k < U32_LIMIT
    requires k < |job.data| && job.data[k] == k && job.tr.min <= k <= job.tr.max
    requires k < Limit(job.cfg.sample) && k < |job.colorMap|
    ensures PixelsOf(job)(x, y) == Ok(job.colorMap[k])
  {
    SampleOffsetExact(job.cfg, job.w, job.h, x, y);
    assert ColorIndex(job.cfg, job.tr, k) == Ok(k);
  }

  /** Cell k of the samples 0 .. 5 holds k. */
  lemma SampleIsItsCell(k: nat)
    requires k < 6
    ensures [0, 1, 2, 3, 4, 5][k] == k
  {
  }

  /** The call on samples 0 .. 5 and a table of six entries reaches the
      pixel loops with slope 1 and offset 0. */
  lemma SixSamples(cfg: Config, w: U32, h: U32, m: seq<Rgb>) returns (job: Job)
    requires cfg.sample == Uint8 && |m| == 6 && w * h == 6
    ensures job == Job(cfg, w, h, [0, 1, 2, 3, 4, 5], m, Transform(0, 5, 1, 0))
    ensures Colored(cfg, w, h, [0, 1, 2, 3, 4, 5], m, Automatic) == Rows(PixelsOf(job), w, h)
  {
    var data := [0, 1, 2, 3, 4, 5];
    assert data[0] == 0 && data[5] == 5;
    AutomaticBounds(data, 0, 5);
    assert Sub(cfg.build, USIZE_LIMIT, 6, 1) == Ok(5);
    assert MakeTransform(cfg, 6, 0, 5) == Ok(Transform(0, 5, 1, 0));
    job := LoopJob(cfg, w, h, data, m, Automatic);
  }

  /** On a raster three pixels wide and two high, the source's stride
      `y * h` makes row 1 start at sample 2 instead of 3: sample 2 is shown
      twice and sample 5 never. */
  lemma WideRasterRepeatsSamples(cfg: Config, m: seq<Rgb>)
    requires cfg.stride == ByHeight && cfg.sample == Uint8 && |m| == 6
    ensures Colored(cfg, 3, 2, [0, 1, 2, 3, 4, 5], m, Automatic) == Ok([m[0], m[1], m[2], m[2], m[3], m[4]])
  {
    var job := SixSamples(cfg, 3, 2, m);
    SixPixels(job);
  }

  /** With the row-major stride the same call shows every sample once, in
      order. */
  lemma WideRasterRowMajor(cfg: Config, m: seq<Rgb>)
    requires cfg.stride == ByWidth && cfg.sample == Uint8 && |m| == 6
    ensures Colored(cfg, 3, 2, [0, 1, 2, 3, 4, 5], m, Automatic) == Ok([m[0], m[1], m[2], m[3], m[4], m[5]])
  {
    var job := SixSamples(cfg, 3, 2, m);
    SixPixels(job);
  }

  /** The 3 by 2 raster of `SixSamples`: row 1 starts at sample 2 with the
      source's stride and at sample 3 with the row-major one. */
  lemma SixPixels(job: Job)
    requires job.w == 3 && job.h == 2 && job.data == [0, 1, 2, 3, 4, 5]
    requires job.tr == Transform(0, 5, 1, 0) && job.cfg.sample == Uint8 && |job.colorMap| == 6
    ensures job.cfg.stride == ByHeight ==>
      Rows(PixelsOf(job), 3, 2) == Ok([job.colorMap[0], job.colorMap[1], job.colorMap[2],
                                       job.colorMap[2], job.colorMap[3], job.colorMap[4]])
    ensures job.cfg.stride == ByWidth ==>
      Rows(PixelsOf(job), 3, 2) == Ok([job.colorMap[0], job.colorMap[1], job.colorMap[2],
                                       job.colorMap[3], job.colorMap[4], job.colorMap[5]])
  {
    var stride := if job.cfg.stride == ByHeight then 2 else 3;
    SixRows(job, stride);
  }

  /** The two rows of `SixPixels` for a given stride. */
  lemma SixRows(job: Job, stride: nat)
    requires job.w == 3 && job.h == 2 && job.data == [0, 1, 2, 3, 4, 5]
    requires job.tr == Transform(0, 5, 1, 0) && job.cfg.sample == Uint8 && |job.colorMap| == 6
    requires stride == (if job.cfg.stride == ByHeight then 2 else 3)
    ensures Rows(PixelsOf(job), 3, 2) == Ok([job.colorMap[0], job.colorMap[1], job.colorMap[2],
      job.colorMap[stride], job.colorMap[stride + 1], job.colorMap[stride + 2]])
  {
    var c := job.colorMap;
    var s := [c[0], c[1], c[2], c[stride], c[stride + 1], c[stride + 2]];
    forall yy: nat, xx: nat | yy < 2 && xx < 3
      ensures PixelsOf(job)(xx, yy).Ok? && s[yy * 3 + xx] == PixelsOf(job)(xx, yy).value
    {
      SixPixel(job, stride, xx, yy);
      SixCell(c, stride, s, xx, yy);
    }
    TwoRows(PixelsOf(job), 3, s);
  }

  /** Cell `y * 3 + x` of the raster of `SixRows` is entry `y * stride + x`. */
  lemma SixCell(c: seq<Rgb>, stride: nat, s: seq<Rgb>, x: nat, y: nat)
    requires |c| == 6 && stride <= 3 && x < 3 && y < 2
    requires s == [c[0], c[1], c[2], c[stride], c[stride + 1], c[stride + 2]]
    ensures y * stride + x < 6 && s[y * 3 + x] == c[y * stride + x]
  {
    if y == 1 {
      assert s[3 + x] == c[stride + x];
    }
  }

  /** Pixel (x, y) of `SixPixels` shows entry `y * stride + x`. */
  lemma SixPixel(job: Job, stride: nat, x: nat, y: nat)
    requires job.w == 3 && job.h == 2 && job.data == [0, 1, 2, 3, 4, 5]
    requires job.tr == Transform(0, 5, 1, 0) && job.cfg.sample == Uint8 && |job.colorMap| == 6
    requires stride == (if job.cfg.stride == ByHeight then 2 else 3)
    requires x < 3 && y < 2
    ensures y * stride + x < 6
    ensures PixelsOf(job)(x, y) == Ok(job.colorMap[y * stride + x])
  {
    var k := y * stride + x;
    assert SourceCell(job.cfg, 3, 2, x, y) == k < 6;
    SampleIsItsCell(k);
    UnitSlopePixel(job, x, y, k);
  }
}
