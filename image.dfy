/** The colormap routine `color` of lib/src/image.rs, instantiated with the
    unsigned sample types u8, u16 and u32: it resolves the value range of
    the samples, derives an integer affine map from sample values onto the
    indices of a colour table, and paints a fresh RGB raster with it. */
module Image {
  import opened Machine
  import opened Raster

  /** The unsigned integer types the routine is instantiated with. */
  datatype SampleType = Uint8 | Uint16 | Uint32

  /** The number of values of a sample type. */
  function Limit(t: SampleType): nat
  {
    match t
    case Uint8 => 0x100
    case Uint16 => 0x1_0000
    case Uint32 => 0x1_0000_0000
  }

  /** Which dimension the row offset of the sample buffer is computed from:
      the height, as the source writes it, or the width, as row-major order
      needs. */
  datatype Stride = ByHeight | ByWidth

  /** One instantiation of the routine: its sample type, the build profile
      and the row stride. */
  datatype Config = Config(sample: SampleType, build: Build, stride: Stride)

  /** Where the value range comes from. */
  datatype DataRange = Automatic | MinMax(min: nat, max: nat)

  /** `from_usize`: the cast `x as T`, which keeps the low bits. */
  function FromUsize(t: SampleType, x: nat): (r: nat)
    ensures r < Limit(t)
    ensures x < Limit(t) ==> r == x
    ensures r <= x && (x - r) % Limit(t) == 0
  {
    x % Limit(t)
  }

  /** `min` for unsigned samples: `a.iter().min().unwrap()`, which keeps
      the first of equal minima and panics on an empty slice. */
  function Minimum(a: seq<nat>): (r: Result<nat>)
    ensures r.Ok? <==> |a| > 0
    ensures r.Err? ==> r.error == EmptyReduction
    ensures r.Ok? ==> r.value in a && forall i :: 0 <= i < |a| ==> r.value <= a[i]
  {
    if |a| == 0 then Err(EmptyReduction)
    else
      var last := a[|a| - 1];
      match Minimum(a[..|a| - 1])
      case Err(_) => Ok(last)
      case Ok(m) => Ok(if m <= last then m else last)
  }

  /** `max` for unsigned samples: `a.iter().max().unwrap()`, which keeps
      the last of equal maxima and panics on an empty slice. */
  function Maximum(a: seq<nat>): (r: Result<nat>)
    ensures r.Ok? <==> |a| > 0
    ensures r.Err? ==> r.error == EmptyReduction
    ensures r.Ok? ==> r.value in a && forall i :: 0 <= i < |a| ==> a[i] <= r.value
  {
    if |a| == 0 then Err(EmptyReduction)
    else
      var last := a[|a| - 1];
      match Maximum(a[..|a| - 1])
      case Err(_) => Ok(last)
      case Ok(m) => Ok(if last >= m then last else m)
  }

  /** The (min, max) pair the routine works with: taken from the data for
      `Automatic`, as given for `MinMax`. An automatic range lies within the
      data and covers all of it. */
  function ResolveRange(range: DataRange, data: seq<nat>): (r: Result<(nat, nat)>)
    ensures range.MinMax? ==> r == Ok((range.min, range.max))
    ensures range.Automatic? ==> (r.Ok? <==> |data| > 0)
    ensures range.Automatic? && r.Ok? ==>
      r.value.0 in data && r.value.1 in data && r.value.0 <= r.value.1 &&
      forall i :: 0 <= i < |data| ==> r.value.0 <= data[i] <= r.value.1
  {
    match range
    case Automatic =>
      var lo :- Minimum(data);
      Ok((lo, Maximum(data).value))
    case MinMax(lo, hi) => Ok((lo, hi))
  }

  /** The affine map from sample values to colour indices:
      `index(v) = slope * v - offset`. */
  datatype Transform = Transform(min: nat, max: nat, slope: nat, offset: nat)

  /** `slope = from_usize(len - 1) / (max - min)` and `offset = slope * min`,
      the subtraction in usize and the product in the sample type. The
      difference `max - min` cannot overflow, because min < max. */
  function MakeTransform(cfg: Config, mapLen: nat, min: nat, max: nat): (r: Result<Transform>)
    requires min < max
    ensures r.Err? ==> r.error == ArithmeticOverflow && cfg.build == Debug
    ensures cfg.build == Debug && mapLen == 0 ==> r.Err?
    ensures r.Ok? ==> r.value.min == min && r.value.max == max
    ensures r.Ok? ==> r.value.slope * (max - min) < Limit(cfg.sample)
    ensures r.Ok? && 0 < mapLen ==> r.value.slope * (max - min) <= mapLen - 1
    ensures r.Ok? && 0 < mapLen <= Limit(cfg.sample) ==> r.value.slope == (mapLen - 1) / (max - min)
    ensures r.Ok? ==> r.value.offset == (r.value.slope * min) % Limit(cfg.sample)
  {
    var top :- Sub(cfg.build, USIZE_LIMIT, mapLen, 1);
    var slope := FromUsize(cfg.sample, top) / (max - min);
    SlopeBound(FromUsize(cfg.sample, top), max - min);
    var offset :- Mul(cfg.build, Limit(cfg.sample), slope, min);
    Ok(Transform(min, max, slope, offset))
  }

  /** The integer quotient times the divisor does not exceed the dividend. */
  lemma SlopeBound(top: nat, d: nat)
    requires d > 0
    ensures (top / d) * d <= top
  {
    assert top == (top / d) * d + top % d;
  }

  /** `slope * v - minus_y_offset`, both operations in the sample type. */
  function ColorIndex(cfg: Config, tr: Transform, v: nat): (r: Result<nat>)
    ensures r.Ok? ==> r.value < Limit(cfg.sample)
    ensures r.Err? ==> cfg.build == Debug && r.error == ArithmeticOverflow
  {
    var product :- Mul(cfg.build, Limit(cfg.sample), tr.slope, v);
    Sub(cfg.build, Limit(cfg.sample), product, tr.offset)
  }

  /** `y * h + x` (or `y * w + x`), computed in u32, the position in the
      sample buffer that pixel (x, y) is read from. */
  function SampleOffset(cfg: Config, w: nat, h: nat, x: nat, y: nat): (r: Result<nat>)
    ensures r.Ok? ==> r.value < U32_LIMIT
    ensures r.Err? ==> cfg.build == Debug && r.error == ArithmeticOverflow
  {
    var rowStart :- Mul(cfg.build, U32_LIMIT, y, if cfg.stride == ByHeight then h else w);
    Add(cfg.build, U32_LIMIT, rowStart, x)
  }

  /** Everything the pixel loop reads. */
  datatype Job = Job(cfg: Config, w: nat, h: nat, data: seq<nat>, colorMap: seq<Rgb>, tr: Transform)

  /** The body of the pixel loop for pixel (x, y): read the sample, check it
      against the range (debug build only), compute its colour index and
      look it up. */
  function PixelColor(job: Job, x: nat, y: nat): (r: Result<Rgb>)
    ensures r.Ok? ==> r.value in job.colorMap
  {
    var k :- SampleOffset(job.cfg, job.w, job.h, x, y);
    if k >= |job.data| then Err(DataIndexOutOfBounds)
    else
      var v := job.data[k];
      if job.cfg.build == Debug && v < job.tr.min then Err(SampleBelowMin)
      else if job.cfg.build == Debug && v > job.tr.max then Err(SampleAboveMax)
      else
        var i :- ColorIndex(job.cfg, job.tr, v);
        if i < |job.colorMap| then Ok(job.colorMap[i]) else Err(ColorIndexOutOfBounds)
  }

  /** The colour of each pixel (x, y) of a raster, or the panic its
      computation ends in. */
  type Pixels = (nat, nat) -> Result<Rgb>

  /** The pixel loop's body as a function of the pixel. */
  function PixelsOf(job: Job): (pixel: Pixels)
    ensures forall x: nat, y: nat :: pixel(x, y) == PixelColor(job, x, y)
  {
    (x: nat, y: nat) => PixelColor(job, x, y)
  }

  /** The pixels of rows 0 .. y-1 of a raster `w` pixels wide in the order
      the loops paint them, or the panic of the first pixel whose
      computation panics. */
  function Rows(pixel: Pixels, w: nat, y: nat): Result<seq<Rgb>>
    decreases y, 0
  {
    if y == 0 then Ok([]) else RowPrefix(pixel, w, y - 1, w)
  }

  /** The pixels of rows 0 .. y-1 followed by pixels 0 .. x-1 of row y. */
  function RowPrefix(pixel: Pixels, w: nat, y: nat, x: nat): Result<seq<Rgb>>
    decreases y, x + 1
  {
    if x == 0 then Rows(pixel, w, y)
    else
      var done :- RowPrefix(pixel, w, y, x - 1);
      var c :- pixel(x - 1, y);
      Ok(done + [c])
  }

  /** What `color(w, h, data, color_map, data_range)` returns, or the panic
      that ends it. */
  function Colored(cfg: Config, w: U32, h: U32, data: seq<nat>, colorMap: seq<Rgb>, range: DataRange)
    : Result<seq<Rgb>>
  {
    if w * h != |data| then Err(LengthMismatch)
    else if |data| == 0 then Ok(Blank(w * h))
    else
      var bounds :- ResolveRange(range, data);
      if bounds.0 > bounds.1 then Err(RangeInverted)
      else if bounds.0 == bounds.1 then Ok(Blank(w * h))
      else
        var tr :- MakeTransform(cfg, |colorMap|, bounds.0, bounds.1);
        Rows(PixelsOf(Job(cfg, w, h, data, colorMap, tr)), w, h)
  }

  /** One more pixel of row y: the prefix grows by its colour, or the
      prefix panics with the pixel's panic. */
  lemma RowPrefixStep(pixel: Pixels, w: nat, y: nat, x: nat)
    requires RowPrefix(pixel, w, y, x).Ok?
    ensures pixel(x, y).Ok? ==>
      RowPrefix(pixel, w, y, x + 1) == Ok(RowPrefix(pixel, w, y, x).value + [pixel(x, y).value])
    ensures pixel(x, y).Err? ==> RowPrefix(pixel, w, y, x + 1) == Err(pixel(x, y).error)
  {
  }

  /** Once a pixel panics, every longer prefix of the same row panics alike. */
  lemma {:induction false} RowPanicPersists(pixel: Pixels, w: nat, y: nat, x: nat, x': nat, e: Panic)
    requires RowPrefix(pixel, w, y, x) == Err(e) && x <= x'
    ensures RowPrefix(pixel, w, y, x') == Err(e)
    decreases x' - x
  {
    if x < x' {
      RowPanicPersists(pixel, w, y, x, x' - 1, e);
    }
  }

  /** Once a pixel panics, every later row count panics alike. */
  lemma {:induction false} RowsPanicPersists(pixel: Pixels, w: nat, y: nat, y': nat, e: Panic)
    requires Rows(pixel, w, y) == Err(e) && y <= y'
    ensures Rows(pixel, w, y') == Err(e)
    decreases y' - y
  {
    if y < y' {
      RowsPanicPersists(pixel, w, y, y' - 1, e);
      RowPanicPersists(pixel, w, y' - 1, 0, w, e);
    }
  }

  /** `color`: allocates a zeroed w by h raster, returns it early for empty
      data or a flat range, and otherwise fills it pixel by pixel, row by
      row. The result is exactly the specification `Colored`. */
  method Color(cfg: Config, w: U32, h: U32, data: seq<nat>, colorMap: seq<Rgb>, range: DataRange)
    returns (r: Result<array<Rgb>>)
    ensures r.Ok? ==> fresh(r.value) && Colored(cfg, w, h, data, colorMap, range) == Ok(r.value[..])
    ensures r.Err? ==> Colored(cfg, w, h, data, colorMap, range) == Err(r.error)
  {
    if w * h != |data| {
      return Err(LengthMismatch);
    }
    var img := new Rgb[w * h](_ => Black);
    assert img[..] == Blank(w * h);
    if |data| == 0 {
      return Ok(img);
    }
    var bounds := ResolveRange(range, data);
    var min, max := bounds.value.0, bounds.value.1;
    if min > max {
      return Err(RangeInverted);
    }
    if min == max {
      return Ok(img);
    }
    var tr := MakeTransform(cfg, |colorMap|, min, max);
    if tr.Err? {
      return Err(tr.error);
    }
    var painted := Paint(PixelsOf(Job(cfg, w, h, data, colorMap, tr.value)), w, h, img);
    if painted.Err? {
      return Err(painted.error);
    }
    return Ok(img);
  }

  /** The nested `for y` / `for x` loops of `color`, with the loop body
      `pixel`: `put_pixel(x, y, ...)` writes cell `y * w + x` of the raster. */
  method Paint(pixel: Pixels, w: nat, h: nat, img: array<Rgb>) returns (r: Result<()>)
    requires img.Length == w * h
    modifies img
    ensures r.Ok? ==> Rows(pixel, w, h) == Ok(img[..])
    ensures r.Err? ==> Rows(pixel, w, h) == Err(r.error)
  {
    var y: nat := 0;
    while y < h
      invariant y <= h
      invariant Rows(pixel, w, y) == Ok(img[..y * w])
    {
      r := PaintRow(pixel, w, h, img, y);
      if r.Err? {
        return;
      }
      y := y + 1;
    }
    assert img[..h * w] == img[..];
    return Ok(());
  }

  /** The inner `for x` loop of `color`, painting row y. */
  method PaintRow(pixel: Pixels, w: nat, h: nat, img: array<Rgb>, y: nat) returns (r: Result<()>)
    requires img.Length == w * h && y < h
    requires Rows(pixel, w, y) == Ok(img[..y * w])
    modifies img
    ensures r.Ok? ==> Rows(pixel, w, y + 1) == Ok(img[..(y + 1) * w])
    ensures r.Err? ==> Rows(pixel, w, h) == Err(r.error)
  {
    var base := y * w;
    RowEnd(w, h, y);
    var x: nat := 0;
    while x < w
      invariant x <= w && base + w <= img.Length
      invariant RowPrefix(pixel, w, y, x) == Ok(img[..base + x])
    {
      var c := pixel(x, y);
      RowPrefixStep(pixel, w, y, x);
      if c.Err? {
        RowPanicPersists(pixel, w, y, x + 1, w, c.error);
        RowsPanicPersists(pixel, w, y + 1, h, c.error);
        return Err(c.error);
      }
      ghost var done := img[..base + x];
      img[base + x] := c.value;
      assert img[..base + x + 1] == done + [c.value];
      x := x + 1;
    }
    return Ok(());
  }
}
