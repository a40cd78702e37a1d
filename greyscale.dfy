/** `color_greyscale` (src/main.rs): recolours an RGB raster in place,
    replacing each pixel by the colour-table entry that its red channel
    selects, `map[(red * (len - 1)) / 255]`, in usize arithmetic. */
module Greyscale {
  import opened Machine
  import opened Raster

  /** `(red * (len - 1)) / 255` in usize, then `assert!(i < map.len())`. */
  function GreyIndex(build: Build, red: Byte, mapLen: nat): (r: Result<nat>)
    ensures r.Ok? ==> r.value < mapLen
  {
    var top :- Sub(build, USIZE_LIMIT, mapLen, 1);
    var product :- Mul(build, USIZE_LIMIT, red, top);
    var i := product / 255;
    if i < mapLen then Ok(i) else Err(ColorIndexOutOfBounds)
  }

  /** The new value of one pixel: the table entry its red channel selects. */
  function Recolored(build: Build, p: Rgb, colorMap: seq<Rgb>): (r: Result<Rgb>)
    ensures r.Ok? ==> r.value in colorMap
  {
    var i :- GreyIndex(build, p.r, |colorMap|);
    Ok(colorMap[i])
  }

  /** The first n cells of `after` are the recoloured cells of `before`,
      and the others are still those of `before`. */
  ghost predicate RecoloredUpTo(build: Build, before: seq<Rgb>, after: seq<Rgb>, colorMap: seq<Rgb>, n: nat)
  {
    |after| == |before| && n <= |before| &&
    (forall j :: 0 <= j < n ==>
      Recolored(build, before[j], colorMap).Ok? && after[j] == Recolored(build, before[j], colorMap).value) &&
    (forall j :: n <= j < |before| ==> after[j] == before[j])
  }

  /** The loops stopped at cell k with panic e: every earlier cell was
      recoloured, cell k panics with e, and cell k and those after it were
      not touched. */
  ghost predicate StoppedAt(build: Build, before: seq<Rgb>, after: seq<Rgb>, colorMap: seq<Rgb>, k: nat, e: Panic)
  {
    RecoloredUpTo(build, before, after, colorMap, k) && k < |before| &&
    Recolored(build, before[k], colorMap) == Err(e)
  }

  /** `color_greyscale`: the nested `for y` / `for x` loops over a w by h
      raster stored row by row. It finishes exactly when every pixel can be
      recoloured, and then every pixel holds the recolouring of its old
      value; otherwise it stops at the first pixel whose index panics. */
  method ColorGreyscale(build: Build, w: U32, h: U32, pixels: array<Rgb>, colorMap: seq<Rgb>)
    returns (r: Result<()>)
    requires pixels.Length == w * h
    modifies pixels
    ensures r.Ok? <==>
      forall k :: 0 <= k < pixels.Length ==> Recolored(build, old(pixels[k]), colorMap).Ok?
    ensures r.Ok? ==> RecoloredUpTo(build, old(pixels[..]), pixels[..], colorMap, pixels.Length)
    ensures r.Err? ==> exists k :: 0 <= k < pixels.Length && StoppedAt(build, old(pixels[..]), pixels[..], colorMap, k, r.error)
  {
    ghost var before := pixels[..];
    var y: nat := 0;
    while y < h
      invariant y <= h
      invariant RecoloredUpTo(build, before, pixels[..], colorMap, y * w)
    {
      var base := y * w;
      RowEnd(w, h, y);
      var x: nat := 0;
      while x < w
        invariant x <= w && base + w <= pixels.Length
        invariant RecoloredUpTo(build, before, pixels[..], colorMap, base + x)
      {
        var c := Recolored(build, pixels[base + x], colorMap);
        if c.Err? {
          assert StoppedAt(build, before, pixels[..], colorMap, base + x, c.error);
          return Err(c.error);
        }
        pixels[base + x] := c.value;
        x := x + 1;
      }
      y := y + 1;
    }
    assert y * w == pixels.Length;
    return Ok(());
  }

  /** When `red * (len - 1)` fits usize, the index is exactly
      `(red * (len - 1)) / 255` and lies in the table: the assertion never
      fires. */
  lemma GreyIndexInTable(build: Build, red: Byte, mapLen: nat)
    requires 0 < mapLen <= USIZE_LIMIT && red * (mapLen - 1) < USIZE_LIMIT
    ensures (red * (mapLen - 1)) / 255 < mapLen
    ensures GreyIndex(build, red, mapLen) == Ok((red * (mapLen - 1)) / 255)
  {
    var top := mapLen - 1;
    MulMonotone(red, 255, top);
    DivBelow(red * top, 255, top);
  }

  /** Every table of at most 2^56 entries has `red * (len - 1)` within
      usize. */
  lemma ProductFits(red: Byte, mapLen: nat)
    requires 0 < mapLen <= 0x100_0000_0000_0000
    ensures red * (mapLen - 1) < USIZE_LIMIT
  {
    MulMonotone(red, 255, mapLen - 1);
  }

  /** In a debug build the index is computed exactly when the table is not
      empty and `red * (len - 1)` fits usize; otherwise it panics on
      overflow. */
  lemma DebugGreyIndexOkIff(red: Byte, mapLen: nat)
    requires mapLen <= USIZE_LIMIT
    ensures GreyIndex(Debug, red, mapLen).Ok? <==> 0 < mapLen && red * (mapLen - 1) < USIZE_LIMIT
    ensures GreyIndex(Debug, red, mapLen).Err? ==> GreyIndex(Debug, red, mapLen).error == ArithmeticOverflow
  {
    if 0 < mapLen && red * (mapLen - 1) < USIZE_LIMIT {
      GreyIndexInTable(Debug, red, mapLen);
    }
  }

  /** An empty colour table always panics: on the subtraction `len - 1` in
      a debug build, on the assertion in a release build, where `len - 1`
      wraps around to `2^64 - 1`. */
  lemma EmptyTablePanics(build: Build, red: Byte)
    ensures GreyIndex(build, red, 0) ==
      Err(if build == Debug then ArithmeticOverflow else ColorIndexOutOfBounds)
  {
  }

  /** Red 0 selects the first entry and red 255 the last one. */
  lemma EndpointsSelectEnds(build: Build, mapLen: nat)
    requires 0 < mapLen <= USIZE_LIMIT && 255 * (mapLen - 1) < USIZE_LIMIT
    ensures GreyIndex(build, 0, mapLen) == Ok(0)
    ensures GreyIndex(build, 255, mapLen) == Ok(mapLen - 1)
  {
    GreyIndexInTable(build, 0, mapLen);
    GreyIndexInTable(build, 255, mapLen);
    DivModUnique(255, 255 * (mapLen - 1), mapLen - 1, 0);
  }

  /** A larger red value never selects an earlier entry. */
  lemma GreyIndexMonotone(build: Build, red: Byte, red': Byte, mapLen: nat)
    requires red <= red' && 0 < mapLen <= USIZE_LIMIT && red' * (mapLen - 1) < USIZE_LIMIT
    ensures GreyIndex(build, red, mapLen).Ok? && GreyIndex(build, red', mapLen).Ok?
    ensures GreyIndex(build, red, mapLen).value <= GreyIndex(build, red', mapLen).value
  {
    MulMonotone(red, red', mapLen - 1);
    GreyIndexInTable(build, red, mapLen);
    GreyIndexInTable(build, red', mapLen);
    DivMonotone(red * (mapLen - 1), red' * (mapLen - 1), 255);
  }

  /** The new colour of a pixel depends on its red channel only. */
  lemma OnlyRedMatters(build: Build, p: Rgb, q: Rgb, colorMap: seq<Rgb>)
    requires p.r == q.r
    ensures Recolored(build, p, colorMap) == Recolored(build, q, colorMap)
  {
  }

  /** With a non-empty table of at most 2^56 entries no pixel panics, so
      `ColorGreyscale` recolours the whole raster. */
  lemma RecoloringNeverPanics(build: Build, p: Rgb, colorMap: seq<Rgb>)
    requires 0 < |colorMap| <= 0x100_0000_0000_0000
    ensures Recolored(build, p, colorMap).Ok?
    ensures (p.r * (|colorMap| - 1)) / 255 < |colorMap|
    ensures Recolored(build, p, colorMap).value ==
      colorMap[(p.r * (|colorMap| - 1)) / 255]
  {
    ProductFits(p.r, |colorMap|);
    GreyIndexInTable(build, p.r, |colorMap|);
  }

  /** A table of two entries: a black pixel keeps the first entry and a
      white pixel reaches the last one. */
  lemma TwoEntryTableReachesLastEntry(build: Build)
    ensures Recolored(build, Black, [Black, Rgb(255, 255, 255)]) == Ok(Black)
    ensures Recolored(build, Rgb(255, 255, 255), [Black, Rgb(255, 255, 255)]) == Ok(Rgb(255, 255, 255))
  {
    EndpointsSelectEnds(build, 2);
  }
}
