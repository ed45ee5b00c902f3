/** DCT scaling and the row groups it leaves (jdmaster.c, jdmainct.c). */
module OutputGeometry {
  import opened ScanGeometry

  /** The scaled DCT sizes there are. */
  predicate IsDctSize(s: nat) {
    s == 1 || s == 2 || s == 4 || s == 8
  }

  /** The sample rows of component k after scaling its DCT to size s. */
  function DownsampledHeight(im: Image, k: nat, s: nat): nat
    requires k < |im.comps|
  {
    CeilDiv(im.height * (im.comps[k].v * s), MaxV(im.comps) * DCTSIZE)
  }

  function DownsampledWidth(im: Image, k: nat, s: nat): nat
    requires k < |im.comps|
  {
    CeilDiv(im.width * (im.comps[k].h * s), MaxH(im.comps) * DCTSIZE)
  }

  /** The factor by which the chosen minimum DCT size shrinks the image. */
  function Shrink(minSize: nat): (f: nat)
    requires IsDctSize(minSize)
    ensures f > 0 && f * minSize == DCTSIZE
  {
    if minSize == 1 then 8 else if minSize == 2 then 4 else if minSize == 4 then 2 else 1
  }

  /** A size fits when the component, scaled by it, does not outgrow the largest component at the minimum size. */
  predicate SizeFits(im: Image, k: nat, minSize: nat, s: nat)
    requires k < |im.comps|
  {
    im.comps[k].h * s <= MaxH(im.comps) * minSize && im.comps[k].v * s <= MaxV(im.comps) * minSize
  }

  /** jm_jpeg_calc_output_dimensions: the scale asked for is rounded up to 1/8, 1/4, 1/2 or 1, and every component
      gets the largest DCT size at which it still fits. */
  method CalcOutputDimensions(im: Image, scaleNum: nat, scaleDenom: nat)
    returns (outputWidth: nat, outputHeight: nat, minSize: nat, sizes: seq<nat>, widths: seq<nat>, heights: seq<nat>)
    ensures IsDctSize(minSize) && |sizes| == |im.comps|
    ensures scaleNum * DCTSIZE <= scaleDenom * minSize || minSize == 8
    ensures minSize > 1 ==> scaleNum * DCTSIZE > scaleDenom * (minSize / 2)
    ensures outputWidth == CeilDiv(im.width, Shrink(minSize)) && outputHeight == CeilDiv(im.height, Shrink(minSize))
    ensures forall k :: 0 <= k < |sizes| ==>
              && IsDctSize(sizes[k]) && minSize <= sizes[k] && SizeFits(im, k, minSize, sizes[k])
              && (sizes[k] == 8 || !SizeFits(im, k, minSize, 2 * sizes[k]))
    ensures |widths| == |heights| == |im.comps|
    ensures forall k :: 0 <= k < |sizes| ==>
              widths[k] == DownsampledWidth(im, k, sizes[k]) && heights[k] == DownsampledHeight(im, k, sizes[k])
  {
    hide MaxH, MaxV, CeilDiv;
    if scaleNum * 8 <= scaleDenom {
      outputWidth, outputHeight, minSize := CeilDiv(im.width, 8), CeilDiv(im.height, 8), 1;
    } else if scaleNum * 4 <= scaleDenom {
      outputWidth, outputHeight, minSize := CeilDiv(im.width, 4), CeilDiv(im.height, 4), 2;
    } else if scaleNum * 2 <= scaleDenom {
      outputWidth, outputHeight, minSize := CeilDiv(im.width, 2), CeilDiv(im.height, 2), 4;
    } else {
      CeilOne(im.width);
      CeilOne(im.height);
      outputWidth, outputHeight, minSize := im.width, im.height, 8;
    }
    sizes := [];
    var ci := 0;
    while ci < |im.comps|
      invariant 0 <= ci <= |im.comps| && |sizes| == ci
      invariant forall k :: 0 <= k < ci ==>
                  && IsDctSize(sizes[k]) && minSize <= sizes[k] && SizeFits(im, k, minSize, sizes[k])
                  && (sizes[k] == 8 || !SizeFits(im, k, minSize, 2 * sizes[k]))
    {
      var ssize := ScaleComponent(im, ci, minSize);
      sizes := sizes + [ssize];
      ci := ci + 1;
    }
    widths, heights := [], [];
    ci := 0;
    while ci < |im.comps|
      invariant 0 <= ci <= |im.comps| && |widths| == |heights| == ci
      invariant forall k :: 0 <= k < ci ==>
                  widths[k] == DownsampledWidth(im, k, sizes[k]) && heights[k] == DownsampledHeight(im, k, sizes[k])
    {
      widths := widths + [DownsampledWidth(im, ci, sizes[ci])];
      heights := heights + [DownsampledHeight(im, ci, sizes[ci])];
      ci := ci + 1;
    }
  }

  lemma CeilOne(a: nat)
    ensures CeilDiv(a, 1) == a
  {
  }

  method ScaleComponent(im: Image, ci: nat, minSize: nat) returns (ssize: nat)
    requires ci < |im.comps| && IsDctSize(minSize)
    ensures IsDctSize(ssize) && minSize <= ssize && SizeFits(im, ci, minSize, ssize)
    ensures ssize == 8 || !SizeFits(im, ci, minSize, 2 * ssize)
  {
    hide MaxH, MaxV, SizeFits;
    ssize := minSize;
    MinimumFits(im, ci, minSize);
    DoubledFits(im, ci, minSize, ssize);
    var h, v := im.comps[ci].h, im.comps[ci].v;
    var maxH, maxV := MaxH(im.comps) * minSize, MaxV(im.comps) * minSize;
    while ssize < DCTSIZE && h * ssize * 2 <= maxH && v * ssize * 2 <= maxV
      invariant IsDctSize(ssize) && minSize <= ssize && SizeFits(im, ci, minSize, ssize)
      invariant SizeFits(im, ci, minSize, 2 * ssize) <==> h * ssize * 2 <= maxH && v * ssize * 2 <= maxV
      decreases DCTSIZE - ssize
    {
      ssize := ssize * 2;
      DoubledFits(im, ci, minSize, ssize);
    }
  }

  lemma MinimumFits(im: Image, k: nat, minSize: nat)
    requires k < |im.comps|
    ensures SizeFits(im, k, minSize, minSize)
  {
    MulMonotone(im.comps[k].h, MaxH(im.comps), minSize);
    MulMonotone(im.comps[k].v, MaxV(im.comps), minSize);
  }

  lemma DoubledFits(im: Image, k: nat, minSize: nat, s: nat)
    requires k < |im.comps|
    ensures SizeFits(im, k, minSize, 2 * s)
       <==> im.comps[k].h * s * 2 <= MaxH(im.comps) * minSize && im.comps[k].v * s * 2 <= MaxV(im.comps) * minSize
  {
    hide MaxH, MaxV;
    Double(im.comps[k].h, s);
    Double(im.comps[k].v, s);
  }

  lemma Double(a: nat, b: nat)
    ensures a * (2 * b) == a * b * 2
  {
  }

  /** The factor by which a component, scaled to size s, falls short of the largest one at the minimum size divides the output
      width and height: the component has the rounded-up quotient of samples across and down. */
  lemma DownsampledIs(im: Image, k: nat, minSize: nat, s: nat, across: nat, down: nat)
    requires k < |im.comps| && IsDctSize(minSize) && IsDctSize(s)
    requires across * (im.comps[k].h * s) == MaxH(im.comps) * minSize && down * (im.comps[k].v * s) == MaxV(im.comps) * minSize
    ensures across > 0 && DownsampledWidth(im, k, s) == CeilDiv(CeilDiv(im.width, Shrink(minSize)), across)
    ensures down > 0 && DownsampledHeight(im, k, s) == CeilDiv(CeilDiv(im.height, Shrink(minSize)), down)
  {
    hide CeilDiv, MaxH, MaxV;
    ShareOf(im.width, im.comps[k].h * s, MaxH(im.comps), minSize, across);
    ShareOf(im.height, im.comps[k].v * s, MaxV(im.comps), minSize, down);
  }

  lemma ShareOf(a: nat, part: nat, max: nat, minSize: nat, f: nat)
    requires IsDctSize(minSize) && max > 0 && f * part == max * minSize
    ensures f > 0 && CeilDiv(a * part, max * DCTSIZE) == CeilDiv(CeilDiv(a, Shrink(minSize)), f)
  {
    hide CeilDiv;
    MulMonotone(1, max, minSize);
    BothPositive(f, part);
    var shrink := Shrink(minSize);
    SplitShrink(max, minSize);
    Swap(max, shrink, minSize);
    Swap(f, part, shrink);
    assert max * DCTSIZE == f * shrink * part;
    CeilTwice(a, shrink, f);
    CeilCancel(a, part, f * shrink);
  }

  lemma BothPositive(a: nat, b: nat)
    requires a * b > 0
    ensures a > 0 && b > 0
  {
  }

  // ----- row groups -----

  /** Rows of a row group of component k: its share of max_v_samp_factor output rows. */
  function RowGroupHeight(im: Image, k: nat, minSize: nat, s: nat): nat
    requires k < |im.comps| && minSize > 0
  {
    im.comps[k].v * s / minSize
  }

  /** After scaling, every component has row groups of a whole number of rows, as many iMCU rows as the image,
      and in all as many row groups as the output has rows, divided by the largest vertical factor. */
  lemma RowGroupsAgree(im: Image, k: nat, minSize: nat, s: nat)
    requires k < |im.comps| && IsDctSize(minSize) && IsDctSize(s) && minSize <= s
    ensures RowGroupHeight(im, k, minSize, s) > 0
    ensures RowGroupHeight(im, k, minSize, s) * minSize == im.comps[k].v * s
    ensures CeilDiv(DownsampledHeight(im, k, s), im.comps[k].v * s) == TotalImcuRows(im)
    ensures CeilDiv(DownsampledHeight(im, k, s), RowGroupHeight(im, k, minSize, s))
         == CeilDiv(CeilDiv(im.height, Shrink(minSize)), MaxV(im.comps))
  {
    hide CeilDiv, MaxV;
    var v, m := im.comps[k].v, MaxV(im.comps);
    RatioWhole(minSize, s);
    var ratio := s / minSize;
    var rg := v * ratio;
    assert v * s == v * (ratio * minSize) == rg * minSize;
    GroupHeightIs(v * s, rg, minSize);
    CeilOfCeil(im.height, v * s, m * DCTSIZE);
    CeilAcross(im.height, rg, minSize, m * DCTSIZE, m * Shrink(minSize));
    SplitShrink(m, minSize);
    CeilTwice(im.height, Shrink(minSize), m);
  }

  lemma RatioWhole(minSize: nat, s: nat)
    requires IsDctSize(minSize) && IsDctSize(s) && minSize <= s
    ensures s == s / minSize * minSize && s / minSize > 0
  {
  }

  lemma GroupHeightIs(a: nat, rg: nat, minSize: nat)
    requires minSize > 0 && a == rg * minSize
    ensures a / minSize == rg
  {
    var q := a / minSize;
    assert a == q * minSize + a % minSize;
    if q < rg {
      MulMonotone(q + 1, rg, minSize);
    } else if q > rg {
      MulMonotone(rg + 1, q, minSize);
    }
  }

  lemma SplitShrink(m: nat, minSize: nat)
    requires IsDctSize(minSize)
    ensures m * Shrink(minSize) * minSize == m * DCTSIZE
  {
  }

  /** ceil(ceil(h * rg * n / d) / rg) where d is n times e: the row group height and n both cancel. */
  lemma CeilAcross(h: nat, rg: nat, n: nat, d: nat, e: nat)
    requires rg > 0 && n > 0 && e > 0 && d == e * n
    ensures d > 0 && CeilDiv(CeilDiv(h * (rg * n), d), rg) == CeilDiv(h, e)
  {
    hide CeilDiv;
    MulMonotone(1, e, n);
    Associate(h, rg, n);
    CeilCancel(h * rg, n, e);
    CeilOfCeil(h, rg, e);
  }

  lemma CeilCancel(a: nat, n: nat, e: nat)
    requires n > 0 && e > 0
    ensures e * n > 0 && CeilDiv(a * n, e * n) == CeilDiv(a, e)
  {
    hide CeilDiv;
    var q: int := CeilDiv(a, e);
    CeilIs(a, e, q);
    MulMonotone(1, e, n);
    MulMonotone((q - 1) * e + 1, a, n);
    MulMonotone(a, q * e, n);
    Associate(q - 1, e, n);
    Associate(q, e, n);
    CeilIs(a * n, e * n, q);
  }

  /** Row groups in the last iMCU row, as set_bottom_pointers counts them. */
  function LastRowGroups(im: Image, k: nat, minSize: nat, s: nat): int
    requires k < |im.comps| && minSize > 0 && RowGroupHeight(im, k, minSize, s) > 0 && im.comps[k].v * s > 0
  {
    (LastPart(DownsampledHeight(im, k, s), im.comps[k].v * s) - 1) / RowGroupHeight(im, k, minSize, s) + 1
  }

  /** That count does not depend on the component it is made for. */
  lemma LastRowGroupsAgree(im: Image, k: nat, minSize: nat, s: nat)
    requires k < |im.comps| && IsDctSize(minSize) && IsDctSize(s) && minSize <= s
    ensures RowGroupHeight(im, k, minSize, s) > 0 && im.comps[k].v * s > 0
    ensures LastRowGroups(im, k, minSize, s)
         == CeilDiv(CeilDiv(im.height, Shrink(minSize)), MaxV(im.comps)) - (TotalImcuRows(im) - 1) * minSize
  {
    hide CeilDiv, MaxV, LastPart, DownsampledHeight, RowGroupHeight, TotalImcuRows;
    RowGroupsAgree(im, k, minSize, s);
    MulMonotone(1, im.comps[k].v, s);
    var dh, size, rg := DownsampledHeight(im, k, s), im.comps[k].v * s, RowGroupHeight(im, k, minSize, s);
    HeightPositive(im, k, s);
    LastPartIs(dh, size);
    var t, left := TotalImcuRows(im) - 1, LastPart(dh, size);
    GroupsOf(left, rg);
    TotalPositive(im);
    Associate(t, minSize, rg);
    assert rg * minSize == minSize * rg;
    CeilShift(left, t * minSize, rg);
  }

  lemma HeightPositive(im: Image, k: nat, s: nat)
    requires k < |im.comps| && s > 0
    ensures DownsampledHeight(im, k, s) > 0
  {
    hide CeilDiv, MaxV;
    MulMonotone(1, im.comps[k].v, s);
    MulMonotone(1, im.height, im.comps[k].v * s);
    CeilIs(im.height * (im.comps[k].v * s), MaxV(im.comps) * DCTSIZE, DownsampledHeight(im, k, s));
  }

  lemma TotalPositive(im: Image)
    ensures TotalImcuRows(im) > 0
  {
    ComponentsAgree(im, 0);
  }

  lemma GroupsOf(left: nat, rg: nat)
    requires left > 0 && rg > 0
    ensures (left - 1) / rg + 1 == CeilDiv(left, rg)
  {
    var q := (left - 1) / rg;
    assert left - 1 == q * rg + (left - 1) % rg;
    assert (q + 1) * rg == q * rg + rg;
    CeilIs(left, rg, q + 1);
  }

  lemma CeilShift(a: nat, c: nat, b: nat)
    requires b > 0
    ensures CeilDiv(c * b + a, b) == c + CeilDiv(a, b)
  {
    hide CeilDiv;
    var q: int := CeilDiv(a, b);
    CeilIs(a, b, q);
    Distribute(c, q, b);
    Distribute(c, q - 1, b);
    CeilIs(c * b + a, b, c + q);
  }

  lemma Distribute(c: int, q: int, b: int)
    ensures (c + q) * b == c * b + q * b
  {
  }
}
