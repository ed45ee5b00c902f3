/** Upsampling and colour conversion: the fused routines for 2:1 horizontal sampling against box
    upsampling followed by YCC-to-RGB conversion (jdmerge.c, jdsample.c, jdcolor.c). */
module MergedUpsample {
  import opened HuffmanTable
  import opened RangeLimit
  import opened ScanGeometry

  // ----- YCC to RGB -----

  /** 16-bit fixed-point forms of 1.402, 1.772, 0.71414 and 0.34414 */
  const FIX_1_40200 := 91881
  const FIX_1_77200 := 116130
  const FIX_0_71414 := 46802
  const FIX_0_34414 := 22554
  const ONE_HALF := 32768

  function CrToR(cr: Byte): int {
    (FIX_1_40200 * (cr - CENTERJSAMPLE) + ONE_HALF) / 65536
  }

  function CbToB(cb: Byte): int {
    (FIX_1_77200 * (cb - CENTERJSAMPLE) + ONE_HALF) / 65536
  }

  /** The G calculation is rounded once, over both contributions. */
  function CbCrToG(cb: Byte, cr: Byte): int {
    (-FIX_0_34414 * (cb - CENTERJSAMPLE) + ONE_HALF - FIX_0_71414 * (cr - CENTERJSAMPLE)) / 65536
  }

  /** Red, green, blue of one pixel. */
  function Rgb(y: Byte, cb: Byte, cr: Byte): (p: seq<Byte>)
    ensures |p| == 3
  {
    [Limit(y + CrToR(cr)), Limit(y + CbCrToG(cb, cr)), Limit(y + CbToB(cb))]
  }

  datatype TablesRaw = Tables(crR: seq<int>, cbB: seq<int>, crG: seq<int>, cbG: seq<int>, rangeLimit: seq<Byte>)

  /** The conversion tables, as build_ycc_rgb_table and prepare_range_limit_table fill them in. */
  ghost predicate RightTables(t: TablesRaw) {
    && |t.crR| == |t.cbB| == |t.crG| == |t.cbG| == 256 && IsRangeLimit(t.rangeLimit)
    && forall i: Byte ::
         && t.crR[i] == CrToR(i) && t.cbB[i] == CbToB(i)
         && t.crG[i] == -FIX_0_71414 * (i - CENTERJSAMPLE)
         && t.cbG[i] == -FIX_0_34414 * (i - CENTERJSAMPLE) + ONE_HALF
  }

  type Tables = t: TablesRaw | |t.crR| == |t.cbB| == |t.crG| == |t.cbG| == 256 && |t.rangeLimit| == 1408
    witness TablesRaw.Tables(seq(256, _ => 0), seq(256, _ => 0), seq(256, _ => 0), seq(256, _ => 0), seq(1408, _ => 0))

  /** build_ycc_rgb_table; each entry is the exact product rounded to the nearest integer. */
  method BuildYccRgbTable(rangeLimit: seq<Byte>) returns (t: Tables)
    requires IsRangeLimit(rangeLimit)
    ensures RightTables(t)
  {
    var crR, cbB, crG, cbG := new int[256], new int[256], new int[256], new int[256];
    var i, x := 0, -CENTERJSAMPLE;
    while i <= MAXJSAMPLE
      invariant 0 <= i <= 256 && x == i - CENTERJSAMPLE
      invariant forall k: Byte :: k < i ==> crR[k] == CrToR(k) && cbB[k] == CbToB(k)
      invariant forall k: Byte :: k < i ==>
                  crG[k] == -FIX_0_71414 * (k - CENTERJSAMPLE) && cbG[k] == -FIX_0_34414 * (k - CENTERJSAMPLE) + ONE_HALF
    {
      crR[i] := (FIX_1_40200 * x + ONE_HALF) / 65536;
      cbB[i] := (FIX_1_77200 * x + ONE_HALF) / 65536;
      crG[i] := -FIX_0_71414 * x;
      cbG[i] := -FIX_0_34414 * x + ONE_HALF;
      i, x := i + 1, x + 1;
    }
    t := TablesRaw.Tables(crR[..], cbB[..], crG[..], cbG[..], rangeLimit);
  }

  /** The tables give the chroma contributions. */
  lemma TablesGive(t: Tables, cb: Byte, cr: Byte)
    requires RightTables(t)
    ensures t.crR[cr] == CrToR(cr) && t.cbB[cb] == CbToB(cb) && (t.cbG[cb] + t.crG[cr]) / 65536 == CbCrToG(cb, cr)
  {
  }

  /** The red and blue contributions are the exact products rounded to the nearest integer. */
  lemma NearestProducts(cb: Byte, cr: Byte)
    ensures -ONE_HALF < 65536 * CrToR(cr) - FIX_1_40200 * (cr - CENTERJSAMPLE) <= ONE_HALF
    ensures -ONE_HALF < 65536 * CbToB(cb) - FIX_1_77200 * (cb - CENTERJSAMPLE) <= ONE_HALF
  {
  }

  /** They are the contributions of the conversion formulas, R = Y + 1.402 Cr', G = Y - 0.34414 Cb' - 0.71414 Cr' and
      B = Y + 1.772 Cb' with Cb' = Cb - 128 and Cr' = Cr - 128, to within half a unit and 0.002. */
  lemma DecimalProducts(cb: Byte, cr: Byte)
    ensures -50200 <= 100000 * CrToR(cr) - 140200 * (cr - 128) <= 50200
    ensures -50200 <= 100000 * CbToB(cb) - 177200 * (cb - 128) <= 50200
    ensures -50200 <= 100000 * CbCrToG(cb, cr) + 34414 * (cb - 128) + 71414 * (cr - 128) <= 50200
  {
  }

  /** v is what limiting a number within half a unit and 0.002 of n/100000 to 0 to 255 gives. */
  predicate Rounds(v: Byte, n: int) {
    && (v > 0 ==> 100000 * v <= n + 50200)
    && (v < 255 ==> n - 50200 <= 100000 * v)
  }

  /** The bytes of a pixel are red, green and blue by those formulas. */
  lemma PixelIsRgb(y: Byte, cb: Byte, cr: Byte)
    ensures var p := Rgb(y, cb, cr);
            && Rounds(p[0], 100000 * y + 140200 * (cr - 128))
            && Rounds(p[1], 100000 * y - 34414 * (cb - 128) - 71414 * (cr - 128))
            && Rounds(p[2], 100000 * y + 177200 * (cb - 128))
  {
    hide CrToR, CbToB, CbCrToG;
    DecimalProducts(cb, cr);
  }

  /** No pixel value, whatever the chroma, falls outside the range-limit table. */
  lemma PixelInRange(t: Tables, y: Byte, cb: Byte, cr: Byte)
    requires RightTables(t)
    ensures var r, g, b := y + CrToR(cr), y + CbCrToG(cb, cr), y + CbToB(cb);
            && -256 <= r < 640 && -256 <= g < 640 && -256 <= b < 640
            && [t.rangeLimit[r + 256], t.rangeLimit[g + 256], t.rangeLimit[b + 256]] == Rgb(y, cb, cr)
  {
    RangeLimited(t.rangeLimit, y + CrToR(cr));
    RangeLimited(t.rangeLimit, y + CbToB(cb));
    RangeLimited(t.rangeLimit, y + CbCrToG(cb, cr));
  }

  // ----- the simple form -----

  /** A row stretched to twice its width by repeating samples. */
  function Box(row: seq<Byte>, width: nat): (r: seq<Byte>)
    requires 2 * |row| >= width
    ensures |r| == width
  {
    seq(width, x requires 0 <= x < width => row[x / 2])
  }

  /** ycc_rgb_convert on one row. */
  function Converted(y: seq<Byte>, cb: seq<Byte>, cr: seq<Byte>, width: nat): (r: seq<Byte>)
    requires |y| >= width && |cb| >= width && |cr| >= width
    ensures |r| == 3 * width
  {
    seq(3 * width, i requires 0 <= i < 3 * width => Rgb(y[i / 3], cb[i / 3], cr[i / 3])[i % 3])
  }

  /** A row group: v rows of luma over one row of each chroma of half the width. */
  datatype Group = Group(y: seq<seq<Byte>>, cb: seq<Byte>, cr: seq<Byte>)

  predicate GroupFits(g: Group, v: nat, width: nat) {
    && |g.y| == v && 2 * |g.cb| >= width && 2 * |g.cr| >= width
    && forall i :: 0 <= i < v ==> |g.y[i]| >= width
  }

  /** Row r of the group: its chroma box-upsampled both ways, then converted. */
  function SimpleRow(g: Group, v: nat, width: nat, r: nat): (row: seq<Byte>)
    requires GroupFits(g, v, width) && r < v
    ensures |row| == 3 * width
  {
    Converted(g.y[r], Box(g.cb, width), Box(g.cr, width), width)
  }

  /** The first image row of row group c, and the group and row within it of image row r, with v rows (1 or 2) to a group. */
  function RowBase(v: nat, c: nat): nat {
    if v == 1 then c else 2 * c
  }

  function GroupOf(v: nat, r: int): int {
    if v == 1 then r else r / 2
  }

  function RowIn(v: nat, r: int): nat {
    if v == 1 then 0 else r % 2
  }

  /** The row of the whole image with number r. */
  function ImageRow(image: seq<Group>, v: nat, width: nat, r: nat): (row: seq<Byte>)
    requires 1 <= v <= 2 && (forall k :: 0 <= k < |image| ==> GroupFits(image[k], v, width)) && GroupOf(v, r) < |image|
    ensures |row| == 3 * width
  {
    SimpleRow(image[GroupOf(v, r)], v, width, RowIn(v, r))
  }

  lemma ConvertedAt(y: seq<Byte>, cb: seq<Byte>, cr: seq<Byte>, width: nat, x: nat)
    requires |y| >= width && |cb| >= width && |cr| >= width && x < width
    ensures Converted(y, cb, cr, width)[3 * x..3 * x + 3] == Rgb(y[x], cb[x], cr[x])
  {
    hide Rgb;
    var r := Converted(y, cb, cr, width);
    forall k | 0 <= k < 3
      ensures r[3 * x..3 * x + 3][k] == Rgb(y[x], cb[x], cr[x])[k]
    {
      assert (3 * x + k) / 3 == x && (3 * x + k) % 3 == k;
    }
  }

  /** Pixel x of image row r: with two rows to a group, luma row r % 2 of group r / 2, and the chroma samples at x / 2. */
  lemma ImagePixel(image: seq<Group>, v: nat, width: nat, r: nat, x: nat)
    requires 1 <= v <= 2 && (forall k :: 0 <= k < |image| ==> GroupFits(image[k], v, width)) && r < v * |image| && x < width
    ensures GroupOf(v, r) < |image|
    ensures var g := image[r / v];
            && r % v < |g.y| && x < |g.y[r % v]| && x / 2 < |g.cb| && x / 2 < |g.cr|
            && ImageRow(image, v, width, r)[3 * x..3 * x + 3] == Rgb(g.y[r % v][x], g.cb[x / 2], g.cr[x / 2])
  {
    hide Rgb, Converted;
    assert v == 1 || v == 2;
    if v == 1 {
      assert r / v == r && r % v == 0;
    }
    var g := image[r / v];
    assert GroupFits(g, v, width);
    ConvertedAt(g.y[r % v], Box(g.cb, width), Box(g.cr, width), width, x);
  }

  // ----- which form is chosen -----

  datatype ComponentInfo = ComponentInfo(h: nat, v: nat, dctSize: nat, downsampledWidth: nat)

  /** Colour spaces; the other orders and sizes of RGB pixels count as one. */
  datatype ColorSpace = JcsUnknown | JcsGrayscale | JcsRgb | JcsYCbCr | JcsCmyk | JcsYcck | JcsOther

  const RGB_PIXELSIZE := 3

  datatype SetupRaw = Setup(
    fancy: bool, ccir601: bool, jpegColorSpace: ColorSpace, outColorSpace: ColorSpace, outColorComponents: nat,
    minDctSize: nat, comps: seq<ComponentInfo>)

  /** Parameters as the master controller leaves them: factors 1 to 4, positive DCT sizes. */
  type Setup = s: SetupRaw | s.minDctSize > 0 && forall i :: 0 <= i < |s.comps| ==> 1 <= s.comps[i].h <= 4 && 1 <= s.comps[i].v <= 4
    witness SetupRaw.Setup(false, false, JcsUnknown, JcsUnknown, 1, 1, [])

  /** use_merged_upsample */
  predicate UseMergedUpsample(s: Setup) {
    && !s.fancy && !s.ccir601
    && s.jpegColorSpace == JcsYCbCr && |s.comps| == 3 && s.outColorSpace == JcsRgb && s.outColorComponents == RGB_PIXELSIZE
    && s.comps[0].h == 2 && s.comps[1].h == 1 && s.comps[2].h == 1
    && s.comps[0].v <= 2 && s.comps[1].v == 1 && s.comps[2].v == 1
    && s.comps[0].dctSize == s.minDctSize && s.comps[1].dctSize == s.minDctSize && s.comps[2].dctSize == s.minDctSize
  }

  datatype Routine = Fullsize | H2v1Fancy | H2v1 | H2v2Fancy | H2v2 | IntExpand | Unsupported

  /** The routine jm_jinit_upsampler selects for a component, given the maximum sampling factors. */
  function Selected(s: Setup, c: ComponentInfo, maxH: nat, maxV: nat): Routine
    requires c.h > 0 && c.v > 0
  {
    var fancy := s.fancy && s.minDctSize > 1;
    var hIn, vIn := c.h * c.dctSize / s.minDctSize, c.v * c.dctSize / s.minDctSize;
    if hIn == maxH && vIn == maxV then Fullsize
    else if hIn * 2 == maxH && vIn == maxV then if fancy && c.downsampledWidth > 2 then H2v1Fancy else H2v1
    else if hIn * 2 == maxH && vIn * 2 == maxV then if fancy && c.downsampledWidth > 2 then H2v2Fancy else H2v2
    else if hIn > 0 && vIn > 0 && maxH % hIn == 0 && maxV % vIn == 0 then IntExpand
    else Unsupported
  }

  /** The conversion that jm_jinit_color_deconverter selects for RGB output. */
  datatype Conversion = YccToRgb | GrayToRgb | Unconverted | NotImplemented

  function ConversionToRgb(from: ColorSpace): Conversion {
    if from == JcsYCbCr then YccToRgb
    else if from == JcsGrayscale then GrayToRgb
    else if from == JcsRgb && RGB_PIXELSIZE == 3 then Unconverted
    else NotImplemented
  }

  /** Where merging is chosen, the separate form would use luma as it is and box-upsample the chroma:
      just what the merged routines are compared with here. */
  lemma MergingReplacesBoxes(s: Setup)
    requires UseMergedUpsample(s)
    ensures s.outColorSpace == JcsRgb && ConversionToRgb(s.jpegColorSpace) == YccToRgb
    ensures var v := s.comps[0].v;
            && Selected(s, s.comps[0], 2, v) == Fullsize
            && forall i :: 1 <= i < 3 ==> Selected(s, s.comps[i], 2, v) == if v == 1 then H2v1 else H2v2
  {
    assert s.comps[0].v == 1 || s.comps[0].v == 2;
    forall i | 0 <= i < 3
      ensures s.comps[i].h * s.comps[i].dctSize / s.minDctSize == s.comps[i].h
      ensures s.comps[i].v * s.comps[i].dctSize / s.minDctSize == s.comps[i].v
    {
      Cancel(s.comps[i].h, s.minDctSize);
      Cancel(s.comps[i].v, s.minDctSize);
    }
  }

  lemma Cancel(a: nat, b: nat)
    requires b > 0
    ensures a * b / b == a
  {
    var q := a * b / b;
    assert a * b == q * b + a * b % b;
    if q < a {
      MulMonotone(q + 1, a, b);
    } else if q > a {
      MulMonotone(a + 1, q, b);
    }
  }

  // ----- the fused form -----

  /** The first n pixels of the buffer are those of the row. */
  ghost predicate Emitted(out: seq<Byte>, row: seq<Byte>, n: nat) {
    |out| == |row| && 3 * n <= |row| && out[..3 * n] == row[..3 * n]
  }

  /** Emits the pixel at column x. */
  method EmitPixel(t: Tables, y: Byte, cred: int, cgreen: int, cblue: int, out: array<Byte>, x: nat, ghost g: Group, ghost v: nat, ghost width: nat, ghost r: nat)
    requires RightTables(t) && GroupFits(g, v, width) && r < v && x < width && out.Length == 3 * width && y == g.y[r][x]
    requires cred == CrToR(g.cr[x / 2]) && cblue == CbToB(g.cb[x / 2]) && cgreen == CbCrToG(g.cb[x / 2], g.cr[x / 2])
    requires Emitted(out[..], SimpleRow(g, v, width, r), x)
    modifies out
    ensures Emitted(out[..], SimpleRow(g, v, width, r), x + 1)
  {
    hide CrToR, CbToB, CbCrToG, Rgb, Converted, Box;
    PixelInRange(t, y, g.cb[x / 2], g.cr[x / 2]);
    ghost var row := SimpleRow(g, v, width, r);
    PixelOf(g, v, width, r, x);
    out[3 * x] := t.rangeLimit[y + cred + 256];
    out[3 * x + 1] := t.rangeLimit[y + cgreen + 256];
    out[3 * x + 2] := t.rangeLimit[y + cblue + 256];
    EmittedNext(out[..], row, x);
  }

  lemma PixelOf(g: Group, v: nat, width: nat, r: nat, x: nat)
    requires GroupFits(g, v, width) && r < v && x < width
    ensures SimpleRow(g, v, width, r)[3 * x..3 * x + 3] == Rgb(g.y[r][x], g.cb[x / 2], g.cr[x / 2])
  {
    ConvertedAt(g.y[r], Box(g.cb, width), Box(g.cr, width), width, x);
  }

  lemma EmittedNext(out: seq<Byte>, row: seq<Byte>, x: nat)
    requires Emitted(out, row, x) && 3 * x + 3 <= |row| && out[3 * x..3 * x + 3] == row[3 * x..3 * x + 3]
    ensures Emitted(out, row, x + 1)
  {
    assert out[..3 * x + 3] == out[..3 * x] + out[3 * x..3 * x + 3];
    assert row[..3 * x + 3] == row[..3 * x] + row[3 * x..3 * x + 3];
  }

  lemma NothingEmitted(out: seq<Byte>, row: seq<Byte>)
    requires |out| == |row|
    ensures Emitted(out, row, 0)
  {
  }

  lemma AllEmitted(out: seq<Byte>, row: seq<Byte>, n: nat)
    requires Emitted(out, row, n) && |row| == 3 * n
    ensures out == row
  {
    assert out[..3 * n] == out && row[..3 * n] == row;
  }

  /** h2v1_merged_upsample: each chroma pair serves two pixels; an odd last column is done on its own. */
  method H2v1MergedUpsample(t: Tables, g: Group, width: nat, out: array<Byte>)
    requires RightTables(t) && GroupFits(g, 1, width) && out.Length == 3 * width
    modifies out
    ensures out[..] == SimpleRow(g, 1, width, 0)
  {
    hide CrToR, CbToB, CbCrToG, Emitted, SimpleRow, RightTables;
    ghost var row := SimpleRow(g, 1, width, 0);
    NothingEmitted(out[..], row);
    var col := 0;
    while col < width / 2
      invariant 0 <= col <= width / 2 && Emitted(out[..], row, 2 * col)
    {
      var cb, cr := g.cb[col], g.cr[col];
      TablesGive(t, cb, cr);
      var cred, cgreen, cblue := t.crR[cr], (t.cbG[cb] + t.crG[cr]) / 65536, t.cbB[cb];
      EmitPixel(t, g.y[0][2 * col], cred, cgreen, cblue, out, 2 * col, g, 1, width, 0);
      EmitPixel(t, g.y[0][2 * col + 1], cred, cgreen, cblue, out, 2 * col + 1, g, 1, width, 0);
      col := col + 1;
    }
    if width % 2 == 1 {
      var cb, cr := g.cb[col], g.cr[col];
      TablesGive(t, cb, cr);
      var cred, cgreen, cblue := t.crR[cr], (t.cbG[cb] + t.crG[cr]) / 65536, t.cbB[cb];
      EmitPixel(t, g.y[0][2 * col], cred, cgreen, cblue, out, 2 * col, g, 1, width, 0);
    }
    AllEmitted(out[..], row, width);
  }

  /** h2v2_merged_upsample: each chroma pair serves a square of four pixels. */
  method H2v2MergedUpsample(t: Tables, g: Group, width: nat, out0: array<Byte>, out1: array<Byte>)
    requires RightTables(t) && GroupFits(g, 2, width) && out0.Length == out1.Length == 3 * width && out0 != out1
    modifies out0, out1
    ensures out0[..] == SimpleRow(g, 2, width, 0) && out1[..] == SimpleRow(g, 2, width, 1)
  {
    hide CrToR, CbToB, CbCrToG, Emitted, SimpleRow, RightTables;
    ghost var row0, row1 := SimpleRow(g, 2, width, 0), SimpleRow(g, 2, width, 1);
    NothingEmitted(out0[..], row0);
    NothingEmitted(out1[..], row1);
    var col := 0;
    while col < width / 2
      invariant 0 <= col <= width / 2 && Emitted(out0[..], row0, 2 * col) && Emitted(out1[..], row1, 2 * col)
    {
      var cb, cr := g.cb[col], g.cr[col];
      TablesGive(t, cb, cr);
      var cred, cgreen, cblue := t.crR[cr], (t.cbG[cb] + t.crG[cr]) / 65536, t.cbB[cb];
      EmitPixel(t, g.y[0][2 * col], cred, cgreen, cblue, out0, 2 * col, g, 2, width, 0);
      EmitPixel(t, g.y[0][2 * col + 1], cred, cgreen, cblue, out0, 2 * col + 1, g, 2, width, 0);
      EmitPixel(t, g.y[1][2 * col], cred, cgreen, cblue, out1, 2 * col, g, 2, width, 1);
      EmitPixel(t, g.y[1][2 * col + 1], cred, cgreen, cblue, out1, 2 * col + 1, g, 2, width, 1);
      col := col + 1;
    }
    if width % 2 == 1 {
      var cb, cr := g.cb[col], g.cr[col];
      TablesGive(t, cb, cr);
      var cred, cgreen, cblue := t.crR[cr], (t.cbG[cb] + t.crG[cr]) / 65536, t.cbB[cb];
      EmitPixel(t, g.y[0][2 * col], cred, cgreen, cblue, out0, 2 * col, g, 2, width, 0);
      EmitPixel(t, g.y[1][2 * col], cred, cgreen, cblue, out1, 2 * col, g, 2, width, 1);
    }
    AllEmitted(out0[..], row0, width);
    AllEmitted(out1[..], row1, width);
  }

  // ----- handing rows out -----

  /** An image as row groups, of v luma rows each. */
  ghost predicate IsImage(image: seq<Group>, v: nat, width: nat, height: nat) {
    && 1 <= v <= 2 && height > 0
    && (forall k :: 0 <= k < |image| ==> GroupFits(image[k], v, width))
    && RowBase(v, |image|) >= height
  }

  /** The rows from..to of the image are in the buffers from position `at` on. */
  ghost predicate RowsOut(image: seq<Group>, v: nat, width: nat, output: seq<array<Byte>>, at: nat, from: nat, to: nat)
    reads output
  {
    && 1 <= v <= 2 && from <= to && at + (to - from) <= |output| && GroupOf(v, to - 1) < |image|
    && (forall k :: 0 <= k < |image| ==> GroupFits(image[k], v, width))
    && forall k :: at <= k < at + (to - from) ==> output[k][..] == ImageRow(image, v, width, from + (k - at))
  }

  predicate Buffers(output: seq<array<Byte>>, width: nat) {
    && (forall i :: 0 <= i < |output| ==> output[i].Length == 3 * width)
    && (forall i, j :: 0 <= i < j < |output| ==> output[i] != output[j])
  }

  class MergedUpsampler {
    const width: nat
    const height: nat
    const tables: Tables
    const spareRow: array<Byte>
    var spareFull: bool
    var rowsToGo: nat

    /** The image being upsampled, and how many of its row groups have been used up. */
    ghost const image: seq<Group>
    ghost var consumed: nat

    /** Rows handed out so far. */
    ghost function Row(): int
      reads this
    {
      height - rowsToGo
    }

    /** Between calls: whole row groups have been used up, or the second row of one is in the spare buffer. */
    ghost predicate Valid(v: nat)
      reads this, spareRow
    {
      && RightTables(tables) && IsImage(image, v, width, height) && spareRow.Length == 3 * width && rowsToGo <= height
      && if spareFull then
           && v == 2 && Row() == 2 * consumed + 1 && consumed < |image|
           && spareRow[..] == SimpleRow(image[consumed], 2, width, 1)
         else Row() == RowBase(v, consumed)
    }

    /** start_pass_merged_upsample */
    constructor (width: nat, height: nat, tables: Tables, ghost image: seq<Group>, ghost v: nat)
      requires RightTables(tables) && IsImage(image, v, width, height)
      ensures Valid(v) && Row() == 0 && consumed == 0 && rowsToGo == height && fresh(spareRow)
      ensures this.image == image && this.width == width && this.height == height
    {
      this.width, this.height, this.tables, this.image := width, height, tables, image;
      spareRow := new Byte[3 * width](_ => 0);
      spareFull, rowsToGo, consumed := false, height, 0;
    }

    /** merged_2v_upsample: the next row group, or the spare row; a second row that does not fit, or that is
        below the image, goes to the spare buffer. */
    method Merged2vUpsample(g: Group, output: seq<array<Byte>>, outRowCtr: nat) returns (numRows: nat, used: bool)
      requires Valid(2) && rowsToGo > 0 && outRowCtr < |output| && Buffers(output, width) && spareRow !in output
      requires consumed < |image| && g == image[consumed]
      modifies this, spareRow, output
      ensures Valid(2) && rowsToGo == old(rowsToGo) - numRows && 1 <= numRows <= 2 && outRowCtr + numRows <= |output|
      ensures RowsOut(image, 2, width, output, outRowCtr, old(Row()), Row())
      ensures consumed == old(consumed) + (if used then 1 else 0)
      ensures rowsToGo > 0 ==> consumed < |image|
    {
      hide SimpleRow, ImageRow, RightTables;
      RowOfGroup(image, 2, width, consumed, 0);
      RowOfGroup(image, 2, width, consumed, 1);
      if spareFull {
        CopyRow(spareRow, output[outRowCtr]);
        numRows := 1;
        spareFull := false;
      } else {
        numRows := FreshGroup(g, output, outRowCtr);
      }
      rowsToGo := rowsToGo - numRows;
      used := !spareFull;
      if used {
        consumed := consumed + 1;
      }
    }

    /** A new row group: both rows to the output, or the second to the spare buffer. */
    method FreshGroup(g: Group, output: seq<array<Byte>>, outRowCtr: nat) returns (numRows: nat)
      requires RightTables(tables) && GroupFits(g, 2, width) && spareRow.Length == 3 * width
      requires !spareFull && rowsToGo > 0 && outRowCtr < |output| && Buffers(output, width) && spareRow !in output
      modifies this`spareFull, spareRow, output
      ensures 1 <= numRows <= 2 && numRows <= rowsToGo && outRowCtr + numRows <= |output|
      ensures output[outRowCtr][..] == SimpleRow(g, 2, width, 0)
      ensures if numRows == 2 then !spareFull && output[outRowCtr + 1][..] == SimpleRow(g, 2, width, 1)
              else spareFull && spareRow[..] == SimpleRow(g, 2, width, 1)
    {
      hide SimpleRow, RightTables;
      numRows := 2;
      if numRows > rowsToGo {
        numRows := rowsToGo;
      }
      var room := |output| - outRowCtr;
      if numRows > room {
        numRows := room;
      }
      var work0, work1 := output[outRowCtr], spareRow;
      if numRows > 1 {
        work1 := output[outRowCtr + 1];
      } else {
        spareFull := true;
      }
      H2v2MergedUpsample(tables, g, width, work0, work1);
    }

    /** merged_1v_upsample */
    method Merged1vUpsample(g: Group, output: seq<array<Byte>>, outRowCtr: nat)
      requires Valid(1) && rowsToGo > 0 && outRowCtr < |output| && Buffers(output, width) && spareRow !in output
      requires consumed < |image| && g == image[consumed]
      modifies this, output
      ensures Valid(1) && rowsToGo == old(rowsToGo) - 1 && consumed == old(consumed) + 1
      ensures RowsOut(image, 1, width, output, outRowCtr, old(Row()), Row())
    {
      hide SimpleRow;
      H2v1MergedUpsample(tables, g, width, output[outRowCtr]);
      rowsToGo := rowsToGo - 1;
      consumed := consumed + 1;
    }
  }

  // ----- the simple form at work -----

  /** The buffer holds a row stretched to twice its width. */
  ghost predicate Boxed(buf: seq<Byte>, row: seq<Byte>, width: nat) {
    width <= |buf| && 2 * |row| >= width && buf[..width] == Box(row, width)
  }

  /** The inner loop of h2v1_upsample and h2v2_upsample; the buffer is as wide as the image rounded up to even. */
  method BoxRow(row: seq<Byte>, width: nat, out: array<Byte>)
    requires 2 * |row| >= width && out.Length >= width && (width % 2 == 1 ==> out.Length > width)
    modifies out
    ensures Boxed(out[..], row, width)
  {
    var inptr, outptr := 0, 0;
    while outptr < width
      invariant outptr == 2 * inptr <= width + 1
      invariant forall x :: 0 <= x < outptr && x < width ==> out[x] == row[x / 2]
    {
      var invalue := row[inptr];
      inptr := inptr + 1;
      out[outptr] := invalue;
      out[outptr + 1] := invalue;
      outptr := outptr + 2;
    }
    assert out[..width] == Box(row, width);
  }

  /** ycc_rgb_convert for one row */
  method YccRgbConvert(t: Tables, y: seq<Byte>, cb: seq<Byte>, cr: seq<Byte>, width: nat, out: array<Byte>)
    requires RightTables(t) && |y| >= width && |cb| >= width && |cr| >= width && out.Length == 3 * width
    modifies out
    ensures out[..] == Converted(y, cb, cr, width)
  {
    hide CrToR, CbToB, CbCrToG, Rgb, Converted, Emitted, RightTables;
    ghost var row := Converted(y, cb, cr, width);
    NothingEmitted(out[..], row);
    var col := 0;
    while col < width
      invariant 0 <= col <= width && Emitted(out[..], row, col)
    {
      ConvertPixel(t, y[col], cb[col], cr[col], out, col, row, y, cb, cr, width);
      col := col + 1;
    }
    AllEmitted(out[..], row, width);
  }

  method ConvertPixel(t: Tables, py: Byte, pcb: Byte, pcr: Byte, out: array<Byte>, col: nat, ghost row: seq<Byte>,
                      ghost y: seq<Byte>, ghost cb: seq<Byte>, ghost cr: seq<Byte>, ghost width: nat)
    requires RightTables(t) && |y| >= width && |cb| >= width && |cr| >= width && out.Length == 3 * width && col < width
    requires row == Converted(y, cb, cr, width) && py == y[col] && pcb == cb[col] && pcr == cr[col]
    requires Emitted(out[..], row, col)
    modifies out
    ensures Emitted(out[..], row, col + 1)
  {
    hide CrToR, CbToB, CbCrToG, Rgb, Converted;
    TablesGive(t, pcb, pcr);
    PixelInRange(t, py, pcb, pcr);
    ConvertedAt(y, cb, cr, width, col);
    out[3 * col] := t.rangeLimit[py + t.crR[pcr] + 256];
    out[3 * col + 1] := t.rangeLimit[py + (t.cbG[pcb] + t.crG[pcr]) / 65536 + 256];
    out[3 * col + 2] := t.rangeLimit[py + t.cbB[pcb] + 256];
    EmittedNext(out[..], row, col);
  }

  class SepUpsampler {
    const v: nat
    const width: nat
    const height: nat
    const tables: Tables
    /** The conversion buffer: luma rows are used where they are, chroma rows are stretched into buffers. */
    var colorY: seq<seq<Byte>>
    const colorCb: seq<array<Byte>>
    const colorCr: seq<array<Byte>>
    var nextRowOut: nat
    var rowsToGo: nat

    ghost const image: seq<Group>
    ghost var consumed: nat

    ghost function Row(): int
      reads this
    {
      height - rowsToGo
    }

    ghost predicate Shape() {
      && RightTables(tables) && IsImage(image, v, width, height) && |colorCb| == |colorCr| == v
      && (forall i :: 0 <= i < v ==> colorCb[i].Length == colorCr[i].Length == width + width % 2)
      && (forall i, j :: 0 <= i < v && 0 <= j < v ==> colorCb[i] != colorCr[j])
      && (forall i, j :: 0 <= i < j < v ==> colorCb[i] != colorCb[j] && colorCr[i] != colorCr[j])
    }

    /** The buffers hold the row group. */
    ghost predicate Loaded(g: Group)
      requires Shape()
      reads this, colorCb, colorCr
    {
      && colorY == g.y
      && (forall i :: 0 <= i < v ==> Boxed(colorCb[i][..], g.cb, width))
      && (forall i :: 0 <= i < v ==> Boxed(colorCr[i][..], g.cr, width))
    }

    ghost predicate Valid()
      reads this, colorCb, colorCr
    {
      && Shape() && nextRowOut <= v && rowsToGo <= height
      && if nextRowOut < v then Row() == RowBase(v, consumed) + nextRowOut && consumed < |image| && Loaded(image[consumed])
         else Row() == RowBase(v, consumed)
    }

    /** The upsampling routines of the three components, for one row group. */
    method Fill(g: Group)
      requires Shape() && GroupFits(g, v, width)
      modifies this`colorY, colorCb, colorCr
      ensures Loaded(g)
    {
      hide Boxed;
      colorY := g.y;
      BoxRow(g.cb, width, colorCb[0]);
      BoxRow(g.cr, width, colorCr[0]);
      if v > 1 {
        CopyRow(colorCb[0], colorCb[1]);
        CopyRow(colorCr[0], colorCr[1]);
      }
    }

    method Refill(g: Group)
      requires Valid() && nextRowOut == v && rowsToGo > 0 && consumed < |image| && g == image[consumed]
      modifies this`colorY, this`nextRowOut, colorCb, colorCr
      ensures Valid() && nextRowOut == 0
    {
      hide Boxed, RightTables;
      Fill(g);
      nextRowOut := 0;
    }

    /** sep_upsample: fills the conversion buffer when it is empty, then converts as many rows as there is room for. */
    method SepUpsample(g: Group, output: seq<array<Byte>>, outRowCtr: nat) returns (numRows: nat, used: bool)
      requires Valid() && rowsToGo > 0 && outRowCtr < |output| && Buffers(output, width)
      requires forall i, k :: 0 <= i < v && 0 <= k < |output| ==> output[k] != colorCb[i] && output[k] != colorCr[i]
      requires consumed < |image| && g == image[consumed]
      modifies this, colorCb, colorCr, output
      ensures Valid() && rowsToGo == old(rowsToGo) - numRows && 1 <= numRows <= v && outRowCtr + numRows <= |output|
      ensures RowsOut(image, v, width, output, outRowCtr, old(Row()), Row())
      ensures consumed == old(consumed) + (if used then 1 else 0)
      ensures rowsToGo > 0 ==> consumed < |image|
    {
      hide Boxed, RightTables, RowsOut;
      if nextRowOut >= v {
        Refill(g);
      }
      numRows := v - nextRowOut;
      if numRows > rowsToGo {
        numRows := rowsToGo;
      }
      var room := |output| - outRowCtr;
      if numRows > room {
        numRows := room;
      }
      ConvertRows(g, numRows, output, outRowCtr);
      rowsToGo := rowsToGo - numRows;
      nextRowOut := nextRowOut + numRows;
      used := nextRowOut >= v;
      if used {
        consumed := consumed + 1;
      }
    }

    /** color_convert on the next n rows of the conversion buffer. */
    method ConvertRows(g: Group, n: nat, output: seq<array<Byte>>, at: nat)
      requires Shape() && Loaded(g) && consumed < |image| && g == image[consumed]
      requires nextRowOut + n <= v && at + n <= |output| && Buffers(output, width)
      requires forall i, k :: 0 <= i < v && 0 <= k < |output| ==> output[k] != colorCb[i] && output[k] != colorCr[i]
      modifies output
      ensures Loaded(g)
      ensures var first := RowBase(v, consumed) + nextRowOut; RowsOut(image, v, width, output, at, first, first + n)
    {
      hide Boxed, Converted, ImageRow;
      var k := 0;
      while k < n
        invariant 0 <= k <= n && Loaded(g)
        invariant forall j :: at <= j < at + k ==> output[j][..] == ImageRow(image, v, width, RowBase(v, consumed) + nextRowOut + (j - at))
      {
        ConvertRow(g, nextRowOut + k, output[at + k]);
        RowOfGroup(image, v, width, consumed, nextRowOut + k);
        k := k + 1;
      }
    }

    method ConvertRow(g: Group, r: nat, out: array<Byte>)
      requires Shape() && Loaded(g) && GroupFits(g, v, width) && r < v && out.Length == 3 * width
      modifies out
      ensures out[..] == SimpleRow(g, v, width, r)
    {
      YccRgbConvert(tables, colorY[r], colorCb[r][..width], colorCr[r][..width], width, out);
    }
  }

  lemma RowOfGroup(image: seq<Group>, v: nat, width: nat, c: nat, i: nat)
    requires 1 <= v <= 2 && (forall k :: 0 <= k < |image| ==> GroupFits(image[k], v, width)) && c < |image| && i < v
    ensures GroupOf(v, RowBase(v, c) + i) == c
    ensures ImageRow(image, v, width, RowBase(v, c) + i) == SimpleRow(image[c], v, width, i)
  {
  }

  /** jm_jcopy_sample_rows for one row */
  method CopyRow(from: array<Byte>, to: array<Byte>)
    requires from.Length == to.Length
    modifies to
    ensures to[..] == old(from[..])
  {
    forall i | 0 <= i < from.Length {
      to[i] := from[i];
    }
  }
}
