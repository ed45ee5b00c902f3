/** Every image with coefficients of eight-bit samples has an encoding, in a scan of any kind, if the tables
    code the symbols of Tables F.1 and F.2 of ITU-T T.81. */
module Encodable {
  import opened Bits
  import opened HuffmanTable
  import opened Coefficients
  import opened EntropySpec
  import opened BitPlanes
  import opened PointTransform
  import opened BaselineEncoder
  import opened ProgressiveEncoder
  import opened ScanEncoder
  import opened ScanGeometry
  import opened CoefController
  import opened RoundTrip

  /** DC categories 0 to 11. */
  predicate CodesDc(t: JHuffTbl) {
    forall n :: 0 <= n <= 11 ==> Codes(t, n)
  }

  /** EOB, ZRL and all runs with categories 1 to 10. */
  predicate AcSymbol(sym: nat) {
    sym == 0 || sym == 0xF0 || (sym < 256 && 1 <= sym % 16 <= 10)
  }

  ghost predicate CodesAc(t: JHuffTbl) {
    forall sym: nat :: AcSymbol(sym) ==> Codes(t, sym)
  }

  ghost predicate TablesSuffice(c: Scan) {
    match c.mode
    case Baseline => forall i :: 0 <= i < |c.membership| ==> CodesDc(c.dcTbl[i]) && CodesAc(c.acTbl[i])
    case DCFirst => forall i :: 0 <= i < |c.membership| ==> CodesDc(c.dcTbl[i])
    case DCRefine => true
    case ACFirst => CodesAc(c.acTbl[0])
    case ACRefine => CodesAc(c.acTbl[0])
  }

  predicate DcInRange(v: int) {
    -1024 <= v <= 1023
  }

  predicate BlockInRange(b: Block) {
    DcInRange(b[0]) && forall i :: 1 <= i < 64 ==> -1023 <= b[i] <= 1023
  }

  ghost predicate ImageInRange(img: seq<Block>) {
    forall b :: 0 <= b < |img| ==> BlockInRange(img[b])
  }

  predicate DcsInRange(dc: Predictions) {
    forall i :: 0 <= i < 4 ==> DcInRange(dc[i])
  }

  // ----- categories -----

  lemma {:induction false} CategoryAtMost(a: nat, n: nat)
    requires a < Shl(1, n)
    ensures Category(a) <= n
    decreases n
  {
    if n > 0 {
      CategoryAtMost(a / 2, n - 1);
    }
  }

  lemma Powers()
    ensures Shl(1, 10) == 1024 && Shl(1, 11) == 2048
  {
    PowersOfTwo();
    assert Shl(1, 9) == 512;
  }

  lemma SmallAc(v: int)
    requires -1023 <= v <= 1023
    ensures Category(Magnitude(v)) <= 10 && (v != 0 ==> Category(Magnitude(v)) >= 1)
  {
    hide Shl, Category;
    Powers();
    CategoryAtMost(Magnitude(v), 10);
    CategoryBounds(Magnitude(v));
  }

  lemma SmallDc(v: int, pred: int)
    requires DcInRange(v) && DcInRange(pred)
    ensures Category(Magnitude(v - pred)) <= 11
  {
    hide Shl, Category;
    Powers();
    CategoryAtMost(Magnitude(v - pred), 11);
  }

  lemma {:induction false} ShrSmall(v: int, al: nat)
    ensures DcInRange(v) ==> DcInRange(Shr(v, al))
    ensures 0 <= v <= 1023 ==> 0 <= Shr(v, al) <= 1023
    decreases al
  {
    if al > 0 {
      ShrSmall(v / 2, al - 1);
    }
  }

  lemma PartSmall(v: int, al: nat)
    requires -1023 <= v <= 1023
    ensures -1023 <= Part(v, al) <= 1023
  {
    ShrSmall(Magnitude(v), al);
  }

  lemma NotFirst(k: nat)
    requires 1 <= k <= 63
    ensures NaturalOrder(k) >= 1
  {
    ZigzagOfNatural(k);
  }

  // ----- blocks -----

  lemma {:induction false} AcIsCoded(t: JHuffTbl, b: Block, k: nat, run: nat)
    requires CodesAc(t) && BlockInRange(b) && 1 <= k
    ensures AcCoded(t, b, k, run)
    decreases 64 - k, run
  {
    hide Codes, NaturalOrder, Category;
    if k < 64 {
      NotFirst(k);
      SmallAc(b[NaturalOrder(k)]);
      if b[NaturalOrder(k)] == 0 {
        AcIsCoded(t, b, k + 1, run + 1);
      } else if run > 15 {
        AcIsCoded(t, b, k, run - 16);
      } else {
        AcIsCoded(t, b, k + 1, 0);
      }
    }
  }

  lemma {:induction false} FirstIsCoded(t: JHuffTbl, x: Block, k: nat, run: nat, se: nat, al: nat)
    requires CodesAc(t) && BlockInRange(x) && 1 <= k && se <= 63
    ensures FirstCoded(t, x, k, run, se, al)
    decreases 64 - k, run
  {
    hide Codes, NaturalOrder, Category, Part;
    if k <= se {
      NotFirst(k);
      PartSmall(x[NaturalOrder(k)], al);
      SmallAc(Part(x[NaturalOrder(k)], al));
      if Part(x[NaturalOrder(k)], al) == 0 {
        FirstIsCoded(t, x, k + 1, run + 1, se, al);
      } else if run > 15 {
        FirstIsCoded(t, x, k, run - 16, se, al);
      } else {
        FirstIsCoded(t, x, k + 1, 0, se, al);
      }
    }
  }

  lemma {:induction false} RefineIsCoded(t: JHuffTbl, x: Block, k: nat, se: nat, al: nat)
    requires CodesAc(t) && se <= 63
    ensures RefineCoded(t, x, k, se, al)
    decreases se + 1 - k
  {
    hide Codes, Zeros, NextFresh, Skip;
    var m := NextFresh(x, k, se, al);
    if m <= se {
      RefineIsCoded(t, x, m + 1, se, al);
      RefineIsCoded(t, x, Skip(x, k, 15, se, al) + 1, se, al);
    }
  }

  /** A run of a single block can be coded. */
  lemma OneIsCoded(t: JHuffTbl)
    requires CodesAc(t)
    ensures RunCoded(t, 1) && RunCoded(t, 0)
  {
    hide Codes;
    assert Category(1) == 1;
  }

  // ----- MCUs -----

  lemma {:induction false} McuIsCoded(c: Scan, img: seq<Block>, mcu: seq<nat>, dc: Predictions, i: nat)
    requires c.mode.Baseline? && TablesSuffice(c) && ImageInRange(img) && McuFits(c, mcu, |img|) && DcsInRange(dc) && i <= |mcu|
    ensures McuCoded(c, img, mcu, dc, i) && DcsInRange(McuDc(c, img, mcu, dc, i))
    decreases |mcu| - i
  {
    hide Codes, AcCoded, Category;
    if i < |mcu| {
      var b := img[mcu[i]];
      SmallDc(b[0], dc[c.membership[i]]);
      AcIsCoded(c.acTbl[i], b, 1, 0);
      McuIsCoded(c, img, mcu, dc[c.membership[i] := b[0]], i + 1);
    }
  }

  lemma {:induction false} DcIsCoded(c: Scan, img: seq<Block>, mcu: seq<nat>, dc: Predictions, i: nat)
    requires c.mode.DCFirst? && TablesSuffice(c) && ImageInRange(img) && McuFits(c, mcu, |img|) && DcsInRange(dc) && i <= |mcu|
    ensures DcCoded(c, img, mcu, dc, i) && DcsInRange(DcLast(c, img, mcu, dc, i))
    decreases |mcu| - i
  {
    hide Codes, Category, Shr;
    if i < |mcu| {
      var v := Shr(img[mcu[i]][0], c.al);
      ShrSmall(img[mcu[i]][0], c.al);
      SmallDc(v, dc[c.membership[i]]);
      DcIsCoded(c, img, mcu, dc[c.membership[i] := v], i + 1);
    }
  }

  /** Every MCU has an encoding that leaves no EOB run. */
  lemma PieceExists(c: Scan, img: seq<Block>, mcu: seq<nat>, dc: Predictions) returns (w: Piece)
    requires TablesSuffice(c) && ImageInRange(img) && McuFits(c, mcu, |img|) && DcsInRange(dc)
    ensures Encodes(c, img, mcu, dc, 0, w) && w.run == 0 && DcsInRange(NextDc(c, img, mcu, dc))
  {
    hide CodesAc, CodesDc, FirstCoded, FirstBits, RefineCoded, RefineBits, RunCoded, RunBits, McuCoded, McuBits, DcCoded, DcBits, DcTails;
    hide DcInRange, McuDc, DcLast, Trailing, Fresh;
    match c.mode
    case Baseline =>
      McuIsCoded(c, img, mcu, dc, 0);
      w := Piece(McuBits(c, img, mcu, dc, 0), 0);
    case DCFirst =>
      DcIsCoded(c, img, mcu, dc, 0);
      w := Piece(DcBits(c, img, mcu, dc, 0), 0);
    case DCRefine =>
      w := Piece(DcTails(img, mcu, c.al, 0), 0);
    case ACFirst =>
      var t, x := c.acTbl[0], img[mcu[0]];
      FirstIsCoded(t, x, c.ss, 0, c.se, c.al);
      OneIsCoded(t);
      w := Piece(FirstBits(t, x, c.ss, 0, c.se, c.al, RunBits(t, RunStarted(Trailing(x, c.se, c.al), 0))), 0);
    case ACRefine =>
      var t, x := c.acTbl[0], img[mcu[0]];
      RefineIsCoded(t, x, c.ss, c.se, c.al);
      OneIsCoded(t);
      w := Piece(RefineBits(t, x, c.ss, c.se, c.al, RunBits(t, RunStarted(!Fresh(x, c.se, c.al), 0))), 0);
  }

  lemma {:induction false} ListExists(c: Scan, img: seq<Block>, ms: seq<seq<nat>>, dc: Predictions) returns (ws: seq<Piece>)
    requires TablesSuffice(c) && ImageInRange(img) && AllFit(c, ms, |img|) && DcsInRange(dc)
    ensures ListEncodes(c, img, ms, ws, dc, 0)
    decreases |ms|
  {
    hide TablesSuffice, McuFits, Encodes, NextDc, DcsInRange, ImageInRange;
    if ms == [] {
      ws := [];
    } else {
      var w := PieceExists(c, img, ms[0], dc);
      var rest := ListExists(c, img, ms[1..], NextDc(c, img, ms[0], dc));
      ws := [w] + rest;
      assert ws[1..] == rest;
    }
  }

  lemma {:induction false} ScanExists(c: Scan, img: seq<Block>, ms: seq<seq<nat>>) returns (ws: seq<Piece>)
    requires TablesSuffice(c) && ImageInRange(img) && AllFit(c, ms, |img|)
    ensures ScanEncodes(c, img, ms, ws)
    decreases |ms|
  {
    hide TablesSuffice, ImageInRange, ListEncodes, AllFit;
    var r := c.restartInterval;
    if r == 0 || |ms| <= r {
      ws := ListExists(c, img, ms, NO_DC);
      ListLength(c, img, ms, ws, NO_DC);
    } else {
      AllFitParts(c, ms, r, |img|);
      var first := ListExists(c, img, ms[..r], NO_DC);
      ListLength(c, img, ms[..r], first, NO_DC);
      var rest := ScanExists(c, img, ms[r..]);
      ws := first + rest;
      assert ws[..r] == first && ws[r..] == rest;
    }
  }

  lemma ListLength(c: Scan, img: seq<Block>, ms: seq<seq<nat>>, ws: seq<Piece>, dc: Predictions)
    requires AllFit(c, ms, |img|) && ListEncodes(c, img, ms, ws, dc, 0)
    ensures |ws| == |ms|
  {
  }

  /** Every scan of such an image has an encoding. */
  lemma EncodingExists(c: Scan, im: Image, sc: seq<nat>, img: seq<Block>)
    requires Accepted(c) && TablesSuffice(c) && ImageInRange(img) && RunFits(c, im, sc, |img|)
    ensures exists ws :: Encoded(c, im, sc, img, ws)
  {
    hide Accepted, TablesSuffice, ImageInRange, AllFit, ScanEncodes, Rest;
    FitsRest(c, im, sc, img, 0, 0);
    var ws := ScanExists(c, img, Rest(im, sc, 0, 0));
    assert Encoded(c, im, sc, img, ws);
  }

  lemma {:induction false} FitsRest(c: Scan, im: Image, sc: seq<nat>, img: seq<Block>, r: nat, col: nat)
    requires RunFits(c, im, sc, |img|)
    ensures AllFit(c, Rest(im, sc, r, col), |img|)
  {
    var st := State(Running(ByteStream.Segment([], 0, 0), 0), false, 0, NO_DC, 0, 0);
    RunIsFold(c, im, sc, [], r, col, st, img);
  }

  // ----- tables that suffice -----

  /** Eight-bit codes for the symbols below n. */
  function FlatTable(n: nat): JHuffTbl {
    JHuffTbl(seq(17, l => if l == 8 then n else 0), seq(256, i requires 0 <= i < 256 => i))
  }

  lemma {:induction false} FlatOffset(n: nat, l: nat)
    requires l <= 17
    ensures Offset(FlatTable(n), l) == if l <= 8 then 0 else n
  {
    if l > 1 {
      FlatOffset(n, l - 1);
    }
  }

  lemma {:induction false} FlatKraft(n: nat, l: nat)
    requires l <= 16
    ensures Kraft(FlatTable(n), l) == if l < 8 then 0 else Shl(n, 8)
  {
    if l > 0 {
      FlatKraft(n, l - 1);
      ShlPositive(16 - l);
    }
  }

  lemma {:induction false} FoundBy(t: JHuffTbl, sym: nat, p: nat, j: nat)
    requires p <= j < Offset(t, 17) <= 256 && t.huffval[j] == sym
    ensures FindSymbol(t, sym, p) < Offset(t, 17)
    decreases j - p
  {
    hide Offset;
    if t.huffval[p] != sym {
      FoundBy(t, sym, p + 1, j);
    }
  }

  lemma FlatCodes(n: nat, sym: nat)
    requires sym < n <= 255
    ensures Codes(FlatTable(n), sym)
  {
    hide Offset;
    FlatOffset(n, 17);
    FoundBy(FlatTable(n), sym, 0, sym);
  }

  /** There are tables that validation accepts, DC and AC, and that code all those symbols. */
  lemma TablesExist()
    ensures Acceptable(FlatTable(12), true) && CodesFit(FlatTable(12)) && CodesDc(FlatTable(12))
    ensures Acceptable(FlatTable(251), false) && CodesFit(FlatTable(251)) && CodesAc(FlatTable(251))
  {
    hide Offset, Kraft, Codes, CodesFit, Shl;
    forall n: nat | n == 12 || n == 251
      ensures Offset(FlatTable(n), 17) == n && Kraft(FlatTable(n), 16) < Shl(1, 16) && CodesFit(FlatTable(n))
    {
      FlatOffset(n, 17);
      FlatKraft(n, 16);
      KraftMeansFit(FlatTable(n));
      Shl8(n);
      PowersOfTwo();
    }
    forall sym: nat | sym < 251
      ensures Codes(FlatTable(251), sym)
    {
      FlatCodes(251, sym);
    }
    forall sym: nat | sym < 12
      ensures Codes(FlatTable(12), sym)
    {
      FlatCodes(12, sym);
    }
  }
}
