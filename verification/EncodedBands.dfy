/** Encoded MCUs keep to what a legal stream keeps to (sections G.1.2.2 and G.1.2.3 of ITU-T T.81): no run leads out of the
    band, and the sizes of shifted values fit, exactly if the image does not hold the most negative 16-bit number. */
module EncodedBands {
  import opened Bits
  import opened HuffmanTable
  import opened Coefficients
  import opened EntropySpec
  import opened BitPlanes
  import opened Bands
  import opened PointTransform
  import opened BaselineEncoder
  import opened ProgressiveEncoder
  import opened ScanEncoder

  /** The size of a value tells whether it fits in 16 bits, end point left aside, once it is shifted. */
  lemma CategoryDecides(x: int, al: nat)
    requires al <= 13 && x != 0
    ensures -0x8000 < Shl(x, al) < 0x8000 <==> Category(Magnitude(x)) + al <= 15
  {
    hide Shl, Category;
    var m, n := Magnitude(x), Category(Magnitude(x));
    CategoryBounds(m);
    PointTransform.ShlOfNegative(m, al);
    PowersOfTwo();
    if n + al <= 15 {
      ShlBelow(m, n, al);
      PowersGrow(n + al, 15);
      ShlPositive(al);
      ShlMonotone(0, m, al);
    } else {
      ShlShl(1, n - 1, al);
      ShlMonotone(Shl(1, n - 1), m, al);
      PowersGrow(15, n - 1 + al);
    }
  }

  // ----- first scans -----

  /** No coefficient of the band, from zigzag index k on, is the most negative number. */
  predicate NoExtreme(x: Block, k: nat, se: nat)
    requires se <= 63
  {
    forall j: nat :: k <= j <= se ==> x[NaturalOrder(j)] != -0x8000
  }

  lemma NoExtremeStep(x: Block, k: nat, se: nat)
    requires k <= se <= 63
    ensures NoExtreme(x, k, se) <==> x[NaturalOrder(k)] != -0x8000 && NoExtreme(x, k + 1, se)
  {
    hide NaturalOrder;
  }

  lemma SizeOfPart(v: Coef, al: nat)
    requires al <= 13 && Part(v, al) != 0
    ensures Category(Magnitude(Part(v, al))) + al <= 15 <==> v != -0x8000
  {
    hide Shl, Shr, Mask, Category;
    CategoryDecides(Part(v, al), al);
    var m := Abs(v);
    ShrMask(m, al);
    ShlOfNegative(Shr(m, al), al);
    if v == -0x8000 {
      ShlShl(1, 15 - al, al);
      PowersOfTwo();
      ClearOfShl(Shl(1, 15 - al), al);
    }
  }

  lemma ExtremeStays(al: nat)
    requires al <= 13
    ensures Part(-0x8000, al) != 0
  {
    hide Shl, Shr, Mask;
    ShlShl(1, 15 - al, al);
    PowersOfTwo();
    ClearOfShl(Shl(1, 15 - al), al);
    ShlPositive(15 - al);
  }

  /** One step of reading a band, as far as runs and sizes are concerned. */
  lemma InsideUnfold(t: JHuffTbl, s: seq<bool>, p: nat, k: nat, se: nat, al: nat)
    requires se <= 63
    ensures k > se ==> FirstInside(t, s, p, k, se) && SizesFit(t, s, p, k, se, al)
    ensures k <= se ==>
              var p1, run, size := p + SymbolLength(t, s, p), NextSymbol(t, s, p) / 16, NextSymbol(t, s, p) % 16;
              if size != 0 then
                && FirstInside(t, s, p, k, se) == (k + run <= se && FirstInside(t, s, p1 + size, k + run + 1, se))
                && SizesFit(t, s, p, k, se, al) == (size + al <= 15 && SizesFit(t, s, p1 + size, k + run + 1, se, al))
              else if run == 15 then
                && FirstInside(t, s, p, k, se) == FirstInside(t, s, p1, k + 16, se)
                && SizesFit(t, s, p, k, se, al) == SizesFit(t, s, p1, k + 16, se, al)
              else FirstInside(t, s, p, k, se) && SizesFit(t, s, p, k, se, al)
  {
    hide SymbolLength, NextSymbol;
  }

  /** An encoded band of a first scan. */
  lemma {:induction false} FirstStaysInside(t: JHuffTbl, s: seq<bool>, p: nat, x: Block, k: nat, run: nat, ss: nat, se: nat, al: nat, n: nat)
    requires CodesFit(t) && se <= 63 && al <= 13 && FirstCoded(t, x, k, run, se, al) && RunCoded(t, n)
    requires HasAt(s, p, FirstBits(t, x, k, run, se, al, RunBits(t, n)))
    requires ss + run <= k <= se + 1 && (n > 0 <==> Trailing(x, se, al)) && (k == se + 1 ==> (run > 0 <==> Trailing(x, se, al)))
    ensures FirstInside(t, s, p, k - run, se) && (SizesFit(t, s, p, k - run, se, al) <==> NoExtreme(x, k, se))
    decreases 64 - k, run
  {
    hide CodesFit, HasAt, NaturalOrder, Codes, Code, NextSymbol, SymbolLength, ValueBits, Category, Receive;
    hide FirstInside, SizesFit, FirstBits, FirstCoded, Puts, Band, Part, EobBits, EobCoded, EobRun, NoExtreme;
    InsideUnfold(t, s, p, k - run, se, al);
    FirstCases(t, x, k, run, ss, se, al, RunBits(t, n), 0);
    if k > se {
      NoneLeft(x, k, se);
      if run > 0 {
        EobComesBack(t, s, p, n);
      }
    } else {
      var v := Part(x[NaturalOrder(k)], al);
      NoExtremeStep(x, k, se);
      ExtremeStays(al);
      if v == 0 {
        FirstStaysInside(t, s, p, x, k + 1, run + 1, ss, se, al, n);
      } else if run > 15 {
        HasParts(s, p, Code(t, 0xF0), FirstBits(t, x, k, run - 16, se, al, RunBits(t, n)));
        SymbolComesBack(t, s, p, 0xF0);
        FirstStaysInside(t, s, p + |Code(t, 0xF0)|, x, k, run - 16, ss, se, al, n);
      } else {
        HasParts(s, p, ValueBits(t, v, run), FirstBits(t, x, k + 1, 0, se, al, RunBits(t, n)));
        ValueCodeComesBack(t, s, p, v, run);
        SizeOfPart(x[NaturalOrder(k)], al);
        FirstStaysInside(t, s, p + |ValueBits(t, v, run)|, x, k + 1, 0, ss, se, al, n);
      }
    }
  }

  lemma NoneLeft(x: Block, k: nat, se: nat)
    requires k > se && se <= 63
    ensures NoExtreme(x, k, se)
  {
  }

  // ----- refinements -----

  lemma RunsUnfold(t: JHuffTbl, s: seq<bool>, p: nat, k: nat, se: nat, al: nat, at: nat, nz: Pattern)
    requires se <= 63
    ensures k > se ==> RunsInside(t, s, p, k, se, al, at, nz)
    ensures k <= se ==>
              var p1, run, size := p + SymbolLength(t, s, p), NextSymbol(t, s, p) / 16, NextSymbol(t, s, p) % 16;
              if size == 0 && run != 15 then RunsInside(t, s, p, k, se, al, at, nz)
              else
                var o := Advance(s, if size != 0 then p1 + 1 else p1, k, se, run, al, at, nz);
                RunsInside(t, s, p, k, se, al, at, nz) == ((size != 0 ==> o.k <= se) && RunsInside(t, s, o.at, o.k + 1, se, al, at, nz))
  {
    hide SymbolLength, NextSymbol, Advance;
  }

  /** An encoded band of a refinement. */
  lemma {:induction false} BandStaysInside(t: JHuffTbl, s: seq<bool>, p: nat, x: Block, k: nat, ss: nat, se: nat, al: nat, n: nat, at: nat, nz: Pattern)
    requires CodesFit(t) && se <= 63 && al <= 13 && ss <= k <= se + 1 && Sees(nz, x, ss, se, al)
    requires RefineCoded(t, x, k, se, al) && RunCoded(t, n) && (n > 0 <==> !Fresh(x, se, al)) && (k == se + 1 ==> n == 0)
    requires HasAt(s, p, RefineBits(t, x, k, se, al, RunBits(t, n)))
    ensures RunsInside(t, s, p, k, se, al, at, nz)
    decreases se + 1 - k
  {
    hide CodesFit, HasAt, RefineBits, RefineCoded, Fresh, Corrections, NextFresh, Refinements, Refinement, RunBits, RunCoded;
    hide NextSymbol, SymbolLength, Advance, NaturalOrder, NewCoef, Sees, Codes, Code, Zeros, Skip, RunsInside;
    var m, eob := NextFresh(x, k, se, al), RunBits(t, n);
    RunsUnfold(t, s, p, k, se, al, at, nz);
    if m > se {
      EobInside(t, s, p, x, k, se, al, n, at, nz);
    } else if Zeros(x, k, m, al) <= 15 {
      RefineNew(t, x, k, m, Zeros(x, k, m, al), se, al, eob);
      NewReads(t, s, p, x, k, m, ss, se, al, at, nz, RefineBits(t, x, m + 1, se, al, eob));
      FreshFound(x, k, se, al);
      var o := Advance(s, p + SymbolLength(t, s, p) + 1, k, se, Zeros(x, k, m, al), al, at, nz);
      BandStaysInside(t, s, o.at, x, m + 1, ss, se, al, n, at, nz);
    } else {
      var j := Skip(x, k, 15, se, al);
      SkipMeets(x, k, m, 15, se, al);
      RefineZrl(t, x, k, m, j, se, al, eob);
      ZrlReads(t, s, p, x, k, m, ss, se, al, at, nz, RefineBits(t, x, j + 1, se, al, eob));
      var o := Advance(s, p + SymbolLength(t, s, p), k, se, 15, al, at, nz);
      BandStaysInside(t, s, o.at, x, j + 1, ss, se, al, n, at, nz);
    }
  }

  lemma EobInside(t: JHuffTbl, s: seq<bool>, p: nat, x: Block, k: nat, se: nat, al: nat, n: nat, at: nat, nz: Pattern)
    requires CodesFit(t) && se <= 63 && k <= se + 1 && RefineCoded(t, x, k, se, al) && RunCoded(t, n)
    requires (n > 0 <==> !Fresh(x, se, al)) && NextFresh(x, k, se, al) > se
    requires HasAt(s, p, RefineBits(t, x, k, se, al, RunBits(t, n)))
    ensures RunsInside(t, s, p, k, se, al, at, nz)
  {
    hide CodesFit, HasAt, RefineBits, RefineCoded, Fresh, Corrections, NextFresh, EobBits, EobCoded, NextSymbol, SymbolLength, EobRun, Advance, RunsInside, Category;
    RunsUnfold(t, s, p, k, se, al, at, nz);
    RefineNone(t, x, k, se, al, RunBits(t, n));
    if k <= se {
      FreshFrom(x, k, se, se, al);
      FreshStep(x, se, se, al);
      HasParts(s, p, EobBits(t, n), Corrections(x, k, se + 1, al));
      EobComesBack(t, s, p, n);
    }
  }

  // ----- MCUs -----

  /** The AC coefficients that the blocks of the image hold are not the most negative number. */
  ghost predicate Moderate(img: seq<Block>) {
    forall b: nat, i: nat :: b < |img| && 1 <= i < 64 ==> img[b][i] != -0x8000
  }

  lemma ModerateBand(img: seq<Block>, b: nat, ss: nat, se: nat)
    requires Moderate(img) && b < |img| && 1 <= ss && se <= 63
    ensures NoExtreme(img[b], ss, se)
  {
    hide NaturalOrder, ZigzagOrder;
    forall j: nat | ss <= j <= se
      ensures img[b][NaturalOrder(j)] != -0x8000
    {
      ZigzagOfNatural(j);
      DcIsFirst();
    }
  }

  lemma DcIsFirst()
    ensures ZigzagOrder(0) == 0
  {
  }

  /** An encoded MCU keeps its runs in the band. In a first scan of AC coefficients its sizes fit exactly if the band does not
      hold the most negative number. */
  lemma EncodedInBand(c: Scan, img: seq<Block>, mcu: seq<nat>, coefs: seq<Block>, s: seq<bool>, p: nat, eobrun: nat, dc: Predictions, w: Piece)
    requires Accepted(c) && McuFits(c, mcu, |img|) && AllReady(c, img, coefs, mcu)
    requires Encodes(c, img, mcu, dc, eobrun, w) && HasAt(s, p, w.bits)
    ensures McuInBand(c, mcu, coefs, s, p, eobrun)
    ensures c.mode.ACFirst? && eobrun == 0 ==>
              (SizesFit(c.acTbl[0], s, p, c.ss, c.se, c.al) <==> NoExtreme(img[mcu[0]], c.ss, c.se))
  {
    hide CodesFit, HasAt, FirstBits, FirstCoded, RefineBits, RefineCoded, RunBits, RunCoded, Trailing, Fresh, NextFresh, BandBlank;
    hide FirstInside, SizesFit, RunsInside, NoExtreme, NonZero, Sees, Corrections, Ready, McuCoded, DcCoded;
    match c.mode
    case ACFirst =>
      if eobrun == 0 {
        var x := img[mcu[0]];
        FirstStaysInside(c.acTbl[0], s, p, x, c.ss, 0, c.ss, c.se, c.al, RunStarted(Trailing(x, c.se, c.al), w.run));
      }
    case ACRefine =>
      if eobrun == 0 {
        var x := img[mcu[0]];
        HistorySeen(c, img, mcu[0], coefs);
        BandStaysInside(c.acTbl[0], s, p, x, c.ss, c.ss, c.se, c.al, RunStarted(!Fresh(x, c.se, c.al), w.run), mcu[0], NonZero(coefs[mcu[0]]));
      }
    case _ =>
  }
}
