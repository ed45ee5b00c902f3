/** The progressive encodings of section G.1.2 of ITU-T T.81, block by block, as what decoding has to undo:
    DC first scans, AC first scans with EOB runs, and the two kinds of refinement. */
module ProgressiveEncoder {
  import opened Bits
  import opened HuffmanTable
  import opened Coefficients
  import opened EntropySpec
  import opened BaselineEncoder
  import opened BitPlanes
  import opened PointTransform

  lemma BitAt(s: seq<bool>, p: nat, b: bool)
    requires HasAt(s, p, [b])
    ensures Peek(s, p, 1) == if b then 1 else 0
  {
    WindowAt(s, p, [b]);
    assert Value([b]) == 2 * Value([b][..0]) + if b then 1 else 0;
  }

  // ----- DC scans -----

  /** The differences of the shifted DC values of an MCU, from the i-th block on, have codes. */
  ghost predicate DcCoded(c: Scan, img: seq<Block>, mcu: seq<nat>, dc: Predictions, i: nat)
    requires McuFits(c, mcu, |img|) && i <= |mcu|
    decreases |mcu| - i
  {
    if i == |mcu| then true
    else
      var v := Shr(img[mcu[i]][0], c.al);
      ValueCoded(c.dcTbl[i], v - dc[c.membership[i]], 0) && DcCoded(c, img, mcu, dc[c.membership[i] := v], i + 1)
  }

  ghost function DcBits(c: Scan, img: seq<Block>, mcu: seq<nat>, dc: Predictions, i: nat): seq<bool>
    requires McuFits(c, mcu, |img|) && i <= |mcu| && DcCoded(c, img, mcu, dc, i)
    decreases |mcu| - i
  {
    if i == |mcu| then []
    else
      var v := Shr(img[mcu[i]][0], c.al);
      ValueBits(c.dcTbl[i], v - dc[c.membership[i]], 0) + DcBits(c, img, mcu, dc[c.membership[i] := v], i + 1)
  }

  /** The predictions an MCU leaves. */
  ghost function DcLast(c: Scan, img: seq<Block>, mcu: seq<nat>, dc: Predictions, i: nat): Predictions
    requires McuFits(c, mcu, |img|) && i <= |mcu|
    decreases |mcu| - i
  {
    if i == |mcu| then dc else DcLast(c, img, mcu, dc[c.membership[i] := Shr(img[mcu[i]][0], c.al)], i + 1)
  }

  ghost function DcPuts(c: Scan, img: seq<Block>, mcu: seq<nat>, i: nat): seq<Edit>
    requires McuFits(c, mcu, |img|) && i <= |mcu|
    decreases |mcu| - i
  {
    if i == |mcu| then [] else [Put(mcu[i], 0, DcAt(img[mcu[i]][0], c.al))] + DcPuts(c, img, mcu, i + 1)
  }

  lemma {:induction false} DcComesBack(c: Scan, img: seq<Block>, mcu: seq<nat>, s: seq<bool>, p: nat, eobrun: nat, dc: Predictions, i: nat)
    requires McuFits(c, mcu, |img|) && i <= |mcu| && forall j :: 0 <= j < |mcu| ==> CodesFit(c.dcTbl[j])
    requires DcCoded(c, img, mcu, dc, i) && HasAt(s, p, DcBits(c, img, mcu, dc, i))
    ensures DcFirstEdits(c, mcu, s, p, eobrun, dc, i)
         == Outcome(DcPuts(c, img, mcu, i), p + |DcBits(c, img, mcu, dc, i)|, eobrun, DcLast(c, img, mcu, dc, i))
    decreases |mcu| - i
  {
    hide CodesFit, HasAt, ValueCoded, ValueBits, Shl, Shr, Wrap16, Receive, NextSymbol, SymbolLength, Category;
    if i < |mcu| {
      var v := Shr(img[mcu[i]][0], c.al);
      var dc', diff := dc[c.membership[i] := v], v - dc[c.membership[i]];
      var bits := ValueBits(c.dcTbl[i], diff, 0);
      HasParts(s, p, bits, DcBits(c, img, mcu, dc', i + 1));
      ValueCodeComesBack(c.dcTbl[i], s, p, diff, 0);
      DcComesBack(c, img, mcu, s, p + |bits|, eobrun, dc', i + 1);
    }
  }

  /** A DC refinement is one bit for each block. */
  function DcTails(img: seq<Block>, mcu: seq<nat>, al: nat, i: nat): (w: seq<bool>)
    requires i <= |mcu| && forall j :: 0 <= j < |mcu| ==> mcu[j] < |img|
    ensures |w| == |mcu| - i
    decreases |mcu| - i
  {
    if i == |mcu| then [] else [BitOf(img[mcu[i]][0], al)] + DcTails(img, mcu, al, i + 1)
  }

  function DcSets(img: seq<Block>, mcu: seq<nat>, al: nat, i: nat): seq<Edit>
    requires i <= |mcu| && forall j :: 0 <= j < |mcu| ==> mcu[j] < |img|
    decreases |mcu| - i
  {
    if i == |mcu| then []
    else (if BitOf(img[mcu[i]][0], al) then [SetBit(mcu[i], 0, al)] else []) + DcSets(img, mcu, al, i + 1)
  }

  lemma {:induction false} DcTailsComeBack(img: seq<Block>, mcu: seq<nat>, al: nat, s: seq<bool>, p: nat, i: nat)
    requires i <= |mcu| && forall j :: 0 <= j < |mcu| ==> mcu[j] < |img|
    requires HasAt(s, p, DcTails(img, mcu, al, i))
    ensures DcRefineEdits(al, mcu, s, p, i) == DcSets(img, mcu, al, i)
    decreases |mcu| - i
  {
    hide HasAt, BitOf, Peek;
    if i < |mcu| {
      HasParts(s, p, [BitOf(img[mcu[i]][0], al)], DcTails(img, mcu, al, i + 1));
      BitAt(s, p, BitOf(img[mcu[i]][0], al));
      DcTailsComeBack(img, mcu, al, s, p + 1, i + 1);
    }
  }

  // ----- EOB runs -----

  /** A run of n blocks without anything (more) to code has a symbol. */
  predicate EobCoded(t: JHuffTbl, n: nat) {
    1 <= n <= 0x7FFF && Codes(t, 16 * (Category(n) - 1))
  }

  /** Section G.1.2.2: the symbol tells how many bits follow, which are those of n below its highest. */
  function EobBits(t: JHuffTbl, n: nat): seq<bool>
    requires EobCoded(t, n)
  {
    Code(t, 16 * (Category(n) - 1)) + LowBits(n, Category(n) - 1)
  }

  lemma PowersGrow(a: nat, b: nat)
    requires a <= b
    ensures Shl(1, a) <= Shl(1, b)
  {
    ShlShl(1, b - a, a);
    ShlPositive(b - a);
    ShlMonotone(1, Shl(1, b - a), a);
  }

  /** The highest bit and the rest of a number. */
  lemma HighestBit(n: nat)
    requires n > 0
    ensures var r := Category(n) - 1; n == Shl(1, r) + Value(LowBits(n, r)) && (n <= 0x7FFF ==> r <= 14)
  {
    hide Shl, Shr, Mask, LowBits, Value, Category;
    var r := Category(n) - 1;
    CategoryBounds(n);
    ShrMask(n, r);
    ShrRange(n, 1, r);
    ValueOfLowBits(n, r);
    ShlTwo();
    if Shr(n, r) == 0 {
      ShlPositive(r);
    }
    if r > 14 {
      PowersGrow(15, r);
      PowersOfTwo();
    }
  }

  lemma ShlTwo()
    ensures Shl(1, 1) == 2
  {
  }

  lemma EobComesBack(t: JHuffTbl, s: seq<bool>, p: nat, n: nat)
    requires CodesFit(t) && EobCoded(t, n) && HasAt(s, p, EobBits(t, n))
    ensures var r := Category(n) - 1;
            && NextSymbol(t, s, p) == 16 * r && r <= 14 && p + SymbolLength(t, s, p) + r == p + |EobBits(t, n)|
            && EobRun(s, p + SymbolLength(t, s, p), r) == n
  {
    hide CodesFit, Codes, Code, HasAt, Shl, LowBits, Value, Category, NextSymbol, SymbolLength, Window;
    var r := Category(n) - 1;
    HasParts(s, p, Code(t, 16 * r), LowBits(n, r));
    SymbolComesBack(t, s, p, 16 * r);
    WindowAt(s, p + |Code(t, 16 * r)|, LowBits(n, r));
    HighestBit(n);
  }

  // ----- first scans of a band -----

  predicate FirstCoded(t: JHuffTbl, x: Block, k: nat, run: nat, se: nat, al: nat)
    requires se <= 63
    decreases 64 - k, run
  {
    if k > se then true
    else if Part(x[NaturalOrder(k)], al) == 0 then FirstCoded(t, x, k + 1, run + 1, se, al)
    else if run > 15 then Codes(t, 0xF0) && FirstCoded(t, x, k, run - 16, se, al)
    else ValueCoded(t, Part(x[NaturalOrder(k)], al), run) && FirstCoded(t, x, k + 1, 0, se, al)
  }

  /** Figure G.3: as in a sequential scan, but with the code of an EOB run after the last zeros. */
  function FirstBits(t: JHuffTbl, x: Block, k: nat, run: nat, se: nat, al: nat, eob: seq<bool>): seq<bool>
    requires se <= 63 && FirstCoded(t, x, k, run, se, al)
    decreases 64 - k, run
  {
    if k > se then if run > 0 then eob else []
    else if Part(x[NaturalOrder(k)], al) == 0 then FirstBits(t, x, k + 1, run + 1, se, al, eob)
    else if run > 15 then Code(t, 0xF0) + FirstBits(t, x, k, run - 16, se, al, eob)
    else ValueBits(t, Part(x[NaturalOrder(k)], al), run) + FirstBits(t, x, k + 1, 0, se, al, eob)
  }

  /** The band of a block, to the accuracy of the scan, and zeros around it. */
  function Band(x: Block, ss: nat, se: nat, al: nat): Block {
    seq(64, i requires 0 <= i < 64 => if InBand(i, ss, se) then AcAt(x[i], al) else 0)
  }

  /** One step of decoding a band. */
  lemma FirstUnfold(t: JHuffTbl, s: seq<bool>, p: nat, k: nat, se: nat, al: nat, at: nat, dc: Predictions)
    requires se <= 63
    ensures k > se ==> AcFirstEdits(t, s, p, k, se, al, at, dc) == Outcome([], p, 0, dc)
    ensures k <= se ==>
              var p1, run, size := p + SymbolLength(t, s, p), NextSymbol(t, s, p) / 16, NextSymbol(t, s, p) % 16;
              var now := AcFirstEdits(t, s, p, k, se, al, at, dc);
              if size != 0 then
                var rest := AcFirstEdits(t, s, p1 + size, k + run + 1, se, al, at, dc);
                now == rest.(edits := [Put(at, NaturalOrder(k + run), Wrap16(Shl(Receive(s, p1, size), al)))] + rest.edits)
              else if run == 15 then now == AcFirstEdits(t, s, p1, k + 16, se, al, at, dc)
              else now == Outcome([], p1 + run, EobRun(s, p1, run) - 1, dc)
  {
    hide SymbolLength, NextSymbol, NaturalOrder, Receive, Wrap16, Shl, EobRun;
  }

  /** One step of encoding it, and of assigning it. */
  lemma FirstCases(t: JHuffTbl, x: Block, k: nat, run: nat, ss: nat, se: nat, al: nat, eob: seq<bool>, at: nat)
    requires se <= 63 && al <= 13 && ss <= k && FirstCoded(t, x, k, run, se, al)
    ensures k > se ==> FirstBits(t, x, k, run, se, al, eob) == (if run > 0 then eob else [])
    ensures k <= se ==>
              var v := Part(x[NaturalOrder(k)], al);
              var y := Band(x, ss, se, al);
              if v == 0 then
                && FirstCoded(t, x, k + 1, run + 1, se, al)
                && FirstBits(t, x, k, run, se, al, eob) == FirstBits(t, x, k + 1, run + 1, se, al, eob)
                && Puts(y, k, at) == Puts(y, k + 1, at)
              else if run > 15 then
                && Codes(t, 0xF0) && FirstCoded(t, x, k, run - 16, se, al)
                && FirstBits(t, x, k, run, se, al, eob) == Code(t, 0xF0) + FirstBits(t, x, k, run - 16, se, al, eob)
              else
                && ValueCoded(t, v, run) && FirstCoded(t, x, k + 1, 0, se, al)
                && FirstBits(t, x, k, run, se, al, eob) == ValueBits(t, v, run) + FirstBits(t, x, k + 1, 0, se, al, eob)
                && Puts(y, k, at) == [Put(at, NaturalOrder(k), Wrap16(Shl(v, al)))] + Puts(y, k + 1, at)
  {
    hide NaturalOrder, ZigzagOrder, Codes, Code, ValueCoded, ValueBits, Part, Shl, Wrap16;
    if k <= se {
      ZigzagOfNatural(k);
      FitsTowardsZero(x[NaturalOrder(k)], al);
      var y := Band(x, ss, se, al);
      assert y[NaturalOrder(k)] == AcAt(x[NaturalOrder(k)], al);
      assert [] + Puts(y, k + 1, at) == Puts(y, k + 1, at);
    }
  }

  /** Past the band there is nothing to assign. */
  lemma {:induction false} NothingPast(x: Block, ss: nat, se: nat, al: nat, k: nat, at: nat)
    requires k > se
    ensures Puts(Band(x, ss, se, al), k, at) == []
    decreases 64 - k
  {
    hide NaturalOrder, ZigzagOrder, AcAt;
    if k < 64 {
      ZigzagOfNatural(k);
      NothingPast(x, ss, se, al, k + 1, at);
    }
  }

  /** The band of a block ends in zeros. */
  predicate Trailing(x: Block, se: nat, al: nat)
    requires se <= 63
  {
    Part(x[NaturalOrder(se)], al) == 0
  }

  /** The code after the last zeros of a block from which a run of n blocks starts; 0 if there are no zeros left. */
  predicate RunCoded(t: JHuffTbl, n: nat) {
    n > 0 ==> EobCoded(t, n)
  }

  function RunBits(t: JHuffTbl, n: nat): seq<bool>
    requires RunCoded(t, n)
  {
    if n > 0 then EobBits(t, n) else []
  }

  function RunLeft(n: nat): nat {
    if n > 0 then n - 1 else 0
  }

  /** Decoding an encoded band assigns exactly its nonzero coefficients and takes up the EOB run. */
  lemma {:induction false} FirstComesBack(t: JHuffTbl, s: seq<bool>, p: nat, x: Block, k: nat, run: nat, ss: nat, se: nat, al: nat,
                                          n: nat, at: nat, dc: Predictions)
    requires CodesFit(t) && se <= 63 && al <= 13 && FirstCoded(t, x, k, run, se, al) && RunCoded(t, n)
    requires HasAt(s, p, FirstBits(t, x, k, run, se, al, RunBits(t, n)))
    requires ss + run <= k <= se + 1 && (n > 0 <==> Trailing(x, se, al)) && (k == se + 1 ==> (run > 0 <==> Trailing(x, se, al)))
    ensures AcFirstEdits(t, s, p, k - run, se, al, at, dc)
         == Outcome(Puts(Band(x, ss, se, al), k, at), p + |FirstBits(t, x, k, run, se, al, RunBits(t, n))|, RunLeft(n), dc)
    decreases 64 - k, run
  {
    hide CodesFit, HasAt, NaturalOrder, Wrap16, Shl, Receive, Codes, Code, NextSymbol, SymbolLength, ValueCoded, ValueBits, Category;
    hide AcFirstEdits, FirstBits, FirstCoded, Puts, Band, Part, EobRun, EobBits, EobCoded;
    FirstUnfold(t, s, p, k - run, se, al, at, dc);
    FirstCases(t, x, k, run, ss, se, al, RunBits(t, n), at);
    if k > se {
      NothingPast(x, ss, se, al, k, at);
      if run > 0 {
        EobComesBack(t, s, p, n);
      }
    } else {
      var v := Part(x[NaturalOrder(k)], al);
      if v == 0 {
        FirstComesBack(t, s, p, x, k + 1, run + 1, ss, se, al, n, at, dc);
      } else if run > 15 {
        HasParts(s, p, Code(t, 0xF0), FirstBits(t, x, k, run - 16, se, al, RunBits(t, n)));
        SymbolComesBack(t, s, p, 0xF0);
        FirstComesBack(t, s, p + |Code(t, 0xF0)|, x, k, run - 16, ss, se, al, n, at, dc);
      } else {
        HasParts(s, p, ValueBits(t, v, run), FirstBits(t, x, k + 1, 0, se, al, RunBits(t, n)));
        ValueCodeComesBack(t, s, p, v, run);
        FirstComesBack(t, s, p + |ValueBits(t, v, run)|, x, k + 1, 0, ss, se, al, n, at, dc);
      }
    }
  }

  // ----- refinement of a band -----

  /** The coefficient is known to be nonzero before this scan. */
  predicate History(x: Block, k: nat, al: nat)
    requires k <= 63
  {
    Part(x[NaturalOrder(k)], al + 1) != 0
  }

  /** It becomes nonzero in this scan. */
  predicate Fresh(x: Block, k: nat, al: nat)
    requires k <= 63
  {
    !History(x, k, al) && Part(x[NaturalOrder(k)], al) != 0
  }

  /** The next such coefficient from k on, or past the band. */
  function NextFresh(x: Block, k: nat, se: nat, al: nat): (m: nat)
    requires se <= 63
    ensures k <= m && (k <= se + 1 ==> m <= se + 1)
    decreases se + 1 - k
  {
    if k > se || Fresh(x, k, al) then k else NextFresh(x, k + 1, se, al)
  }

  /** Coefficients without history from k up to m. */
  function Zeros(x: Block, k: nat, m: nat, al: nat): nat
    requires m <= 64
    decreases m - k
  {
    if k >= m then 0 else (if History(x, k, al) then 0 else 1) + Zeros(x, k + 1, m, al)
  }

  /** The coefficient without history that comes after r others. */
  function Skip(x: Block, k: nat, r: nat, se: nat, al: nat): (j: nat)
    requires se <= 63
    ensures k <= j && (k <= se + 1 ==> j <= se + 1)
    decreases se + 1 - k
  {
    if k > se then k
    else if History(x, k, al) then Skip(x, k + 1, r, se, al)
    else if r == 0 then k
    else Skip(x, k + 1, r - 1, se, al)
  }

  /** The correction bits of the coefficients with history from k up to m. */
  function Corrections(x: Block, k: nat, m: nat, al: nat): seq<bool>
    requires m <= 64
    decreases m - k
  {
    if k >= m then []
    else (if History(x, k, al) then [BitOf(Abs(x[NaturalOrder(k)]), al)] else []) + Corrections(x, k + 1, m, al)
  }

  predicate RefineCoded(t: JHuffTbl, x: Block, k: nat, se: nat, al: nat)
    requires se <= 63
    decreases se + 1 - k
  {
    var m := NextFresh(x, k, se, al);
    if m > se then true
    else if Zeros(x, k, m, al) <= 15 then Codes(t, 16 * Zeros(x, k, m, al) + 1) && RefineCoded(t, x, m + 1, se, al)
    else Codes(t, 0xF0) && RefineCoded(t, x, Skip(x, k, 15, se, al) + 1, se, al)
  }

  /** Figures G.7 to G.9: a run/size code and a sign for each newly nonzero coefficient, ZRL for runs of 16 zeros,
      each followed by the correction bits of the history it passes; the rest goes with the EOB run. */
  function RefineBits(t: JHuffTbl, x: Block, k: nat, se: nat, al: nat, eob: seq<bool>): seq<bool>
    requires se <= 63 && RefineCoded(t, x, k, se, al)
    decreases se + 1 - k
  {
    var m := NextFresh(x, k, se, al);
    if m > se then if k > se then [] else eob + Corrections(x, k, se + 1, al)
    else if Zeros(x, k, m, al) <= 15 then
      Code(t, 16 * Zeros(x, k, m, al) + 1) + [x[NaturalOrder(m)] > 0] + Corrections(x, k, m, al) + RefineBits(t, x, m + 1, se, al, eob)
    else
      var j := Skip(x, k, 15, se, al);
      Code(t, 0xF0) + Corrections(x, k, j, al) + RefineBits(t, x, j + 1, se, al, eob)
  }

  /** What the scan does to one coefficient. */
  function Refinement(x: Block, k: nat, al: nat, at: nat): seq<Edit>
    requires k <= 63
  {
    if History(x, k, al) then if BitOf(Abs(x[NaturalOrder(k)]), al) then [Raise(at, NaturalOrder(k), al)] else []
    else if Fresh(x, k, al) then [Put(at, NaturalOrder(k), AcAt(x[NaturalOrder(k)], al))]
    else []
  }

  function Refinements(x: Block, k: nat, m: nat, al: nat, at: nat): seq<Edit>
    requires m <= 64
    decreases m - k
  {
    if k >= m then [] else Refinement(x, k, al, at) + Refinements(x, k + 1, m, al, at)
  }

  lemma {:induction false} RefinementsSplit(x: Block, k: nat, j: nat, m: nat, al: nat, at: nat)
    requires k <= j <= m <= 64
    ensures Refinements(x, k, m, al, at) == Refinements(x, k, j, al, at) + Refinements(x, j, m, al, at)
    decreases j - k
  {
    hide Refinement;
    if k < j {
      RefinementsSplit(x, k + 1, j, m, al, at);
      assert Refinement(x, k, al, at) + (Refinements(x, k + 1, j, al, at) + Refinements(x, j, m, al, at))
          == Refinement(x, k, al, at) + Refinements(x, k + 1, j, al, at) + Refinements(x, j, m, al, at);
    }
  }

  lemma RefinementsOne(x: Block, k: nat, al: nat, at: nat)
    requires k <= 63
    ensures Refinements(x, k, k + 1, al, at) == Refinement(x, k, al, at)
  {
    hide Refinement;
    assert Refinements(x, k + 1, k + 1, al, at) == [];
  }

  /** The decoder sees exactly this history. */
  ghost predicate Sees(nz: Pattern, x: Block, ss: nat, se: nat, al: nat)
    requires se <= 63
  {
    forall k: nat :: ss <= k <= se ==> nz[NaturalOrder(k)] == History(x, k, al)
  }

  lemma {:induction false} FreshFound(x: Block, k: nat, se: nat, al: nat)
    requires se <= 63 && NextFresh(x, k, se, al) <= se
    ensures Fresh(x, NextFresh(x, k, se, al), al)
    decreases se + 1 - k
  {
    hide Fresh;
    if k <= se && !Fresh(x, k, al) {
      FreshFound(x, k + 1, se, al);
    }
  }

  lemma FreshStep(x: Block, k: nat, se: nat, al: nat)
    requires se <= 63 && k <= se
    ensures NextFresh(x, k, se, al) == if Fresh(x, k, al) then k else NextFresh(x, k + 1, se, al)
    ensures Fresh(x, k, al) ==> !History(x, k, al)
  {
  }

  /** The zeros before a newly nonzero coefficient lead to it; a shorter run of them ends before it. */
  lemma {:induction false} SkipMeets(x: Block, k: nat, m: nat, r: nat, se: nat, al: nat)
    requires se <= 63 && k <= m == NextFresh(x, k, se, al) <= se
    ensures r == Zeros(x, k, m, al) ==> Skip(x, k, r, se, al) == m
    ensures r < Zeros(x, k, m, al) ==> Skip(x, k, r, se, al) < m
    decreases m - k
  {
    hide History, Fresh, NextFresh;
    FreshStep(x, k, se, al);
    if k == m {
      FreshFound(x, k, se, al);
      FreshStep(x, m, se, al);
    } else if History(x, k, al) {
      SkipMeets(x, k + 1, m, r, se, al);
    } else if r > 0 {
      SkipMeets(x, k + 1, m, r - 1, se, al);
    }
  }

  /** Nothing becomes nonzero before the next that does. */
  lemma {:induction false} FreshFrom(x: Block, k: nat, j: nat, se: nat, al: nat)
    requires se <= 63 && k <= j <= NextFresh(x, k, se, al)
    ensures NextFresh(x, j, se, al) == NextFresh(x, k, se, al)
    decreases se + 1 - k
  {
    hide Fresh;
    if k < j {
      FreshFrom(x, k + 1, j, se, al);
    }
  }

  /** Reading the correction bits on the way to a stop makes the refinements up to there. */
  lemma {:induction false} AdvanceReads(s: seq<bool>, p: nat, x: Block, k: nat, r: nat, ss: nat, se: nat, al: nat, at: nat, nz: Pattern)
    requires se <= 63 && ss <= k <= se + 1 && Sees(nz, x, ss, se, al)
    requires Skip(x, k, r, se, al) <= NextFresh(x, k, se, al) && HasAt(s, p, Corrections(x, k, Skip(x, k, r, se, al), al))
    ensures var j := Skip(x, k, r, se, al);
            Advance(s, p, k, se, r, al, at, nz) == Refined(Refinements(x, k, j, al, at), p + |Corrections(x, k, j, al)|, j, 0)
    decreases se + 1 - k
  {
    hide NaturalOrder, Part, Abs, Peek, HasAt, BitOf;
    var j := Skip(x, k, r, se, al);
    if k < j {
      assert nz[NaturalOrder(k)] == History(x, k, al);
      if History(x, k, al) {
        var bit := BitOf(Abs(x[NaturalOrder(k)]), al);
        HasParts(s, p, [bit], Corrections(x, k + 1, j, al));
        BitAt(s, p, bit);
        AdvanceReads(s, p + 1, x, k + 1, r, ss, se, al, at, nz);
      } else {
        assert [] + Corrections(x, k + 1, j, al) == Corrections(x, k + 1, j, al);
        assert [] + Refinements(x, k + 1, j, al, at) == Refinements(x, k + 1, j, al, at);
        AdvanceReads(s, p, x, k + 1, r - 1, ss, se, al, at, nz);
      }
    } else if k <= se {
      assert nz[NaturalOrder(k)] == History(x, k, al);
    }
  }

  /** Reading the correction bits of the rest of the band. */
  lemma {:induction false} RunReads(s: seq<bool>, p: nat, x: Block, k: nat, ss: nat, se: nat, al: nat, at: nat, nz: Pattern)
    requires se <= 63 && ss <= k <= se + 1 && Sees(nz, x, ss, se, al) && NextFresh(x, k, se, al) > se
    requires HasAt(s, p, Corrections(x, k, se + 1, al))
    ensures RunEdits(s, p, k, se, al, at, nz) == (Refinements(x, k, se + 1, al, at), p + |Corrections(x, k, se + 1, al)|)
    decreases se + 1 - k
  {
    hide NaturalOrder, Part, Abs, Peek, HasAt, BitOf;
    if k <= se {
      assert nz[NaturalOrder(k)] == History(x, k, al);
      if History(x, k, al) {
        var bit := BitOf(Abs(x[NaturalOrder(k)]), al);
        HasParts(s, p, [bit], Corrections(x, k + 1, se + 1, al));
        BitAt(s, p, bit);
        RunReads(s, p + 1, x, k + 1, ss, se, al, at, nz);
      } else {
        assert [] + Corrections(x, k + 1, se + 1, al) == Corrections(x, k + 1, se + 1, al);
        assert [] + Refinements(x, k + 1, se + 1, al, at) == Refinements(x, k + 1, se + 1, al, at);
        RunReads(s, p, x, k + 1, ss, se, al, at, nz);
      }
    }
  }

  /** The band has been read as far as codes go: what is left are corrections, and they end at bit e. */
  ghost predicate BandRead(o: Refined, s: seq<bool>, e: nat, x: Block, k: nat, se: nat, al: nat, n: nat, at: nat)
    requires se <= 63
  {
    && k <= o.k <= se + 1 && o.eobrun == n && (n == 0 ==> o.k == se + 1) && NextFresh(x, o.k, se, al) > se
    && o.edits + Refinements(x, o.k, se + 1, al, at) == Refinements(x, k, se + 1, al, at)
    && HasAt(s, o.at, Corrections(x, o.k, se + 1, al)) && o.at + |Corrections(x, o.k, se + 1, al)| == e
  }

  lemma BandUnfold(t: JHuffTbl, s: seq<bool>, p: nat, k: nat, se: nat, al: nat, at: nat, nz: Pattern)
    requires se <= 63
    ensures k > se ==> BandEdits(t, s, p, k, se, al, at, nz) == Refined([], p, k, 0)
    ensures k <= se ==>
              var p1, run, size := p + SymbolLength(t, s, p), NextSymbol(t, s, p) / 16, NextSymbol(t, s, p) % 16;
              var now := BandEdits(t, s, p, k, se, al, at, nz);
              if size == 0 && run != 15 then now == Refined([], p1 + run, k, EobRun(s, p1, run))
              else
                var o := Advance(s, if size != 0 then p1 + 1 else p1, k, se, run, al, at, nz);
                var rest := BandEdits(t, s, o.at, o.k + 1, se, al, at, nz);
                var added := if size != 0 then [Put(at, NaturalOrder(o.k), NewCoef(s, p1, al))] else [];
                now == rest.(edits := o.edits + added + rest.edits)
  {
    hide SymbolLength, NextSymbol, NaturalOrder, NewCoef, EobRun, Advance;
  }

  lemma RefineNone(t: JHuffTbl, x: Block, k: nat, se: nat, al: nat, eob: seq<bool>)
    requires se <= 63 && RefineCoded(t, x, k, se, al) && NextFresh(x, k, se, al) > se
    ensures RefineBits(t, x, k, se, al, eob) == if k > se then [] else eob + Corrections(x, k, se + 1, al)
  {
    hide Corrections, NextFresh;
  }

  lemma RefineNew(t: JHuffTbl, x: Block, k: nat, m: nat, z: nat, se: nat, al: nat, eob: seq<bool>)
    requires se <= 63 && RefineCoded(t, x, k, se, al) && m == NextFresh(x, k, se, al) <= se && z == Zeros(x, k, m, al) <= 15
    ensures Codes(t, 16 * z + 1) && RefineCoded(t, x, m + 1, se, al)
    ensures RefineBits(t, x, k, se, al, eob)
         == Code(t, 16 * z + 1) + ([x[NaturalOrder(m)] > 0] + (Corrections(x, k, m, al) + RefineBits(t, x, m + 1, se, al, eob)))
  {
    hide Codes, Code, Corrections, Zeros, NextFresh, Skip, NaturalOrder;
  }

  lemma RefineZrl(t: JHuffTbl, x: Block, k: nat, m: nat, j: nat, se: nat, al: nat, eob: seq<bool>)
    requires se <= 63 && RefineCoded(t, x, k, se, al) && m == NextFresh(x, k, se, al) <= se && Zeros(x, k, m, al) > 15
    requires j == Skip(x, k, 15, se, al) <= se
    ensures Codes(t, 0xF0) && RefineCoded(t, x, j + 1, se, al)
    ensures RefineBits(t, x, k, se, al, eob) == Code(t, 0xF0) + (Corrections(x, k, j, al) + RefineBits(t, x, j + 1, se, al, eob))
  {
    hide Codes, Code, Corrections, Zeros, NextFresh, Skip, NaturalOrder;
  }

  /** A stop is at a coefficient without history. */
  lemma {:induction false} SkipStops(x: Block, k: nat, r: nat, se: nat, al: nat)
    requires se <= 63 && Skip(x, k, r, se, al) <= se
    ensures !History(x, Skip(x, k, r, se, al), al)
    decreases se + 1 - k
  {
    hide History;
    if k <= se {
      if History(x, k, al) {
        SkipStops(x, k + 1, r, se, al);
      } else if r > 0 {
        SkipStops(x, k + 1, r - 1, se, al);
      }
    }
  }

  /** The last codes of a band: none, or an EOB run. */
  lemma BandEnds(t: JHuffTbl, s: seq<bool>, p: nat, x: Block, k: nat, ss: nat, se: nat, al: nat, n: nat, at: nat, nz: Pattern)
    requires CodesFit(t) && se <= 63 && k <= se + 1 && RefineCoded(t, x, k, se, al) && RunCoded(t, n)
    requires (n > 0 <==> !Fresh(x, se, al)) && (k == se + 1 ==> n == 0) && NextFresh(x, k, se, al) > se
    requires HasAt(s, p, RefineBits(t, x, k, se, al, RunBits(t, n)))
    ensures BandRead(BandEdits(t, s, p, k, se, al, at, nz), s, p + |RefineBits(t, x, k, se, al, RunBits(t, n))|, x, k, se, al, n, at)
  {
    hide CodesFit, HasAt, BandEdits, RefineBits, RefineCoded, Fresh, Corrections, NextFresh, Refinements, EobBits, EobCoded;
    hide NextSymbol, SymbolLength, EobRun, Advance, NaturalOrder, NewCoef, Category;
    BandUnfold(t, s, p, k, se, al, at, nz);
    RefineNone(t, x, k, se, al, RunBits(t, n));
    assert [] + Refinements(x, k, se + 1, al, at) == Refinements(x, k, se + 1, al, at);
    if k <= se {
      FreshFrom(x, k, se, se, al);
      FreshStep(x, se, se, al);
      HasParts(s, p, EobBits(t, n), Corrections(x, k, se + 1, al));
      EobComesBack(t, s, p, n);
    } else {
      NoCorrections(x, k, al);
    }
  }

  lemma NoCorrections(x: Block, k: nat, al: nat)
    requires k <= 64
    ensures Corrections(x, k, k, al) == []
  {
  }

  /** Where a correction comes before the rest of the band. */
  lemma BandJoins(o: Refined, rest: Refined, now: Refined, added: seq<Edit>, s: seq<bool>, e: nat, x: Block, k: nat, j: nat, se: nat, al: nat, n: nat, at: nat)
    requires k <= j <= se <= 63 && BandRead(rest, s, e, x, j + 1, se, al, n, at)
    requires o.edits == Refinements(x, k, j, al, at) && added == Refinement(x, j, al, at)
    requires now == rest.(edits := o.edits + added + rest.edits)
    ensures BandRead(now, s, e, x, k, se, al, n, at)
  {
    hide HasAt, Corrections, NextFresh, Refinements, Refinement;
    RefinementsSplit(x, k, j, se + 1, al, at);
    RefinementsSplit(x, j, j + 1, se + 1, al, at);
    RefinementsOne(x, j, al, at);
    var tail := Refinements(x, rest.k, se + 1, al, at);
    assert o.edits + added + rest.edits + tail == o.edits + (added + (rest.edits + tail));
  }

  /** A run/size code, the sign of the new coefficient, and the corrections on the way to it. */
  lemma NewReads(t: JHuffTbl, s: seq<bool>, p: nat, x: Block, k: nat, m: nat, ss: nat, se: nat, al: nat, at: nat, nz: Pattern, rest: seq<bool>)
    requires CodesFit(t) && se <= 63 && al <= 13 && ss <= k <= m == NextFresh(x, k, se, al) <= se && Sees(nz, x, ss, se, al)
    requires Zeros(x, k, m, al) <= 15 && Codes(t, 16 * Zeros(x, k, m, al) + 1)
    requires HasAt(s, p, Code(t, 16 * Zeros(x, k, m, al) + 1) + ([x[NaturalOrder(m)] > 0] + (Corrections(x, k, m, al) + rest)))
    ensures var z, q := Zeros(x, k, m, al), p + SymbolLength(t, s, p);
            && q == p + |Code(t, 16 * z + 1)| && NextSymbol(t, s, p) == 16 * z + 1
            && Advance(s, q + 1, k, se, z, al, at, nz) == Refined(Refinements(x, k, m, al, at), q + 1 + |Corrections(x, k, m, al)|, m, 0)
            && [Put(at, NaturalOrder(m), NewCoef(s, q, al))] == Refinement(x, m, al, at)
            && HasAt(s, q + 1 + |Corrections(x, k, m, al)|, rest)
  {
    hide CodesFit, HasAt, Codes, Code, Corrections, NextFresh, Refinements, NextSymbol, SymbolLength, Advance, NaturalOrder, Peek, Shl;
    hide Skip, Zeros, Part, BitOf, Shr, Wrap16;
    var z := Zeros(x, k, m, al);
    var q := p + |Code(t, 16 * z + 1)|;
    var bits := [x[NaturalOrder(m)] > 0];
    SkipMeets(x, k, m, z, se, al);
    HasParts(s, p, Code(t, 16 * z + 1), bits + (Corrections(x, k, m, al) + rest));
    HasParts(s, q, bits, Corrections(x, k, m, al) + rest);
    HasParts(s, q + 1, Corrections(x, k, m, al), rest);
    SymbolComesBack(t, s, p, 16 * z + 1);
    BitAt(s, q, x[NaturalOrder(m)] > 0);
    AdvanceReads(s, q + 1, x, k, z, ss, se, al, at, nz);
    FreshFound(x, k, se, al);
    AcNew(x[NaturalOrder(m)], al);
  }

  /** ZRL and the corrections on the way over 16 zeros. */
  lemma ZrlReads(t: JHuffTbl, s: seq<bool>, p: nat, x: Block, k: nat, m: nat, ss: nat, se: nat, al: nat, at: nat, nz: Pattern, rest: seq<bool>)
    requires CodesFit(t) && se <= 63 && al <= 13 && ss <= k <= m == NextFresh(x, k, se, al) <= se && Sees(nz, x, ss, se, al)
    requires Zeros(x, k, m, al) > 15 && Codes(t, 0xF0)
    requires HasAt(s, p, Code(t, 0xF0) + (Corrections(x, k, Skip(x, k, 15, se, al), al) + rest))
    ensures var j, q := Skip(x, k, 15, se, al), p + SymbolLength(t, s, p);
            && q == p + |Code(t, 0xF0)| && NextSymbol(t, s, p) == 0xF0 && j < m && NextFresh(x, j + 1, se, al) == m
            && Advance(s, q, k, se, 15, al, at, nz) == Refined(Refinements(x, k, j, al, at), q + |Corrections(x, k, j, al)|, j, 0)
            && Refinement(x, j, al, at) == [] && HasAt(s, q + |Corrections(x, k, j, al)|, rest)
  {
    hide CodesFit, HasAt, Codes, Code, Corrections, NextFresh, Refinements, NextSymbol, SymbolLength, Advance, NaturalOrder, Fresh, History;
    hide Skip, Zeros;
    var j, q := Skip(x, k, 15, se, al), p + |Code(t, 0xF0)|;
    SkipMeets(x, k, m, 15, se, al);
    SkipStops(x, k, 15, se, al);
    FreshFrom(x, k, j, se, al);
    FreshStep(x, j, se, al);
    HasParts(s, p, Code(t, 0xF0), Corrections(x, k, j, al) + rest);
    HasParts(s, q, Corrections(x, k, j, al), rest);
    SymbolComesBack(t, s, p, 0xF0);
    AdvanceReads(s, q, x, k, 15, ss, se, al, at, nz);
  }

  /** Decoding the codes of a band. */
  lemma {:induction false} BandReads(t: JHuffTbl, s: seq<bool>, p: nat, x: Block, k: nat, ss: nat, se: nat, al: nat, n: nat, at: nat, nz: Pattern)
    requires CodesFit(t) && se <= 63 && al <= 13 && ss <= k <= se + 1 && Sees(nz, x, ss, se, al)
    requires RefineCoded(t, x, k, se, al) && RunCoded(t, n) && (n > 0 <==> !Fresh(x, se, al)) && (k == se + 1 ==> n == 0)
    requires HasAt(s, p, RefineBits(t, x, k, se, al, RunBits(t, n)))
    ensures BandRead(BandEdits(t, s, p, k, se, al, at, nz), s, p + |RefineBits(t, x, k, se, al, RunBits(t, n))|, x, k, se, al, n, at)
    decreases se + 1 - k
  {
    hide CodesFit, HasAt, BandEdits, RefineBits, RefineCoded, Fresh, Corrections, NextFresh, Refinements, Refinement, RunBits, RunCoded;
    hide NextSymbol, SymbolLength, EobRun, Advance, NaturalOrder, NewCoef, BandRead, Sees, Codes, Code, Zeros, Skip;
    var m, eob := NextFresh(x, k, se, al), RunBits(t, n);
    if m > se {
      BandEnds(t, s, p, x, k, ss, se, al, n, at, nz);
    } else {
      BandUnfold(t, s, p, k, se, al, at, nz);
      if Zeros(x, k, m, al) <= 15 {
        RefineNew(t, x, k, m, Zeros(x, k, m, al), se, al, eob);
        var rest := RefineBits(t, x, m + 1, se, al, eob);
        NewReads(t, s, p, x, k, m, ss, se, al, at, nz, rest);
        FreshFound(x, k, se, al);
        var o := Advance(s, p + SymbolLength(t, s, p) + 1, k, se, Zeros(x, k, m, al), al, at, nz);
        BandReads(t, s, o.at, x, m + 1, ss, se, al, n, at, nz);
        BandJoins(o, BandEdits(t, s, o.at, m + 1, se, al, at, nz), BandEdits(t, s, p, k, se, al, at, nz),
                  Refinement(x, m, al, at), s, o.at + |rest|, x, k, m, se, al, n, at);
      } else {
        var j := Skip(x, k, 15, se, al);
        SkipMeets(x, k, m, 15, se, al);
        RefineZrl(t, x, k, m, j, se, al, eob);
        var rest := RefineBits(t, x, j + 1, se, al, eob);
        ZrlReads(t, s, p, x, k, m, ss, se, al, at, nz, rest);
        var o := Advance(s, p + SymbolLength(t, s, p), k, se, 15, al, at, nz);
        BandReads(t, s, o.at, x, j + 1, ss, se, al, n, at, nz);
        BandJoins(o, BandEdits(t, s, o.at, j + 1, se, al, at, nz), BandEdits(t, s, p, k, se, al, at, nz),
                  [], s, o.at + |rest|, x, k, j, se, al, n, at);
      }
    }
  }

  /** Decoding the refinement of a block refines its whole band and takes up the EOB run. */
  lemma RefineComesBack(t: JHuffTbl, s: seq<bool>, p: nat, x: Block, ss: nat, se: nat, al: nat, n: nat, at: nat, nz: Pattern, dc: Predictions)
    requires CodesFit(t) && ss <= se <= 63 && al <= 13 && Sees(nz, x, ss, se, al)
    requires RefineCoded(t, x, ss, se, al) && RunCoded(t, n) && (n > 0 <==> !Fresh(x, se, al))
    requires HasAt(s, p, RefineBits(t, x, ss, se, al, RunBits(t, n)))
    ensures AcRefineEdits(t, s, p, ss, se, al, at, nz, 0, dc)
         == Outcome(Refinements(x, ss, se + 1, al, at), p + |RefineBits(t, x, ss, se, al, RunBits(t, n))|, RunLeft(n), dc)
  {
    hide CodesFit, HasAt, BandEdits, RefineBits, RefineCoded, Fresh, Corrections, NextFresh, Refinements, RunBits, RunCoded, Sees, RunEdits;
    BandReads(t, s, p, x, ss, ss, se, al, n, at, nz);
    var o := BandEdits(t, s, p, ss, se, al, at, nz);
    if n > 0 {
      RunReads(s, o.at, x, o.k, ss, se, al, at, nz);
    } else {
      NoCorrections(x, se + 1, al);
      NoRefinements(x, se + 1, al, at);
    }
  }

  lemma NoRefinements(x: Block, k: nat, al: nat, at: nat)
    requires k <= 64
    ensures Refinements(x, k, k, al, at) == []
  {
  }

  /** Inside an EOB run only corrections are left. */
  lemma RefineInRun(t: JHuffTbl, s: seq<bool>, p: nat, x: Block, ss: nat, se: nat, al: nat, eobrun: nat, at: nat, nz: Pattern, dc: Predictions)
    requires ss <= se <= 63 && Sees(nz, x, ss, se, al) && eobrun > 0 && NextFresh(x, ss, se, al) > se
    requires HasAt(s, p, Corrections(x, ss, se + 1, al))
    ensures AcRefineEdits(t, s, p, ss, se, al, at, nz, eobrun, dc)
         == Outcome(Refinements(x, ss, se + 1, al, at), p + |Corrections(x, ss, se + 1, al)|, eobrun - 1, dc)
  {
    hide HasAt, Corrections, NextFresh, Refinements, RunEdits, Sees;
    RunReads(s, p, x, ss, ss, se, al, at, nz);
    assert [] + Refinements(x, ss, se + 1, al, at) == Refinements(x, ss, se + 1, al, at);
  }
}
