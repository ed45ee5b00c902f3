/** What a scan does to the bit planes of the coefficients, whatever bytes it is decoded from, and what a whole
    progression of scans does (jdphuff.c, jdcoefct.c; sections G.1.2 and G.1.2.3 of ITU-T T.81). */
module ScanPlanes {
  import opened Bits
  import opened HuffmanTable
  import opened ByteStream
  import opened Coefficients
  import opened EntropySpec
  import opened BitPlanes
  import opened Bands
  import opened Delivery
  import opened BaselineEncoder
  import opened ScanEncoder
  import opened ScanGeometry
  import opened CoefController
  import opened RoundTrip
  import opened EncodedBands
  import opened Overflow

  // ----- one MCU -----

  /** The edits of one MCU of a scan: none if its restart never comes or its segment has run dry. */
  ghost function StepEdits(c: Scan, mcu: seq<nat>, file: seq<Byte>, st: State, coefs: seq<Block>): seq<Edit>
    requires McuFits(c, mcu, |coefs|)
  {
    var b := Begin(c, file, st);
    if b.stream.Running? then Decoded(c, mcu, b, coefs).edits else []
  }

  lemma StepIsEdits(c: Scan, mcu: seq<nat>, file: seq<Byte>, st: State, coefs: seq<Block>)
    requires McuFits(c, mcu, |coefs|)
    ensures AllInRange(StepEdits(c, mcu, file, st, coefs), |coefs|)
    ensures Step(c, mcu, file, st, coefs).1 == Apply(StepEdits(c, mcu, file, st, coefs), coefs)
  {
    hide McuOutcome, Apply, Begin, End, AllInRange;
    var b := Begin(c, file, st);
    ApplyNothing(coefs);
    NothingInRange(|coefs|);
    if b.stream.Running? {
      OutcomeFine(c, mcu, coefs, b.stream.seg.bits, b.stream.at, b.eobrun, b.dc);
    }
  }

  lemma NothingInRange(n: nat)
    ensures AllInRange([], n)
  {
  }

  /** All edits are of coefficients that the scan is about. */
  ghost predicate Within(es: seq<Edit>, c: Scan, mcu: seq<nat>) {
    forall i :: 0 <= i < |es| ==> es[i].block in mcu && es[i].pos < 64 && Sends(c, es[i].pos)
  }

  lemma {:induction false} AcEditsOf(t: JHuffTbl, s: seq<bool>, p: nat, k: nat, b: nat, c: Scan, mcu: seq<nat>)
    requires c.mode.Baseline? && b in mcu
    ensures Within(AcEdits(t, s, p, k, b).0, c, mcu)
    decreases 64 - k
  {
    hide NextSymbol, SymbolLength, NaturalOrder, Wrap16, Receive;
    if k < 64 {
      var p1, rs := p + SymbolLength(t, s, p), NextSymbol(t, s, p);
      if rs % 16 != 0 {
        AcEditsOf(t, s, p1 + rs % 16, k + rs / 16 + 1, b, c, mcu);
      } else {
        AcEditsOf(t, s, p1, k + 16, b, c, mcu);
      }
    }
  }

  lemma {:induction false} BaselineWithin(c: Scan, mcu: seq<nat>, s: seq<bool>, p: nat, eobrun: nat, dc: Predictions, i: nat)
    requires c.mode.Baseline? && |mcu| == |c.membership| && i <= |mcu|
    ensures Within(BaselineEdits(c, mcu, s, p, eobrun, dc, i).edits, c, mcu)
    decreases |mcu| - i
  {
    hide AcEdits, DcDiff, NextSymbol, SymbolLength, Wrap16;
    if i < |mcu| {
      AcEditsOf(c.acTbl[i], s, AfterDc(c.dcTbl[i], s, p), 1, mcu[i], c, mcu);
      var block := BlockEdits(c, mcu, s, p, dc, i);
      BaselineWithin(c, mcu, s, block.at, eobrun, block.dc, i + 1);
    }
  }

  lemma {:induction false} DcFirstWithin(c: Scan, mcu: seq<nat>, s: seq<bool>, p: nat, eobrun: nat, dc: Predictions, i: nat)
    requires c.mode.DCFirst? && |mcu| == |c.membership| && i <= |mcu|
    ensures Within(DcFirstEdits(c, mcu, s, p, eobrun, dc, i).edits, c, mcu)
    decreases |mcu| - i
  {
    hide DcDiff, NextSymbol, SymbolLength, Wrap16, Shl;
    if i < |mcu| {
      var block := DcEdit(c, mcu, s, p, dc, i);
      DcFirstWithin(c, mcu, s, block.at, eobrun, block.dc, i + 1);
    }
  }

  lemma {:induction false} DcRefineWithin(c: Scan, mcu: seq<nat>, s: seq<bool>, p: nat, i: nat)
    requires c.mode.DCRefine? && i <= |mcu|
    ensures Within(DcRefineEdits(c.al, mcu, s, p, i), c, mcu)
    decreases |mcu| - i
  {
    hide Peek;
    if i < |mcu| {
      DcRefineWithin(c, mcu, s, p + 1, i + 1);
    }
  }

  lemma {:induction false} AcFirstWithin(c: Scan, mcu: seq<nat>, s: seq<bool>, p: nat, k: nat, dc: Predictions)
    requires c.mode.ACFirst? && |mcu| == 1 && c.ss <= k && FirstInside(c.acTbl[0], s, p, k, c.se)
    ensures Within(AcFirstEdits(c.acTbl[0], s, p, k, c.se, c.al, mcu[0], dc).edits, c, mcu)
    decreases 64 - k
  {
    hide NextSymbol, SymbolLength, NaturalOrder, ZigzagOrder, Wrap16, Receive, Shl, EobRun;
    var t := c.acTbl[0];
    if k <= c.se {
      var p1, rs := p + SymbolLength(t, s, p), NextSymbol(t, s, p);
      if rs % 16 != 0 {
        ZigzagOfNatural(k + rs / 16);
        AcFirstWithin(c, mcu, s, p1 + rs % 16, k + rs / 16 + 1, dc);
      } else if rs / 16 == 15 {
        AcFirstWithin(c, mcu, s, p1, k + 16, dc);
      }
    }
  }

  lemma RefinesWithin(c: Scan, mcu: seq<nat>, es: seq<Edit>, nz: Pattern)
    requires c.mode.ACRefine? && |mcu| == 1 && Refines(es, mcu[0], c.al, nz, c.ss, c.se)
    ensures Within(es, c, mcu)
  {
    hide InBand;
    forall i | 0 <= i < |es|
      ensures es[i].block in mcu && es[i].pos < 64 && Sends(c, es[i].pos)
    {
      assert RefinesAt(es[i], mcu[0], c.al, nz, c.ss, c.se);
    }
  }

  lemma OutcomeWithin(c: Scan, mcu: seq<nat>, coefs: seq<Block>, s: seq<bool>, p: nat, eobrun: nat, dc: Predictions)
    requires McuFits(c, mcu, |coefs|) && McuInBand(c, mcu, coefs, s, p, eobrun)
    ensures Within(McuOutcome(c, mcu, coefs, s, p, eobrun, dc).edits, c, mcu)
  {
    hide BaselineEdits, DcFirstEdits, AcFirstEdits, DcRefineEdits, AcRefineEdits, LegalRefinement, FirstInside, Sends;
    match c.mode
    case Baseline => BaselineWithin(c, mcu, s, p, eobrun, dc, 0);
    case DCFirst => DcFirstWithin(c, mcu, s, p, eobrun, dc, 0);
    case DCRefine => DcRefineWithin(c, mcu, s, p, 0);
    case ACFirst =>
      if eobrun == 0 {
        AcFirstWithin(c, mcu, s, p, c.ss, dc);
      }
    case ACRefine =>
      McuRefines(c, mcu, coefs, s, p, eobrun, dc);
      RefinesWithin(c, mcu, McuOutcome(c, mcu, coefs, s, p, eobrun, dc).edits, NonZero(coefs[mcu[0]]));
  }

  lemma {:induction false} CellStays(es: seq<Edit>, c: Scan, mcu: seq<nat>, b: nat, i: nat, v: Coef)
    requires Within(es, c, mcu) && !(b in mcu && Sends(c, i))
    ensures Cell(es, b, i, v) == v
  {
    hide Sends;
    if es != [] {
      assert es[|es| - 1].block in mcu;
      CellStays(es[..|es| - 1], c, mcu, b, i, v);
    }
  }

  /** What an MCU is not about stays. */
  lemma StepKeeps(c: Scan, mcu: seq<nat>, file: seq<Byte>, st: State, coefs: seq<Block>, b: nat, i: nat)
    requires McuFits(c, mcu, |coefs|) && StepInBand(c, mcu, file, st, coefs) && b < |coefs| && i < 64
    requires !(b in mcu && Sends(c, i))
    ensures Step(c, mcu, file, st, coefs).1[b][i] == coefs[b][i]
  {
    hide McuOutcome, Apply, Begin, End, Sends, McuInBand, Step, Cell;
    StepIsEdits(c, mcu, file, st, coefs);
    var es, s := StepEdits(c, mcu, file, st, coefs), Begin(c, file, st);
    ApplyIsCellwise(es, coefs, b, i);
    if s.stream.Running? && !(s.starved && !c.mode.DCRefine?) {
      assert McuInBand(c, mcu, coefs, s.stream.seg.bits, s.stream.at, s.eobrun) by { AnyDcInBand(c, mcu, coefs, s.stream.seg.bits, s.stream.at, s.eobrun); }
      OutcomeWithin(c, mcu, coefs, s.stream.seg.bits, s.stream.at, s.eobrun, s.dc);
    }
    CellStays(es, c, mcu, b, i, coefs[b][i]);
  }

  lemma AnyDcInBand(c: Scan, mcu: seq<nat>, coefs: seq<Block>, s: seq<bool>, p: nat, eobrun: nat)
    requires McuFits(c, mcu, |coefs|)
    ensures c.mode.DCRefine? ==> McuInBand(c, mcu, coefs, s, p, eobrun)
  {
  }

  /** An MCU of a first pass keeps clear what is clear. */
  lemma StepClear(c: Scan, mcu: seq<nat>, file: seq<Byte>, st: State, coefs: seq<Block>, b: nat, i: nat)
    requires (c.mode.DCFirst? || c.mode.ACFirst?) && McuFits(c, mcu, |coefs|) && b < |coefs| && i < 64
    requires Clear(coefs[b][i], c.al)
    ensures Clear(Step(c, mcu, file, st, coefs).1[b][i], c.al)
  {
    hide McuOutcome, Apply, Begin, End, Clear, Step;
    StepIsEdits(c, mcu, file, st, coefs);
    ApplyNothing(coefs);
    var s := Begin(c, file, st);
    if s.stream.Running? && !s.starved {
      FirstPassPlanes(c, mcu, coefs, s.stream.seg.bits, s.stream.at, s.eobrun, s.dc, b, i);
    }
  }

  function IndexOf(mcu: seq<nat>, b: nat): (j: nat)
    requires b in mcu
    ensures j < |mcu| && mcu[j] == b
  {
    if mcu[0] == b then 0 else 1 + IndexOf(mcu[1..], b)
  }

  /** What an MCU of an AC refinement delivers to coefficient i of its block; nothing if it is not decoded. */
  ghost function StepDelivers(c: Scan, mcu: seq<nat>, file: seq<Byte>, st: State, coefs: seq<Block>, i: nat): Delivered
    requires c.mode.ACRefine? && McuFits(c, mcu, |coefs|)
  {
    var s := Begin(c, file, st);
    if s.stream.Running? && !s.starved then McuDelivers(c, mcu, coefs, s.stream.seg.bits, s.stream.at, s.eobrun, i) else NO_BIT
  }

  /** The coefficient takes exactly that. */
  lemma StepTakes(c: Scan, mcu: seq<nat>, file: seq<Byte>, st: State, coefs: seq<Block>, b: nat, i: nat)
    requires c.mode.ACRefine? && McuFits(c, mcu, |coefs|) && StepInBand(c, mcu, file, st, coefs) && b < |coefs| && i < 64
    requires b in mcu && Sends(c, i)
    ensures Step(c, mcu, file, st, coefs).1[b][i] == Took(coefs[b][i], StepDelivers(c, mcu, file, st, coefs, i), c.al)
  {
    hide McuOutcome, McuDelivers, Apply, Begin, End, Step, LegalRefinement, InBand, Took;
    StepIsEdits(c, mcu, file, st, coefs);
    ApplyNothing(coefs);
    NoBitTaken(coefs[b][i], c.al);
    var s := Begin(c, file, st);
    assert mcu == [mcu[0]];
    if s.stream.Running? && !s.starved {
      McuTakes(c, mcu, coefs, s.stream.seg.bits, s.stream.at, s.eobrun, s.dc, i);
    }
  }

  /** What an MCU of a first scan gives to coefficient i of block b; nothing if it is not decoded. */
  ghost function StepReceives(c: Scan, mcu: seq<nat>, file: seq<Byte>, st: State, b: nat, i: nat): int
    requires b in mcu && |mcu| == |c.membership|
  {
    var s := Begin(c, file, st);
    if s.stream.Running? && !s.starved
    then McuReceives(c, mcu, s.stream.seg.bits, s.stream.at, s.eobrun, s.dc, IndexOf(mcu, b), i) else 0
  }

  lemma StepStores(c: Scan, mcu: seq<nat>, file: seq<Byte>, st: State, coefs: seq<Block>, b: nat, i: nat)
    requires !c.mode.DCRefine? && !c.mode.ACRefine? && McuFits(c, mcu, |coefs|) && b in mcu && b < |coefs| && i < 64
    requires Count(mcu, b) == 1 && Sends(c, i) && coefs[b][i] == 0
    ensures Step(c, mcu, file, st, coefs).1[b][i] == Wrap16(Shl(StepReceives(c, mcu, file, st, b, i), LowBit(c)))
  {
    hide McuOutcome, McuReceives, Apply, Begin, End, Step, InBand, Wrap16, Shl, Count, LowBit;
    StepIsEdits(c, mcu, file, st, coefs);
    ApplyNothing(coefs);
    ZeroStored(LowBit(c));
    OnceOfCount(mcu, IndexOf(mcu, b));
    var s := Begin(c, file, st);
    if s.stream.Running? && !s.starved {
      McuStores(c, mcu, coefs, s.stream.seg.bits, s.stream.at, s.eobrun, s.dc, IndexOf(mcu, b), i);
    }
  }

  /** The bit that a DC refinement delivers to a block of an MCU; bits past the end of the segment are zero. */
  ghost function StepBit(c: Scan, mcu: seq<nat>, file: seq<Byte>, st: State, b: nat): nat
    requires b in mcu
  {
    var s := Begin(c, file, st);
    if s.stream.Running? then Peek(s.stream.seg.bits, s.stream.at + IndexOf(mcu, b), 1) else 0
  }

  /** An MCU of a DC refinement appends it. */
  lemma StepAppends(c: Scan, mcu: seq<nat>, file: seq<Byte>, st: State, coefs: seq<Block>, b: nat)
    requires c.mode.DCRefine? && McuFits(c, mcu, |coefs|) && b in mcu && b < |coefs|
    requires Count(mcu, b) == 1 && Clear(coefs[b][0], c.al + 1)
    ensures var v, now := coefs[b][0], Step(c, mcu, file, st, coefs).1[b][0];
            Clear(now, c.al) && Shr(now, c.al) == 2 * Shr(v, c.al + 1) + StepBit(c, mcu, file, st, b)
  {
    hide McuOutcome, Apply, Begin, End, Clear, Step, Shr, Peek;
    StepIsEdits(c, mcu, file, st, coefs);
    ApplyNothing(coefs);
    var s, j := Begin(c, file, st), IndexOf(mcu, b);
    ClearHalf(coefs[b][0], c.al);
    HalfOfClear(coefs[b][0], c.al);
    OnceOfCount(mcu, j);
    if s.stream.Running? {
      DcRefinementPlanes(c, mcu, coefs, s.stream.seg.bits, s.stream.at, s.eobrun, s.dc, j);
    }
  }

  lemma HalfOfClear(v: int, al: nat)
    requires Clear(v, al + 1)
    ensures Shr(v, al) == 2 * Shr(v, al + 1)
  {
    ClearHalf(v, al);
    PointTransform.OneMore(v, al);
  }

  lemma OnceOfCount(mcu: seq<nat>, j: nat)
    requires j < |mcu| && Count(mcu, mcu[j]) == 1
    ensures Once(mcu, j)
  {
    forall m | 0 <= m < |mcu| && mcu[m] == mcu[j]
      ensures m == j
    {
      if m < j {
        TwiceCounted(mcu, m, j);
      } else if j < m {
        TwiceCounted(mcu, j, m);
      }
    }
  }

  lemma TwiceCounted(mcu: seq<nat>, m: nat, j: nat)
    requires m < j < |mcu| && mcu[m] == mcu[j]
    ensures Count(mcu, mcu[j]) >= 2
  {
    assert mcu == mcu[..m + 1] + mcu[m + 1..];
    assert mcu[m] in mcu[..m + 1] && mcu[m + 1..][j - m - 1] == mcu[j];
  }

  // ----- a list of MCUs -----

  /** The runs of all MCUs stay in the band. */
  ghost predicate AllInBand(c: Scan, ms: seq<seq<nat>>, file: seq<Byte>, st: State, coefs: seq<Block>)
    requires AllFit(c, ms, |coefs|)
  {
    if ms == [] then true
    else
      var next := Step(c, ms[0], file, st, coefs);
      StepInBand(c, ms[0], file, st, coefs) && AllInBand(c, ms[1..], file, next.0, next.1)
  }

  lemma {:induction false} FoldKeeps(c: Scan, ms: seq<seq<nat>>, file: seq<Byte>, st: State, coefs: seq<Block>, b: nat, i: nat)
    requires AllFit(c, ms, |coefs|) && AllInBand(c, ms, file, st, coefs) && b < |coefs| && i < 64
    requires !(b in Flat(ms) && Sends(c, i))
    ensures Fold(c, ms, file, st, coefs).1[b][i] == coefs[b][i]
    decreases |ms|
  {
    hide Step, StepInBand, McuFits, Sends;
    if ms != [] {
      var next := Step(c, ms[0], file, st, coefs);
      StepKeeps(c, ms[0], file, st, coefs, b, i);
      FoldKeeps(c, ms[1..], file, next.0, next.1, b, i);
    }
  }

  lemma {:induction false} FoldClear(c: Scan, ms: seq<seq<nat>>, file: seq<Byte>, st: State, coefs: seq<Block>, b: nat, i: nat)
    requires (c.mode.DCFirst? || c.mode.ACFirst?) && AllFit(c, ms, |coefs|) && b < |coefs| && i < 64
    requires Clear(coefs[b][i], c.al)
    ensures Clear(Fold(c, ms, file, st, coefs).1[b][i], c.al)
    decreases |ms|
  {
    hide Step, McuFits, Clear;
    if ms != [] {
      var next := Step(c, ms[0], file, st, coefs);
      StepClear(c, ms[0], file, st, coefs, b, i);
      FoldClear(c, ms[1..], file, next.0, next.1, b, i);
    }
  }

  /** Where a block that occurs once in the list occurs. */
  lemma OnceSplit(ms: seq<seq<nat>>, b: nat)
    requires ms != [] && Count(Flat(ms), b) == 1
    ensures if b in ms[0] then Count(ms[0], b) == 1 && b !in Flat(ms[1..]) else Count(Flat(ms[1..]), b) == 1
  {
    CountAppend(ms[0], Flat(ms[1..]), b);
  }

  /** What an AC refinement delivers to coefficient i of block b. */
  ghost function FoldDelivers(c: Scan, ms: seq<seq<nat>>, file: seq<Byte>, st: State, coefs: seq<Block>, b: nat, i: nat): Delivered
    requires c.mode.ACRefine? && AllFit(c, ms, |coefs|)
  {
    if ms == [] then NO_BIT
    else if b in ms[0] then StepDelivers(c, ms[0], file, st, coefs, i)
    else
      var next := Step(c, ms[0], file, st, coefs);
      FoldDelivers(c, ms[1..], file, next.0, next.1, b, i)
  }

  lemma {:induction false} FoldTakes(c: Scan, ms: seq<seq<nat>>, file: seq<Byte>, st: State, coefs: seq<Block>, b: nat, i: nat)
    requires c.mode.ACRefine? && AllFit(c, ms, |coefs|) && AllInBand(c, ms, file, st, coefs) && b < |coefs| && i < 64
    requires Count(Flat(ms), b) == 1 && Sends(c, i)
    ensures Fold(c, ms, file, st, coefs).1[b][i] == Took(coefs[b][i], FoldDelivers(c, ms, file, st, coefs, b, i), c.al)
    decreases |ms|
  {
    hide Step, StepInBand, StepDelivers, McuFits, Sends, Count, Took;
    if ms == [] {
      CountNone(b);
    } else {
      var next := Step(c, ms[0], file, st, coefs);
      OnceSplit(ms, b);
      if b in ms[0] {
        StepTakes(c, ms[0], file, st, coefs, b, i);
        FoldKeeps(c, ms[1..], file, next.0, next.1, b, i);
      } else {
        StepKeeps(c, ms[0], file, st, coefs, b, i);
        FoldTakes(c, ms[1..], file, next.0, next.1, b, i);
      }
    }
  }

  /** What a first scan gives to coefficient i of block b. */
  ghost function FoldReceives(c: Scan, ms: seq<seq<nat>>, file: seq<Byte>, st: State, coefs: seq<Block>, b: nat, i: nat): int
    requires AllFit(c, ms, |coefs|)
  {
    if ms == [] then 0
    else if b in ms[0] then StepReceives(c, ms[0], file, st, b, i)
    else
      var next := Step(c, ms[0], file, st, coefs);
      FoldReceives(c, ms[1..], file, next.0, next.1, b, i)
  }

  lemma {:induction false} FoldStores(c: Scan, ms: seq<seq<nat>>, file: seq<Byte>, st: State, coefs: seq<Block>, b: nat, i: nat)
    requires !c.mode.DCRefine? && !c.mode.ACRefine? && AllFit(c, ms, |coefs|) && AllInBand(c, ms, file, st, coefs) && b < |coefs| && i < 64
    requires Count(Flat(ms), b) == 1 && Sends(c, i) && coefs[b][i] == 0
    ensures Fold(c, ms, file, st, coefs).1[b][i] == Wrap16(Shl(FoldReceives(c, ms, file, st, coefs, b, i), LowBit(c)))
    decreases |ms|
  {
    hide Step, StepInBand, StepReceives, McuFits, Sends, Count, Wrap16, Shl, LowBit;
    if ms == [] {
      CountNone(b);
    } else {
      var next := Step(c, ms[0], file, st, coefs);
      OnceSplit(ms, b);
      if b in ms[0] {
        StepStores(c, ms[0], file, st, coefs, b, i);
        FoldKeeps(c, ms[1..], file, next.0, next.1, b, i);
      } else {
        StepKeeps(c, ms[0], file, st, coefs, b, i);
        FoldStores(c, ms[1..], file, next.0, next.1, b, i);
      }
    }
  }

  /** The bit that a DC refinement delivers to a block. */
  ghost function FoldBit(c: Scan, ms: seq<seq<nat>>, file: seq<Byte>, st: State, coefs: seq<Block>, b: nat): nat
    requires AllFit(c, ms, |coefs|)
  {
    if ms == [] then 0
    else if b in ms[0] then StepBit(c, ms[0], file, st, b)
    else
      var next := Step(c, ms[0], file, st, coefs);
      FoldBit(c, ms[1..], file, next.0, next.1, b)
  }

  /** The runs of a DC scan are no matter. */
  lemma {:induction false} DcInBand(c: Scan, ms: seq<seq<nat>>, file: seq<Byte>, st: State, coefs: seq<Block>)
    requires AllFit(c, ms, |coefs|) && !c.mode.ACFirst? && !c.mode.ACRefine?
    ensures AllInBand(c, ms, file, st, coefs)
    decreases |ms|
  {
    hide Step, McuFits, Begin;
    if ms != [] {
      var next := Step(c, ms[0], file, st, coefs);
      DcInBand(c, ms[1..], file, next.0, next.1);
    }
  }

  lemma {:induction false} FoldAppends(c: Scan, ms: seq<seq<nat>>, file: seq<Byte>, st: State, coefs: seq<Block>, b: nat)
    requires c.mode.DCRefine? && AllFit(c, ms, |coefs|) && b < |coefs|
    requires Count(Flat(ms), b) == 1 && Clear(coefs[b][0], c.al + 1)
    ensures var v, now := coefs[b][0], Fold(c, ms, file, st, coefs).1[b][0];
            Clear(now, c.al) && Shr(now, c.al) == 2 * Shr(v, c.al + 1) + FoldBit(c, ms, file, st, coefs, b)
    decreases |ms|
  {
    hide Step, StepInBand, McuFits, Clear, Sends, Shr, Count, StepBit;
    DcInBand(c, ms, file, st, coefs);
    if ms == [] {
      CountNone(b);
    } else {
      var next := Step(c, ms[0], file, st, coefs);
      OnceSplit(ms, b);
      if b in ms[0] {
        StepAppends(c, ms[0], file, st, coefs, b);
        FoldKeeps(c, ms[1..], file, next.0, next.1, b, 0);
      } else {
        StepKeeps(c, ms[0], file, st, coefs, b, 0);
        FoldAppends(c, ms[1..], file, next.0, next.1, b);
      }
    }
  }

  // ----- a scan -----

  /** The runs of the whole scan stay in its band. */
  ghost predicate ScanInBand(c: Scan, im: Image, sc: seq<nat>, file: seq<Byte>, st: State, coefs: seq<Block>)
    requires RunFits(c, im, sc, |coefs|)
  {
    RunIsFold(c, im, sc, file, 0, 0, st, coefs);
    AllInBand(c, Rest(im, sc, 0, 0), file, st, coefs)
  }

  /** The bit that a DC refinement delivers to block b. */
  ghost function DeliveredBit(c: Scan, im: Image, sc: seq<nat>, file: seq<Byte>, st: State, coefs: seq<Block>, b: nat): nat
    requires RunFits(c, im, sc, |coefs|)
  {
    RunIsFold(c, im, sc, file, 0, 0, st, coefs);
    FoldBit(c, Rest(im, sc, 0, 0), file, st, coefs, b)
  }

  /** What an AC refinement delivers to coefficient i of block b: a magnitude bit, and the sign of a new coefficient. */
  ghost function DeliveredAc(c: Scan, im: Image, sc: seq<nat>, file: seq<Byte>, st: State, coefs: seq<Block>, b: nat, i: nat): Delivered
    requires c.mode.ACRefine? && RunFits(c, im, sc, |coefs|)
  {
    RunIsFold(c, im, sc, file, 0, 0, st, coefs);
    FoldDelivers(c, Rest(im, sc, 0, 0), file, st, coefs, b, i)
  }

  /** What a first scan gives to coefficient i of block b, before it is shifted. */
  ghost function ReceivedValue(c: Scan, im: Image, sc: seq<nat>, file: seq<Byte>, st: State, coefs: seq<Block>, b: nat, i: nat): int
    requires RunFits(c, im, sc, |coefs|)
  {
    RunIsFold(c, im, sc, file, 0, 0, st, coefs);
    FoldReceives(c, Rest(im, sc, 0, 0), file, st, coefs, b, i)
  }

  /** What a scan is not about stays as it is. */
  lemma ScanKeeps(c: Scan, im: Image, sc: seq<nat>, file: seq<Byte>, st: State, coefs: seq<Block>, k: nat, y: nat, x: nat, i: nat)
    requires RunFits(c, im, sc, |coefs|) && ScanInBand(c, im, sc, file, st, coefs) && InGrid(im, k, y, x) && i < 64
    requires !(InScan(im, sc, k, y, x) && Sends(c, i))
    ensures var b := Index(im, k, y, x);
            b < |coefs| && Run(c, im, sc, file, 0, 0, st, coefs).1[b][i] == coefs[b][i]
  {
    hide Run, Fold, Rest, Flat, Index, InScan, Sends, AllInBand, TotalBlocks, PaddedHeight, PaddedWidth;
    RunIsFold(c, im, sc, file, 0, 0, st, coefs);
    IndexInside(im, k, y, x);
    ScanCovers(im, sc, k, y, x);
    FoldKeeps(c, Rest(im, sc, 0, 0), file, st, coefs, Index(im, k, y, x), i);
  }

  /** A first scan at al leaves a multiple of 2^al wherever there was one, zero for instance. */
  lemma FirstScanPlanes(c: Scan, im: Image, sc: seq<nat>, file: seq<Byte>, st: State, coefs: seq<Block>, b: nat, i: nat)
    requires (c.mode.DCFirst? || c.mode.ACFirst?) && RunFits(c, im, sc, |coefs|) && b < |coefs| && i < 64
    requires Clear(coefs[b][i], c.al)
    ensures Clear(Run(c, im, sc, file, 0, 0, st, coefs).1[b][i], c.al)
  {
    hide Run, Fold, Rest, Clear;
    RunIsFold(c, im, sc, file, 0, 0, st, coefs);
    FoldClear(c, Rest(im, sc, 0, 0), file, st, coefs, b, i);
  }

  /** The blocks of a scan of distinct components are visited once. */
  lemma VisitedOnce(im: Image, sc: seq<nat>, k: nat, y: nat, x: nat)
    requires Selects(im, sc) && NoRepeats(sc) && InScan(im, sc, k, y, x)
    ensures Count(Flat(Rest(im, sc, 0, 0)), Index(im, k, y, x)) == 1
  {
    hide Index, Rest, Flat, McuRows, McuCols, PaddedHeight, PaddedWidth, HeightInBlocks, WidthInBlocks, Visits;
    VisitsAddUp(im, sc, 0, 0, Index(im, k, y, x));
    NothingVisited(im, sc, Index(im, k, y, x));
    ScanVisitsOnce(im, sc, k, y, x);
    CountedOnce(sc, k);
  }

  lemma NothingVisited(im: Image, sc: seq<nat>, b: nat)
    requires Selects(im, sc)
    ensures Visits(im, sc, 0, 0, b) == 0
  {
  }

  lemma {:induction false} CountedOnce(s: seq<nat>, k: nat)
    requires NoRepeats(s)
    ensures multiset(s)[k] == if k in s then 1 else 0
    decreases |s|
  {
    if s != [] {
      var n := |s| - 1;
      CountedOnce(s[..n], k);
      assert s == s[..n] + [s[n]];
    }
  }

  /** A first scan whose runs stay in band stores, where there was zero, the value it has received for that coefficient, shifted
      and cut to 16 bits. */
  lemma FirstScanStores(c: Scan, im: Image, sc: seq<nat>, file: seq<Byte>, st: State, coefs: seq<Block>, k: nat, y: nat, x: nat, i: nat)
    requires !c.mode.DCRefine? && !c.mode.ACRefine? && RunFits(c, im, sc, |coefs|) && ScanInBand(c, im, sc, file, st, coefs)
    requires InScan(im, sc, k, y, x) && i < 64 && Sends(c, i) && NoRepeats(sc)
    ensures var b := Index(im, k, y, x);
            && b < |coefs|
            && (coefs[b][i] == 0 ==>
                  Run(c, im, sc, file, 0, 0, st, coefs).1[b][i]
                  == Wrap16(Shl(ReceivedValue(c, im, sc, file, st, coefs, b, i), LowBit(c))))
  {
    hide Run, Fold, Rest, Flat, Index, Sends, Shl, Wrap16, Count, AllInBand, FoldReceives, TotalBlocks, HeightInBlocks, WidthInBlocks, PaddedHeight, PaddedWidth;
    RunIsFold(c, im, sc, file, 0, 0, st, coefs);
    IndexInside(im, k, y, x);
    VisitedOnce(im, sc, k, y, x);
    var b := Index(im, k, y, x);
    if coefs[b][i] == 0 {
      FoldStores(c, Rest(im, sc, 0, 0), file, st, coefs, b, i);
    }
  }

  /** An AC refinement scan at al whose runs stay in the band: every coefficient it is about takes exactly what the scan delivers
      to it. Where al+1 low-order bits were clear, that appends the delivered bit to the magnitude, and keeps the sign or, if
      there was none, sets it as delivered. */
  lemma AcRefinementScanPlanes(c: Scan, im: Image, sc: seq<nat>, file: seq<Byte>, st: State, coefs: seq<Block>, k: nat, y: nat, x: nat, i: nat)
    requires c.mode.ACRefine? && RunFits(c, im, sc, |coefs|) && ScanInBand(c, im, sc, file, st, coefs)
    requires InScan(im, sc, k, y, x) && i < 64 && Sends(c, i) && NoRepeats(sc)
    ensures var b := Index(im, k, y, x);
            && b < |coefs|
            && var v, now := coefs[b][i], Run(c, im, sc, file, 0, 0, st, coefs).1[b][i];
               var d := DeliveredAc(c, im, sc, file, st, coefs, b, i);
               && now == Took(v, d, c.al)
               && (Clear(v, c.al + 1) && v != -0x8000 ==> TookBit(v, now, d, c.al) && RefinedTo(v, now, c.al))
  {
    hide Run, Fold, Rest, Flat, Index, Sends, Clear, Shl, Took, TookBit, Count, AllInBand, FoldDelivers, TotalBlocks, HeightInBlocks, WidthInBlocks, PaddedHeight, PaddedWidth;
    RunIsFold(c, im, sc, file, 0, 0, st, coefs);
    IndexInside(im, k, y, x);
    VisitedOnce(im, sc, k, y, x);
    var b := Index(im, k, y, x);
    FoldTakes(c, Rest(im, sc, 0, 0), file, st, coefs, b, i);
    if Clear(coefs[b][i], c.al + 1) && coefs[b][i] != -0x8000 {
      TakenIs(coefs[b][i], DeliveredAc(c, im, sc, file, st, coefs, b, i), c.al);
    }
  }

  /** A DC refinement scan appends the bit it delivers to the two's complement value of every block it is about. */
  lemma DcRefinementScanPlanes(c: Scan, im: Image, sc: seq<nat>, file: seq<Byte>, st: State, coefs: seq<Block>, k: nat, y: nat, x: nat)
    requires c.mode.DCRefine? && RunFits(c, im, sc, |coefs|) && InScan(im, sc, k, y, x) && NoRepeats(sc)
    ensures var b := Index(im, k, y, x);
            && b < |coefs|
            && var v, now := coefs[b][0], Run(c, im, sc, file, 0, 0, st, coefs).1[b][0];
               Clear(v, c.al + 1) ==>
                 Clear(now, c.al) && Shr(now, c.al) == 2 * Shr(v, c.al + 1) + DeliveredBit(c, im, sc, file, st, coefs, b)
  {
    hide Run, Fold, Rest, Flat, Index, Clear, Shr, Count, FoldBit, TotalBlocks, HeightInBlocks, WidthInBlocks, PaddedHeight, PaddedWidth;
    RunIsFold(c, im, sc, file, 0, 0, st, coefs);
    IndexInside(im, k, y, x);
    VisitedOnce(im, sc, k, y, x);
    var b := Index(im, k, y, x);
    if Clear(coefs[b][0], c.al + 1) {
      FoldAppends(c, Rest(im, sc, 0, 0), file, st, coefs, b);
    }
  }

  // ----- values that arrive -----

  ghost predicate AllSizesFit(c: Scan, ms: seq<seq<nat>>, file: seq<Byte>, st: State, coefs: seq<Block>)
    requires AllFit(c, ms, |coefs|)
  {
    if ms == [] then true
    else
      var next := Step(c, ms[0], file, st, coefs);
      StepSizesFit(c, ms[0], file, st, coefs) && AllSizesFit(c, ms[1..], file, next.0, next.1)
  }

  ghost predicate ScanSizesFit(c: Scan, im: Image, sc: seq<nat>, file: seq<Byte>, st: State, coefs: seq<Block>)
    requires RunFits(c, im, sc, |coefs|)
  {
    RunIsFold(c, im, sc, file, 0, 0, st, coefs);
    AllSizesFit(c, Rest(im, sc, 0, 0), file, st, coefs)
  }

  lemma {:induction false} OrderlyFold(c: Scan, ms: seq<seq<nat>>, file: seq<Byte>, st: State, coefs: seq<Block>, sized: bool)
    requires AllFit(c, ms, |coefs|) && Orderly(c, ms, file, st, coefs, sized)
    ensures AllInBand(c, ms, file, st, coefs) && (sized ==> AllSizesFit(c, ms, file, st, coefs))
    decreases |ms|
  {
    hide Step, McuFits, StepInBand, StepSizesFit;
    if ms != [] {
      var next := Step(c, ms[0], file, st, coefs);
      OrderlyFold(c, ms[1..], file, next.0, next.1, sized);
    }
  }

  lemma OrderlyScan(c: Scan, im: Image, sc: seq<nat>, file: seq<Byte>, st: State, coefs: seq<Block>, sized: bool)
    requires RunFits(c, im, sc, |coefs|) && ScanOrderly(c, im, sc, file, st, coefs, sized)
    ensures ScanInBand(c, im, sc, file, st, coefs) && (sized ==> ScanSizesFit(c, im, sc, file, st, coefs))
  {
    hide Run, Fold, Rest, AllInBand, AllSizesFit, Orderly, AllFit, Complete, Terminates, Selects, Membership, TotalBlocks;
    RunIsFold(c, im, sc, file, 0, 0, st, coefs);
    OrderlyFold(c, Rest(im, sc, 0, 0), file, st, coefs, sized);
  }

  predicate Storable(x: int, al: nat) {
    -0x8000 < Shl(x, al) < 0x8000
  }

  lemma ReceiveInside(s: seq<bool>, p: nat, n: nat, al: nat)
    requires 1 <= n && n + al <= 15 && al <= 13
    ensures Storable(Receive(s, p, n), al)
  {
    hide Shl, Receive, Category;
    ReceivedSize(s, p, n);
    CategoryDecides(Receive(s, p, n), al);
  }

  lemma ZeroInside(al: nat)
    ensures Storable(0, al)
  {
    ShlPositive(al);
  }

  lemma {:induction false} ReceivedInside(t: JHuffTbl, s: seq<bool>, p: nat, k: nat, se: nat, al: nat, j: nat)
    requires se <= 63 && al <= 13 && SizesFit(t, s, p, k, se, al)
    ensures Storable(Received(t, s, p, k, se, j), al)
    decreases 64 - k
  {
    hide NextSymbol, SymbolLength, Receive, Storable, Lands;
    ZeroInside(al);
    if k <= se {
      var p1, rs := p + SymbolLength(t, s, p), NextSymbol(t, s, p);
      if rs % 16 != 0 {
        ReceiveInside(s, p1, rs % 16, al);
        if !Lands(k + rs / 16, j) {
          ReceivedInside(t, s, p1 + rs % 16, k + rs / 16 + 1, se, al, j);
        }
      } else if rs / 16 == 15 {
        ReceivedInside(t, s, p1, k + 16, se, al, j);
      }
    }
  }

  /** Without a shift all sizes fit. */
  lemma {:induction false} UnshiftedFits(t: JHuffTbl, s: seq<bool>, p: nat, k: nat, se: nat)
    requires se <= 63
    ensures SizesFit(t, s, p, k, se, 0)
    decreases 64 - k
  {
    hide NextSymbol, SymbolLength;
    if k <= se {
      var p1, rs := p + SymbolLength(t, s, p), NextSymbol(t, s, p);
      if rs % 16 != 0 {
        UnshiftedFits(t, s, p1 + rs % 16, k + rs / 16 + 1, se);
      } else if rs / 16 == 15 {
        UnshiftedFits(t, s, p1, k + 16, se);
      }
    }
  }

  lemma {:induction false} FromBlockInside(c: Scan, mcu: seq<nat>, s: seq<bool>, p: nat, dc: Predictions, i: nat, j: nat, pos: nat)
    requires |mcu| == |c.membership| && i <= j < |mcu| && pos >= 1
    ensures Storable(FromBlock(c, mcu, s, p, dc, i, j, pos), 0)
    decreases j - i
  {
    hide OneBlock, Received, Storable, AfterDc, SizesFit;
    ZeroInside(0);
    if i == j {
      UnshiftedFits(c.acTbl[j], s, AfterDc(c.dcTbl[j], s, p), 1, 63);
      ReceivedInside(c.acTbl[j], s, AfterDc(c.dcTbl[j], s, p), 1, 63, 0, ZigzagOrder(pos));
    } else {
      var block := OneBlock(c, mcu, s, p, dc, i);
      FromBlockInside(c, mcu, s, block.at, block.dc, i + 1, j, pos);
    }
  }

  lemma StepInside(c: Scan, mcu: seq<nat>, file: seq<Byte>, st: State, coefs: seq<Block>, b: nat, i: nat)
    requires (c.mode.Baseline? || c.mode.ACFirst?) && McuFits(c, mcu, |coefs|) && StepSizesFit(c, mcu, file, st, coefs)
    requires b in mcu && i >= 1
    ensures Storable(StepReceives(c, mcu, file, st, b, i), LowBit(c))
  {
    hide Begin, FromBlock, Received, SizesFit, Storable, ZigzagOrder;
    ZeroInside(LowBit(c));
    var s := Begin(c, file, st);
    if s.stream.Running? && !s.starved {
      if c.mode.Baseline? {
        FromBlockInside(c, mcu, s.stream.seg.bits, s.stream.at, s.dc, 0, IndexOf(mcu, b), i);
      } else if s.eobrun == 0 {
        ReceivedInside(c.acTbl[0], s.stream.seg.bits, s.stream.at, c.ss, c.se, c.al, ZigzagOrder(i));
      }
    }
  }

  lemma {:induction false} FoldInside(c: Scan, ms: seq<seq<nat>>, file: seq<Byte>, st: State, coefs: seq<Block>, b: nat, i: nat)
    requires (c.mode.Baseline? || c.mode.ACFirst?) && AllFit(c, ms, |coefs|) && AllSizesFit(c, ms, file, st, coefs) && i >= 1
    ensures Storable(FoldReceives(c, ms, file, st, coefs, b, i), LowBit(c))
    decreases |ms|
  {
    hide Step, McuFits, StepSizesFit, StepReceives, Storable;
    ZeroInside(LowBit(c));
    if ms != [] {
      var next := Step(c, ms[0], file, st, coefs);
      if b in ms[0] {
        StepInside(c, ms[0], file, st, coefs, b, i);
      } else {
        FoldInside(c, ms[1..], file, next.0, next.1, b, i);
      }
    }
  }

  /** The AC values of a first scan whose sizes fit are stored as they were received, and none at the value that a correction
      would turn over. */
  lemma FirstScanInside(c: Scan, im: Image, sc: seq<nat>, file: seq<Byte>, st: State, coefs: seq<Block>, b: nat, i: nat)
    requires (c.mode.Baseline? || c.mode.ACFirst?) && RunFits(c, im, sc, |coefs|) && ScanSizesFit(c, im, sc, file, st, coefs) && i >= 1
    ensures Storable(ReceivedValue(c, im, sc, file, st, coefs, b, i), LowBit(c))
  {
    hide Run, Fold, Rest, AllSizesFit, FoldReceives, Storable;
    RunIsFold(c, im, sc, file, 0, 0, st, coefs);
    FoldInside(c, Rest(im, sc, 0, 0), file, st, coefs, b, i);
  }
}
