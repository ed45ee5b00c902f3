/** What the bits of an MCU deliver to one coefficient, read off the stream, and that decoding makes exactly that of it:
    a value in first scans, a correction bit or a new value in AC refinements (jdhuff.c, jdphuff.c). */
module Delivery {
  import opened Bits
  import opened HuffmanTable
  import opened Coefficients
  import opened EntropySpec
  import opened BitPlanes
  import opened Bands
  import opened PointTransform

  /** The bit position down to which a scan sends. */
  function LowBit(c: Scan): nat {
    if c.mode.Baseline? then 0 else c.al
  }

  // ----- first scans -----

  /** Index m of the natural order, which may lie past the block, is that of index j. */
  predicate Lands(m: nat, j: nat) {
    m == j || (j == 63 && m > 63)
  }

  lemma LandsThere(m: nat, j: nat)
    requires m < 80 && j <= 63
    ensures NaturalOrder(m) == NaturalOrder(j) <==> Lands(m, j)
  {
    hide ZigzagOrder, NaturalOrder;
    ZigzagOfNatural(j);
    if m < 64 {
      ZigzagOfNatural(m);
    } else {
      ZigzagOfNatural(63);
      PastTheEnd(m);
      PastTheEnd(63);
    }
  }

  /** The value that run/size codes give to zigzag index j; 0 if they give none. */
  function Received(t: JHuffTbl, s: seq<bool>, p: nat, k: nat, se: nat, j: nat): int
    requires se <= 63
    decreases 64 - k
  {
    if k > se then 0
    else
      var p1, rs := p + SymbolLength(t, s, p), NextSymbol(t, s, p);
      var run, size := rs / 16, rs % 16;
      if size != 0 then
        if Lands(k + run, j) then Receive(s, p1, size) else Received(t, s, p1 + size, k + run + 1, se, j)
      else if run == 15 then Received(t, s, p1, k + 16, se, j)
      else 0
  }

  /** An assignment at index m. */
  lemma PutCell(b: nat, m: nat, x: Coef, j: nat, v: Coef)
    requires m < 80 && j <= 63
    ensures Cell([Put(b, NaturalOrder(m), x)], b, NaturalOrder(j), v) == if Lands(m, j) then x else v
  {
    hide NaturalOrder, Lands;
    LandsThere(m, j);
    CellOfOne(Put(b, NaturalOrder(m), x), b, NaturalOrder(j), v);
  }

  /** What lies before k is not assigned any more. */
  lemma {:induction false} FirstBelow(t: JHuffTbl, s: seq<bool>, p: nat, k: nat, se: nat, al: nat, b: nat, dc: Predictions, j: nat, v: Coef)
    requires se <= 63 && j < k && j <= 63
    ensures Cell(AcFirstEdits(t, s, p, k, se, al, b, dc).edits, b, NaturalOrder(j), v) == v
    decreases 64 - k
  {
    hide NextSymbol, SymbolLength, NaturalOrder, Wrap16, Receive, Shl, EobRun, Cell;
    CellOfNone(b, NaturalOrder(j), v);
    if k <= se {
      var p1, rs := p + SymbolLength(t, s, p), NextSymbol(t, s, p);
      if rs % 16 != 0 {
        var x, rest := Wrap16(Shl(Receive(s, p1, rs % 16), al)), AcFirstEdits(t, s, p1 + rs % 16, k + rs / 16 + 1, se, al, b, dc);
        PutCell(b, k + rs / 16, x, j, v);
        CellAppend([Put(b, NaturalOrder(k + rs / 16), x)], rest.edits, b, NaturalOrder(j), v);
        FirstBelow(t, s, p1 + rs % 16, k + rs / 16 + 1, se, al, b, dc, j, v);
      } else if rs / 16 == 15 {
        FirstBelow(t, s, p1, k + 16, se, al, b, dc, j, v);
      }
    }
  }

  /** Decoding a band in a first scan, where there were zeros. */
  lemma {:induction false} FirstCell(t: JHuffTbl, s: seq<bool>, p: nat, k: nat, se: nat, al: nat, b: nat, dc: Predictions, j: nat)
    requires se <= 63 && j <= 63
    ensures Cell(AcFirstEdits(t, s, p, k, se, al, b, dc).edits, b, NaturalOrder(j), 0) == Wrap16(Shl(Received(t, s, p, k, se, j), al))
    decreases 64 - k
  {
    hide NextSymbol, SymbolLength, NaturalOrder, Wrap16, Receive, Shl, EobRun, Cell;
    CellOfNone(b, NaturalOrder(j), 0);
    ZeroStored(al);
    if k <= se {
      var p1, rs := p + SymbolLength(t, s, p), NextSymbol(t, s, p);
      var m := k + rs / 16;
      if rs % 16 != 0 {
        var x, rest := Wrap16(Shl(Receive(s, p1, rs % 16), al)), AcFirstEdits(t, s, p1 + rs % 16, m + 1, se, al, b, dc);
        PutCell(b, m, x, j, 0);
        CellAppend([Put(b, NaturalOrder(m), x)], rest.edits, b, NaturalOrder(j), 0);
        if Lands(m, j) {
          FirstBelow(t, s, p1 + rs % 16, m + 1, se, al, b, dc, j, x);
        } else {
          FirstCell(t, s, p1 + rs % 16, m + 1, se, al, b, dc, j);
        }
      } else if rs / 16 == 15 {
        FirstCell(t, s, p1, k + 16, se, al, b, dc, j);
      }
    }
  }

  lemma ZeroStored(al: nat)
    ensures Wrap16(Shl(0, al)) == 0
  {
    ShlPositive(al);
  }

  /** The AC coefficients of a sequential scan are read as a whole band would be. */
  lemma {:induction false} AcIsBand(t: JHuffTbl, s: seq<bool>, p: nat, k: nat, b: nat, dc: Predictions)
    ensures AcEdits(t, s, p, k, b).0 == AcFirstEdits(t, s, p, k, 63, 0, b, dc).edits
    decreases 64 - k
  {
    hide NextSymbol, SymbolLength, NaturalOrder, Wrap16, Receive, EobRun;
    if k <= 63 {
      var p1, rs := p + SymbolLength(t, s, p), NextSymbol(t, s, p);
      if rs % 16 != 0 {
        AcIsBand(t, s, p1 + rs % 16, k + rs / 16 + 1, b, dc);
      } else if rs / 16 == 15 {
        AcIsBand(t, s, p1, k + 16, b, dc);
      }
    }
  }

  /** The DC value that the i-th block of an MCU receives, and, in a sequential scan, its AC values. */
  function BlockReceives(c: Scan, s: seq<bool>, p: nat, dc: Predictions, i: nat, pos: nat): int
    requires i < |c.membership|
  {
    if pos == 0 then if c.mode.DCFirst? || c.dcNeeded[i] then DcDiff(c.dcTbl[i], s, p) + dc[c.membership[i]] else 0
    else if c.mode.Baseline? && c.acNeeded[i] then Received(c.acTbl[i], s, AfterDc(c.dcTbl[i], s, p), 1, 63, ZigzagOrder(pos))
    else 0
  }

  /** One block of a sequential scan or a DC first scan. */
  function OneBlock(c: Scan, mcu: seq<nat>, s: seq<bool>, p: nat, dc: Predictions, i: nat): Outcome
    requires i < |mcu| == |c.membership|
  {
    if c.mode.DCFirst? then DcEdit(c, mcu, s, p, dc, i) else BlockEdits(c, mcu, s, p, dc, i)
  }

  /** What the j-th block of an MCU receives at pos, the blocks from the i-th on being still to come. */
  function FromBlock(c: Scan, mcu: seq<nat>, s: seq<bool>, p: nat, dc: Predictions, i: nat, j: nat, pos: nat): int
    requires |mcu| == |c.membership| && i <= j < |mcu|
    decreases j - i
  {
    if i == j then BlockReceives(c, s, p, dc, j, pos)
    else
      var block := OneBlock(c, mcu, s, p, dc, i);
      FromBlock(c, mcu, s, block.at, block.dc, i + 1, j, pos)
  }

  ghost predicate OnlyOf(es: seq<Edit>, b: nat) {
    forall i :: 0 <= i < |es| ==> es[i].block == b
  }

  lemma {:induction false} NotOf(es: seq<Edit>, b: nat, c: nat, pos: nat, v: Coef)
    requires OnlyOf(es, c) && b != c
    ensures Cell(es, b, pos, v) == v
  {
    if es != [] {
      assert es[|es| - 1].block == c;
      NotOf(es[..|es| - 1], b, c, pos, v);
    }
  }

  lemma {:induction false} AcOnlyOf(t: JHuffTbl, s: seq<bool>, p: nat, k: nat, b: nat)
    ensures OnlyOf(AcEdits(t, s, p, k, b).0, b)
    decreases 64 - k
  {
    hide NextSymbol, SymbolLength, NaturalOrder, Wrap16, Receive;
    if k < 64 {
      var p1, rs := p + SymbolLength(t, s, p), NextSymbol(t, s, p);
      if rs % 16 != 0 {
        AcOnlyOf(t, s, p1 + rs % 16, k + rs / 16 + 1, b);
      } else {
        AcOnlyOf(t, s, p1, k + 16, b);
      }
    }
  }

  lemma BlockOnlyOf(c: Scan, mcu: seq<nat>, s: seq<bool>, p: nat, dc: Predictions, i: nat)
    requires i < |mcu| == |c.membership|
    ensures OnlyOf(OneBlock(c, mcu, s, p, dc, i).edits, mcu[i])
  {
    hide AcEdits, DcDiff, AfterDc, Wrap16, Shl;
    AcOnlyOf(c.acTbl[i], s, AfterDc(c.dcTbl[i], s, p), 1, mcu[i]);
  }

  /** A DC scan gives DC values only. */
  predicate Given(c: Scan, pos: nat) {
    c.mode.DCFirst? ==> pos == 0
  }

  /** The block itself. */
  lemma BlockCell(c: Scan, mcu: seq<nat>, s: seq<bool>, p: nat, dc: Predictions, i: nat, pos: nat)
    requires (c.mode.Baseline? || c.mode.DCFirst?) && i < |mcu| == |c.membership| && pos < 64 && Given(c, pos)
    ensures Cell(OneBlock(c, mcu, s, p, dc, i).edits, mcu[i], pos, 0)
         == Wrap16(Shl(BlockReceives(c, s, p, dc, i, pos), LowBit(c)))
  {
    hide AcEdits, DcDiff, AfterDc, Wrap16, Shl, Cell, NaturalOrder, ZigzagOrder, Received, AcFirstEdits;
    var b, q := mcu[i], AfterDc(c.dcTbl[i], s, p);
    ZeroStored(0);
    Unshifted(BlockReceives(c, s, p, dc, i, pos));
    CellOfNone(b, pos, 0);
    var v := DcDiff(c.dcTbl[i], s, p) + dc[c.membership[i]];
    if c.mode.DCFirst? {
      CellOfOne(Put(b, 0, Wrap16(Shl(v, c.al))), b, 0, 0);
    } else {
      CellOfOne(Put(b, 0, Wrap16(v)), b, pos, 0);
      var first, ac := if c.dcNeeded[i] then [Put(b, 0, Wrap16(v))] else [], if c.acNeeded[i] then AcEdits(c.acTbl[i], s, q, 1, b).0 else [];
      var w := Cell(first, b, pos, 0);
      CellAppend(first, ac, b, pos, 0);
      CellOfNone(b, pos, w);
      AcIsBand(c.acTbl[i], s, q, 1, b, dc);
      NaturalOfZigzag(pos);
      ZigzagZero(pos);
      if pos == 0 {
        FirstBelow(c.acTbl[i], s, q, 1, 63, 0, b, dc, 0, w);
      } else {
        FirstCell(c.acTbl[i], s, q, 1, 63, 0, b, dc, ZigzagOrder(pos));
      }
    }
  }

  lemma Unshifted(x: int)
    ensures Shl(x, 0) == x
  {
  }

  lemma ZigzagZero(pos: nat)
    requires pos < 64
    ensures NaturalOrder(0) == 0 && ZigzagOrder(pos) <= 63 && (pos == 0 ==> ZigzagOrder(pos) == 0)
  {
  }

  lemma {:induction false} FromBlockCell(c: Scan, mcu: seq<nat>, s: seq<bool>, p: nat, eobrun: nat, dc: Predictions, i: nat, j: nat, pos: nat)
    requires (c.mode.Baseline? || c.mode.DCFirst?) && |mcu| == |c.membership| && i <= j < |mcu| && Once(mcu, j) && pos < 64 && Given(c, pos)
    ensures Cell(BlocksEdits(c, mcu, s, p, eobrun, dc, i), mcu[j], pos, 0)
         == Wrap16(Shl(FromBlock(c, mcu, s, p, dc, i, j, pos), LowBit(c)))
    decreases j - i
  {
    hide OneBlock, BlocksEdits, BlockReceives, Wrap16, Shl, Cell, OnlyOf;
    var block := OneBlock(c, mcu, s, p, dc, i);
    BlocksUnfold(c, mcu, s, p, eobrun, dc, i);
    BlockOnlyOf(c, mcu, s, p, dc, i);
    CellAppend(block.edits, BlocksEdits(c, mcu, s, block.at, eobrun, block.dc, i + 1), mcu[j], pos, 0);
    if i < j {
      NotOf(block.edits, mcu[j], mcu[i], pos, 0);
      FromBlockCell(c, mcu, s, block.at, eobrun, block.dc, i + 1, j, pos);
    } else {
      BlockCell(c, mcu, s, p, dc, i, pos);
      OtherBlocksLater(c, mcu, s, block.at, eobrun, block.dc, i + 1, j, pos, Cell(block.edits, mcu[j], pos, 0));
    }
  }

  /** The blocks of an MCU from the i-th on. */
  function BlocksEdits(c: Scan, mcu: seq<nat>, s: seq<bool>, p: nat, eobrun: nat, dc: Predictions, i: nat): seq<Edit>
    requires |mcu| == |c.membership| && i <= |mcu|
  {
    if c.mode.DCFirst? then DcFirstEdits(c, mcu, s, p, eobrun, dc, i).edits else BaselineEdits(c, mcu, s, p, eobrun, dc, i).edits
  }

  lemma BlocksUnfold(c: Scan, mcu: seq<nat>, s: seq<bool>, p: nat, eobrun: nat, dc: Predictions, i: nat)
    requires |mcu| == |c.membership| && i < |mcu|
    ensures var block := OneBlock(c, mcu, s, p, dc, i);
            BlocksEdits(c, mcu, s, p, eobrun, dc, i) == block.edits + BlocksEdits(c, mcu, s, block.at, eobrun, block.dc, i + 1)
  {
    hide BlockEdits, DcEdit;
  }

  lemma {:induction false} OtherBlocksLater(c: Scan, mcu: seq<nat>, s: seq<bool>, p: nat, eobrun: nat, dc: Predictions, i: nat, j: nat, pos: nat, v: Coef)
    requires |mcu| == |c.membership| && j < i <= |mcu| && Once(mcu, j)
    ensures Cell(BlocksEdits(c, mcu, s, p, eobrun, dc, i), mcu[j], pos, v) == v
    decreases |mcu| - i
  {
    hide BlockEdits, DcEdit, OneBlock, Cell, OnlyOf;
    CellOfNone(mcu[j], pos, v);
    if i < |mcu| {
      var block := OneBlock(c, mcu, s, p, dc, i);
      BlocksUnfold(c, mcu, s, p, eobrun, dc, i);
      BlockOnlyOf(c, mcu, s, p, dc, i);
      NotOf(block.edits, mcu[j], mcu[i], pos, v);
      CellAppend(block.edits, BlocksEdits(c, mcu, s, block.at, eobrun, block.dc, i + 1), mcu[j], pos, v);
      OtherBlocksLater(c, mcu, s, block.at, eobrun, block.dc, i + 1, j, pos, v);
    }
  }

  /** What an MCU of a first scan gives to coefficient pos of its j-th block. */
  function McuReceives(c: Scan, mcu: seq<nat>, s: seq<bool>, p: nat, eobrun: nat, dc: Predictions, j: nat, pos: nat): int
    requires |mcu| == |c.membership| && j < |mcu|
  {
    if c.mode.ACFirst? then if eobrun > 0 then 0 else Received(c.acTbl[0], s, p, c.ss, c.se, ZigzagOrder(pos))
    else FromBlock(c, mcu, s, p, dc, 0, j, pos)
  }

  /** An MCU of a first scan stores exactly that, shifted, where there were zeros. */
  lemma McuStores(c: Scan, mcu: seq<nat>, coefs: seq<Block>, s: seq<bool>, p: nat, eobrun: nat, dc: Predictions, j: nat, pos: nat)
    requires !c.mode.DCRefine? && !c.mode.ACRefine? && McuFits(c, mcu, |coefs|) && j < |mcu| && Once(mcu, j) && pos < 64
    requires Given(c, pos) && coefs[mcu[j]][pos] == 0
    ensures var es := McuOutcome(c, mcu, coefs, s, p, eobrun, dc).edits;
            && AllInRange(es, |coefs|)
            && Apply(es, coefs)[mcu[j]][pos]
            == Wrap16(Shl(McuReceives(c, mcu, s, p, eobrun, dc, j, pos), LowBit(c)))
  {
    hide AcFirstEdits, BaselineEdits, DcFirstEdits, Apply, Cell, FromBlock, NaturalOrder, ZigzagOrder, Wrap16, Shl, Received, Once;
    OutcomeFine(c, mcu, coefs, s, p, eobrun, dc);
    ApplyIsCellwise(McuOutcome(c, mcu, coefs, s, p, eobrun, dc).edits, coefs, mcu[j], pos);
    CellOfNone(mcu[j], pos, 0);
    ZeroStored(c.al);
    if !c.mode.ACFirst? {
      FromBlockCell(c, mcu, s, p, eobrun, dc, 0, j, pos);
    } else if eobrun == 0 {
      NaturalOfZigzag(pos);
      ZigzagZero(pos);
      FirstCell(c.acTbl[0], s, p, c.ss, c.se, c.al, mcu[0], dc, ZigzagOrder(pos));
    }
  }

  // ----- DC values are running totals -----

  /** Where the i-th block of an MCU, read from p, ends. */
  function AfterBlock(c: Scan, s: seq<bool>, p: nat, i: nat): nat
    requires i < |c.membership|
  {
    var q := AfterDc(c.dcTbl[i], s, p);
    if c.mode.DCFirst? then q else AcEdits(c.acTbl[i], s, q, 1, 0).1
  }

  /** The total of the differences that blocks i to n of an MCU hold for component k. */
  function Differences(c: Scan, s: seq<bool>, p: nat, i: nat, n: nat, k: nat): int
    requires n <= |c.membership|
    decreases n - i
  {
    if i >= n then 0
    else
      (if c.membership[i] == k && (c.mode.DCFirst? || c.dcNeeded[i]) then DcDiff(c.dcTbl[i], s, p) else 0)
      + Differences(c, s, AfterBlock(c, s, p, i), i + 1, n, k)
  }

  lemma {:induction false} AcEnds(t: JHuffTbl, s: seq<bool>, p: nat, k: nat, b: nat)
    ensures AcEdits(t, s, p, k, b).1 == AcEdits(t, s, p, k, 0).1
    decreases 64 - k
  {
    hide NextSymbol, SymbolLength, NaturalOrder, Wrap16, Receive;
    if k < 64 {
      var p1, rs := p + SymbolLength(t, s, p), NextSymbol(t, s, p);
      if rs % 16 != 0 {
        AcEnds(t, s, p1 + rs % 16, k + rs / 16 + 1, b);
      } else {
        AcEnds(t, s, p1, k + 16, b);
      }
    }
  }

  /** A block moves the prediction of its own component on by its difference, and no other. */
  lemma OneAdds(c: Scan, mcu: seq<nat>, s: seq<bool>, p: nat, dc: Predictions, i: nat, k: nat)
    requires (c.mode.Baseline? || c.mode.DCFirst?) && i < |mcu| == |c.membership| && k < 4
    ensures var block := OneBlock(c, mcu, s, p, dc, i);
            && block.at == AfterBlock(c, s, p, i)
            && block.dc[k] == dc[k] + if c.membership[i] == k && (c.mode.DCFirst? || c.dcNeeded[i]) then DcDiff(c.dcTbl[i], s, p) else 0
  {
    hide AcEdits, DcDiff, AfterDc, Wrap16, Shl;
    AcEnds(c.acTbl[i], s, AfterDc(c.dcTbl[i], s, p), 1, mcu[i]);
  }

  /** The DC value of a block is the prediction of its component plus all its differences up to that block. */
  lemma {:induction false} DcAddsUp(c: Scan, mcu: seq<nat>, s: seq<bool>, p: nat, dc: Predictions, i: nat, j: nat)
    requires (c.mode.Baseline? || c.mode.DCFirst?) && |mcu| == |c.membership| && i <= j < |mcu| && (c.mode.DCFirst? || c.dcNeeded[j])
    ensures FromBlock(c, mcu, s, p, dc, i, j, 0) == dc[c.membership[j]] + Differences(c, s, p, i, j + 1, c.membership[j])
    decreases j - i
  {
    hide OneBlock, AfterBlock, DcDiff, AfterDc;
    if i < j {
      OneAdds(c, mcu, s, p, dc, i, c.membership[j]);
      var block := OneBlock(c, mcu, s, p, dc, i);
      DcAddsUp(c, mcu, s, block.at, block.dc, i + 1, j);
    }
  }

  lemma {:induction false} BlocksAddUp(c: Scan, mcu: seq<nat>, s: seq<bool>, p: nat, eobrun: nat, dc: Predictions, i: nat, k: nat)
    requires (c.mode.Baseline? || c.mode.DCFirst?) && i <= |mcu| == |c.membership| && k < 4
    ensures var o := if c.mode.DCFirst? then DcFirstEdits(c, mcu, s, p, eobrun, dc, i) else BaselineEdits(c, mcu, s, p, eobrun, dc, i);
            o.dc[k] == dc[k] + Differences(c, s, p, i, |mcu|, k)
    decreases |mcu| - i
  {
    hide BlockEdits, DcEdit, AfterBlock, DcDiff;
    if i < |mcu| {
      OneAdds(c, mcu, s, p, dc, i, k);
      var block := OneBlock(c, mcu, s, p, dc, i);
      BlocksAddUp(c, mcu, s, block.at, eobrun, block.dc, i + 1, k);
    }
  }

  /** Every DC value an MCU brings, and every prediction it leaves, is the old prediction of that
      component plus the differences the MCU holds for it, up to the block or in all. */
  lemma TotalsOfDifferences(c: Scan, mcu: seq<nat>, coefs: seq<Block>, s: seq<bool>, p: nat, eobrun: nat, dc: Predictions, j: nat, k: nat)
    requires (c.mode.Baseline? || c.mode.DCFirst?) && McuFits(c, mcu, |coefs|) && j < |mcu| && (c.mode.DCFirst? || c.dcNeeded[j]) && k < 4
    ensures McuReceives(c, mcu, s, p, eobrun, dc, j, 0) == dc[c.membership[j]] + Differences(c, s, p, 0, j + 1, c.membership[j])
    ensures McuOutcome(c, mcu, coefs, s, p, eobrun, dc).dc[k] == dc[k] + Differences(c, s, p, 0, |mcu|, k)
  {
    hide Differences, FromBlock, BaselineEdits, DcFirstEdits;
    DcAddsUp(c, mcu, s, p, dc, 0, j);
    BlocksAddUp(c, mcu, s, p, eobrun, dc, 0, k);
  }

  // ----- refinements of a band -----

  /** The magnitude bit that a refinement delivers to a coefficient, and the sign if it makes it nonzero. */
  datatype Delivered = Delivered(bit: bool, negative: bool)

  const NO_BIT: Delivered := Delivered(false, false)

  /** The correction bit for zigzag index j, if Advance meets it as part of the history. */
  function AdvanceBit(s: seq<bool>, p: nat, k: nat, se: nat, r: nat, nz: Pattern, j: nat): bool
    requires se <= 63
    decreases se + 1 - k
  {
    if k > se then false
    else if nz[NaturalOrder(k)] then
      if k == j then Peek(s, p, 1) == 1 else AdvanceBit(s, p + 1, k + 1, se, r, nz, j)
    else if r == 0 then false
    else AdvanceBit(s, p, k + 1, se, r - 1, nz, j)
  }

  /** The correction bit for zigzag index j inside an EOB run. */
  function RunBit(s: seq<bool>, p: nat, k: nat, se: nat, nz: Pattern, j: nat): bool
    requires se <= 63
    decreases se + 1 - k
  {
    if k > se then false
    else if nz[NaturalOrder(k)] then
      if k == j then Peek(s, p, 1) == 1 else RunBit(s, p + 1, k + 1, se, nz, j)
    else RunBit(s, p, k + 1, se, nz, j)
  }

  /** What the codes of a band deliver to zigzag index j: the sign bit stands before the correction bits that its run skips. */
  function BandDelivers(t: JHuffTbl, s: seq<bool>, p: nat, k: nat, se: nat, al: nat, b: nat, nz: Pattern, j: nat): Delivered
    requires se <= 63
    decreases se + 1 - k
  {
    if k > se then NO_BIT
    else
      var p1, rs := p + SymbolLength(t, s, p), NextSymbol(t, s, p);
      var run, size := rs / 16, rs % 16;
      if size == 0 && run != 15 then NO_BIT
      else
        var q := if size != 0 then p1 + 1 else p1;
        var o := Advance(s, q, k, se, run, al, b, nz);
        if j < o.k then Delivered(AdvanceBit(s, q, k, se, run, nz, j), false)
        else if j == o.k then Delivered(size != 0, Peek(s, p1, 1) == 0)
        else BandDelivers(t, s, o.at, o.k + 1, se, al, b, nz, j)
  }

  function AcDelivers(t: JHuffTbl, s: seq<bool>, p: nat, ss: nat, se: nat, al: nat, b: nat, nz: Pattern, eobrun: nat, j: nat): Delivered
    requires se <= 63
  {
    if eobrun > 0 then Delivered(RunBit(s, p, ss, se, nz, j), false)
    else
      var o := BandEdits(t, s, p, ss, se, al, b, nz);
      if j < o.k then BandDelivers(t, s, p, ss, se, al, b, nz, j)
      else if o.eobrun > 0 then Delivered(RunBit(s, o.at, o.k, se, nz, j), false)
      else NO_BIT
  }

  /** What a coefficient becomes by it. */
  function Took(v: Coef, d: Delivered, al: nat): Coef {
    if !d.bit then v
    else if v != 0 then Raised(v, al)
    else Wrap16(if d.negative then Shl(-1, al) else Shl(1, al))
  }

  lemma {:induction false} CellBelow(es: seq<Edit>, b: nat, al: nat, nz: Pattern, k: nat, se: nat, j: nat, v: Coef)
    requires Refines(es, b, al, nz, k, se) && j < k && j <= 63
    ensures Cell(es, b, NaturalOrder(j), v) == v
  {
    hide NaturalOrder, ZigzagOrder, Shl, Edited;
    if es != [] {
      ZigzagOfNatural(j);
      assert RefinesAt(es[|es| - 1], b, al, nz, k, se);
      CellBelow(es[..|es| - 1], b, al, nz, k, se, j, v);
    }
  }

  /** One possible correction, of another coefficient or of this one. */
  lemma CorrectionCell(s: seq<bool>, p: nat, k: nat, al: nat, b: nat, j: nat, v: Coef)
    requires k <= 63 && j <= 63
    ensures Cell(Correction(s, p, k, al, b), b, NaturalOrder(j), v) == if k == j && Peek(s, p, 1) == 1 then Raised(v, al) else v
  {
    hide NaturalOrder, ZigzagOrder, Raised, Peek, Cell;
    ZigzagOfNatural(j);
    ZigzagOfNatural(k);
    CellOfOne(Raise(b, NaturalOrder(k), al), b, NaturalOrder(j), v);
    CellOfNone(b, NaturalOrder(j), v);
  }

  lemma {:induction false} AdvanceCell(s: seq<bool>, p: nat, k: nat, se: nat, r: nat, al: nat, b: nat, nz: Pattern, j: nat, v: Coef)
    requires se <= 63 && j <= 63
    ensures var o := Advance(s, p, k, se, r, al, b, nz);
            Cell(o.edits, b, NaturalOrder(j), v) == if AdvanceBit(s, p, k, se, r, nz, j) then Raised(v, al) else v
    ensures j < k || j >= Advance(s, p, k, se, r, al, b, nz).k ==> !AdvanceBit(s, p, k, se, r, nz, j)
    decreases se + 1 - k
  {
    hide NaturalOrder, Raised, Peek, Cell, Correction;
    CellOfNone(b, NaturalOrder(j), v);
    if k <= se {
      if nz[NaturalOrder(k)] {
        CorrectionCell(s, p, k, al, b, j, v);
        var w := Cell(Correction(s, p, k, al, b), b, NaturalOrder(j), v);
        AdvanceCell(s, p + 1, k + 1, se, r, al, b, nz, j, w);
        CellAppend(Correction(s, p, k, al, b), Advance(s, p + 1, k + 1, se, r, al, b, nz).edits, b, NaturalOrder(j), v);
      } else if r > 0 {
        AdvanceCell(s, p, k + 1, se, r - 1, al, b, nz, j, v);
      }
    }
  }

  lemma {:induction false} RunCell(s: seq<bool>, p: nat, k: nat, se: nat, al: nat, b: nat, nz: Pattern, j: nat, v: Coef)
    requires se <= 63 && j <= 63
    ensures Cell(RunEdits(s, p, k, se, al, b, nz).0, b, NaturalOrder(j), v) == if RunBit(s, p, k, se, nz, j) then Raised(v, al) else v
    ensures j < k ==> !RunBit(s, p, k, se, nz, j)
    ensures j <= se && RunBit(s, p, k, se, nz, j) ==> nz[NaturalOrder(j)]
    decreases se + 1 - k
  {
    hide NaturalOrder, Raised, Peek, Cell, Correction;
    CellOfNone(b, NaturalOrder(j), v);
    if k <= se {
      if nz[NaturalOrder(k)] {
        CorrectionCell(s, p, k, al, b, j, v);
        var w := Cell(Correction(s, p, k, al, b), b, NaturalOrder(j), v);
        RunCell(s, p + 1, k + 1, se, al, b, nz, j, w);
        CellAppend(Correction(s, p, k, al, b), RunEdits(s, p + 1, k + 1, se, al, b, nz).0, b, NaturalOrder(j), v);
      } else {
        RunCell(s, p, k + 1, se, al, b, nz, j, v);
      }
    }
  }

  /** A correction bit only goes to what is nonzero. */
  lemma {:induction false} AdvanceOfHistory(s: seq<bool>, p: nat, k: nat, se: nat, r: nat, nz: Pattern, j: nat)
    requires se <= 63 && j <= 63 && AdvanceBit(s, p, k, se, r, nz, j)
    ensures nz[NaturalOrder(j)]
    decreases se + 1 - k
  {
    hide NaturalOrder, Peek;
    if k <= se {
      if nz[NaturalOrder(k)] {
        if k != j {
          AdvanceOfHistory(s, p + 1, k + 1, se, r, nz, j);
        }
      } else if r > 0 {
        AdvanceOfHistory(s, p, k + 1, se, r - 1, nz, j);
      }
    }
  }

  /** The new value of a coefficient, where there is one. */
  lemma NewCell(s: seq<bool>, p: nat, k: nat, al: nat, b: nat, j: nat, v: Coef)
    requires k <= 63 && j <= 63
    ensures Cell([Put(b, NaturalOrder(k), NewCoef(s, p, al))], b, NaturalOrder(j), v)
         == if k == j then Wrap16(if Peek(s, p, 1) == 0 then Shl(-1, al) else Shl(1, al)) else v
  {
    hide NaturalOrder, ZigzagOrder, Wrap16, Shl, Peek, Cell;
    ZigzagOfNatural(j);
    ZigzagOfNatural(k);
    CellOfOne(Put(b, NaturalOrder(k), NewCoef(s, p, al)), b, NaturalOrder(j), v);
    OneBitAt(s, p);
  }

  lemma OneBitAt(s: seq<bool>, p: nat)
    ensures 0 <= Peek(s, p, 1) <= 1
  {
    hide Value;
    PeekSplit(s, p, 1, 1);
    assert Shl(1, 1) == 2;
  }

  /** One step of reading a band: what it does to the coefficient at j before the rest of the band is read. */
  lemma BandStepCell(s: seq<bool>, p1: nat, k: nat, se: nat, run: nat, size: nat, al: nat, b: nat, nz: Pattern, j: nat, v: Coef)
    requires k <= se <= 63 && al <= 13 && j <= se && nz[NaturalOrder(j)] == (v != 0)
    requires var o := Advance(s, if size != 0 then p1 + 1 else p1, k, se, run, al, b, nz); size != 0 ==> o.k <= se
    ensures var q := if size != 0 then p1 + 1 else p1;
            var o := Advance(s, q, k, se, run, al, b, nz);
            var added := if size != 0 then [Put(b, NaturalOrder(o.k), NewCoef(s, p1, al))] else [];
            var d := if j < o.k then Delivered(AdvanceBit(s, q, k, se, run, nz, j), false)
                     else if j == o.k then Delivered(size != 0, Peek(s, p1, 1) == 0) else NO_BIT;
            Cell(o.edits + added, b, NaturalOrder(j), v) == Took(v, d, al)
  {
    hide NaturalOrder, Raised, Peek, Cell, Advance, AdvanceBit, Wrap16, Shl, NewCoef;
    var q := if size != 0 then p1 + 1 else p1;
    var o := Advance(s, q, k, se, run, al, b, nz);
    var added := if size != 0 then [Put(b, NaturalOrder(o.k), NewCoef(s, p1, al))] else [];
    AdvanceCell(s, q, k, se, run, al, b, nz, j, v);
    AdvanceRefines(s, q, k, se, run, al, b, nz, k);
    var w := Cell(o.edits, b, NaturalOrder(j), v);
    CellAppend(o.edits, added, b, NaturalOrder(j), v);
    CellOfNone(b, NaturalOrder(j), w);
    if size != 0 {
      NewCell(s, p1, o.k, al, b, j, w);
    }
    if AdvanceBit(s, q, k, se, run, nz, j) {
      AdvanceOfHistory(s, q, k, se, run, nz, j);
    }
  }

  /** Decoding a band makes of each coefficient what was delivered to it. */
  lemma {:induction false} BandCell(t: JHuffTbl, s: seq<bool>, p: nat, k: nat, se: nat, al: nat, b: nat, nz: Pattern, j: nat, v: Coef)
    requires k <= j <= se <= 63 && al <= 13 && RunsInside(t, s, p, k, se, al, b, nz) && nz[NaturalOrder(j)] == (v != 0)
    ensures var o := BandEdits(t, s, p, k, se, al, b, nz);
            Cell(o.edits, b, NaturalOrder(j), v) == if j < o.k then Took(v, BandDelivers(t, s, p, k, se, al, b, nz, j), al) else v
    decreases se + 1 - k
  {
    hide Advance, AdvanceBit, NextSymbol, SymbolLength, NaturalOrder, NewCoef, EobRun, Peek, Cell, Took, Refines;
    CellOfNone(b, NaturalOrder(j), v);
    var p1, rs := p + SymbolLength(t, s, p), NextSymbol(t, s, p);
    var run, size := rs / 16, rs % 16;
    if size != 0 || run == 15 {
      var q := if size != 0 then p1 + 1 else p1;
      var o := Advance(s, q, k, se, run, al, b, nz);
      var added := if size != 0 then [Put(b, NaturalOrder(o.k), NewCoef(s, p1, al))] else [];
      var rest := BandEdits(t, s, o.at, o.k + 1, se, al, b, nz);
      BandStepCell(s, p1, k, se, run, size, al, b, nz, j, v);
      BandRefines(t, s, o.at, o.k + 1, se, al, b, nz, o.k + 1);
      var w := Cell(o.edits + added, b, NaturalOrder(j), v);
      CellAppend(o.edits + added, rest.edits, b, NaturalOrder(j), v);
      NoBitTaken(v, al);
      if j <= o.k {
        CellBelow(rest.edits, b, al, nz, o.k + 1, se, j, w);
      } else {
        BandCell(t, s, o.at, o.k + 1, se, al, b, nz, j, v);
      }
    }
  }

  lemma NoBitTaken(v: Coef, al: nat)
    ensures Took(v, NO_BIT, al) == v
  {
  }

  /** An MCU of an AC refinement. */
  lemma AcCell(t: JHuffTbl, s: seq<bool>, p: nat, ss: nat, se: nat, al: nat, b: nat, nz: Pattern, eobrun: nat, dc: Predictions, j: nat, v: Coef)
    requires ss <= j <= se <= 63 && al <= 13 && nz[NaturalOrder(j)] == (v != 0)
    requires eobrun == 0 ==> RunsInside(t, s, p, ss, se, al, b, nz)
    ensures Cell(AcRefineEdits(t, s, p, ss, se, al, b, nz, eobrun, dc).edits, b, NaturalOrder(j), v)
         == Took(v, AcDelivers(t, s, p, ss, se, al, b, nz, eobrun, j), al)
  {
    hide BandEdits, BandDelivers, RunEdits, RunBit, RunsInside, NaturalOrder, Raised, Cell, Refines, Wrap16, Shl;
    var o := if eobrun == 0 then BandEdits(t, s, p, ss, se, al, b, nz) else Refined([], p, ss, eobrun);
    CellOfNone(b, NaturalOrder(j), v);
    if eobrun == 0 {
      BandCell(t, s, p, ss, se, al, b, nz, j, v);
    }
    var w := Cell(o.edits, b, NaturalOrder(j), v);
    if o.eobrun > 0 {
      RunCell(s, o.at, o.k, se, al, b, nz, j, w);
      CellAppend(o.edits, RunEdits(s, o.at, o.k, se, al, b, nz).0, b, NaturalOrder(j), v);
    }
  }

  /** What an MCU of an AC refinement delivers to coefficient i of its block. */
  function McuDelivers(c: Scan, mcu: seq<nat>, coefs: seq<Block>, s: seq<bool>, p: nat, eobrun: nat, i: nat): Delivered
    requires c.mode.ACRefine? && |mcu| == |c.membership| && mcu[0] < |coefs|
  {
    AcDelivers(c.acTbl[0], s, p, c.ss, c.se, c.al, mcu[0], NonZero(coefs[mcu[0]]), eobrun, ZigzagOrder(i))
  }

  lemma McuTakes(c: Scan, mcu: seq<nat>, coefs: seq<Block>, s: seq<bool>, p: nat, eobrun: nat, dc: Predictions, i: nat)
    requires c.mode.ACRefine? && McuFits(c, mcu, |coefs|) && LegalRefinement(c, mcu, coefs, s, p, eobrun) && i < 64 && InBand(i, c.ss, c.se)
    ensures var es := McuOutcome(c, mcu, coefs, s, p, eobrun, dc).edits;
            && AllInRange(es, |coefs|)
            && Apply(es, coefs)[mcu[0]][i] == Took(coefs[mcu[0]][i], McuDelivers(c, mcu, coefs, s, p, eobrun, i), c.al)
  {
    hide AcRefineEdits, AcDelivers, Apply, Cell, RunsInside, NaturalOrder, ZigzagOrder, Took;
    OutcomeFine(c, mcu, coefs, s, p, eobrun, dc);
    var es := McuOutcome(c, mcu, coefs, s, p, eobrun, dc).edits;
    NaturalOfZigzag(i);
    ApplyIsCellwise(es, coefs, mcu[0], i);
    AcCell(c.acTbl[0], s, p, c.ss, c.se, c.al, mcu[0], NonZero(coefs[mcu[0]]), eobrun, dc, ZigzagOrder(i), coefs[mcu[0]][i]);
  }

  // ----- in terms of magnitude and sign -----

  /** The delivered bit appended to the magnitude of a signed number; a zero takes the sign that comes with it. */
  function Extended(x: int, d: Delivered): int {
    var bit := if d.bit then 1 else 0;
    if x > 0 then 2 * x + bit else if x < 0 then 2 * x - bit else if d.negative then -bit else bit
  }

  /** What was known of a coefficient, and what is known once d has been delivered for bit al: the magnitude with that bit
      appended, the sign kept or, for a coefficient that was zero, as delivered. */
  ghost predicate TookBit(was: int, now: int, d: Delivered, al: nat) {
    && Clear(now, al)
    && Shr(Abs(now), al) == 2 * Shr(Abs(was), al + 1) + (if d.bit then 1 else 0)
    && (was > 0 ==> now > 0) && (was < 0 ==> now < 0)
    && (was == 0 ==> if d.bit then if d.negative then now < 0 else now > 0 else now == 0)
  }

  lemma TakenIs(v: Coef, d: Delivered, al: nat)
    requires al <= 13 && Clear(v, al + 1) && v != -0x8000
    ensures TookBit(v, Took(v, d, al), d, al) && RefinedTo(v, Took(v, d, al), al)
  {
    hide Mask, Shr, Shl, Raised, Wrap16;
    var w := Took(v, d, al);
    ClearHalf(v, al);
    NewClear(al);
    ShlPositive(al);
    if v != 0 {
      Correction16(v, al);
    }
    RefinementKeeps(v, w, al);
    MagnitudeGains(v, w, al);
  }

  /** Whether the magnitude gained the bit. */
  lemma MagnitudeGains(v: Coef, w: Coef, al: nat)
    requires al <= 13 && Clear(v, al + 1) && RefinedTo(v, w, al)
    ensures Shr(Abs(w), al) == 2 * Shr(Abs(v), al + 1) + if w == v then 0 else 1
  {
    hide Mask, Shr, Shl;
    ShlPositive(al);
    ClearOfNegative(v, al + 1);
    HalfOf(Abs(v), al);
    ShrPlus(Abs(v), 1, al);
  }

  lemma HalfOf(v: int, al: nat)
    requires Clear(v, al + 1)
    ensures Shr(v, al) == 2 * Shr(v, al + 1)
  {
    ClearHalf(v, al);
    OneMore(v, al);
  }

  lemma ClearOfNegative(v: int, n: nat)
    requires Clear(v, n)
    ensures Clear(-v, n)
  {
    hide Mask, Shr, Shl;
    ClearIs(v, n);
    ShlOfNegative(Shr(v, n), n);
    ClearOfShl(-Shr(v, n), n);
  }
}
