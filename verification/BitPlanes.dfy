/** What each scan of a progression does to the bit planes of the coefficients
    (jdphuff.c; sections G.1.2 and G.1.2.3 of ITU-T T.81). */
module BitPlanes {
  import opened Bits
  import opened HuffmanTable
  import opened Coefficients
  import opened EntropySpec

  /** The n low-order bits are clear. */
  predicate Clear(v: int, n: nat) {
    Mask(v, n) == 0
  }

  lemma {:induction false} ClearOfShl(x: int, n: nat)
    ensures Clear(Shl(x, n), n) && Shr(Shl(x, n), n) == x
    decreases n
  {
    if n > 0 {
      ClearOfShl(x, n - 1);
    }
  }

  /** A value with clear low bits is its high part shifted back. */
  lemma ClearIs(v: int, n: nat)
    requires Clear(v, n)
    ensures v == Shl(Shr(v, n), n)
  {
    ShrMask(v, n);
  }

  lemma {:induction false} ClearPlus(x: int, k: int, n: nat)
    ensures Mask(x + Shl(k, n), n) == Mask(x, n)
    decreases n
  {
    if n > 0 {
      assert (x + Shl(k, n)) / 2 == x / 2 + Shl(k, n - 1);
      ClearPlus(x / 2, k, n - 1);
    }
  }

  /** Storing in 16 bits leaves the low bits as they are. */
  lemma WrapKeepsClear(x: int, n: nat)
    requires n <= 16
    ensures Clear(Wrap16(x), n) == Clear(x, n)
  {
    var q := (x + 0x8000) / 0x1_0000;
    assert x == Wrap16(x) + 0x1_0000 * q;
    Shl16(q);
    ShlShl(q, 16 - n, n);
    ClearPlus(Wrap16(x), Shl(q, 16 - n), n);
  }

  /** First passes: a coefficient scaled by the point transform has clear low bits, even when it overflows. */
  lemma FirstPassClear(x: int, al: nat)
    requires al <= 13
    ensures Clear(Wrap16(Shl(x, al)), al)
  {
    ClearOfShl(x, al);
    WrapKeepsClear(Shl(x, al), al);
  }

  /** A multiple of 2^n below 2^15 leaves room for one more step, and likewise above -2^15. */
  lemma StepFits(q: int, n: nat)
    requires n <= 14
    ensures Shl(q, n) < 0x8000 ==> Shl(q, n) + Shl(1, n) <= 0x8000
    ensures Shl(q, n) > -0x8000 ==> Shl(q, n) - Shl(1, n) >= -0x8000
  {
    hide Shl;
    var top := Shl(1, 15 - n);
    ShlShl(1, 15 - n, n);
    PowersOfTwo();
    ShlAdd(top, -top, n);
    ShlPositive(n);
    if q < top {
      ShlMonotone(q, top, n);
    } else {
      ShlMonotone(top, q, n);
    }
    if q > -top {
      ShlMonotone(-top, q, n);
    } else {
      ShlMonotone(q, -top, n);
    }
  }

  /** Room above a coefficient whose al+1 low bits are clear. */
  lemma Room(v: Coef, al: nat)
    requires al <= 13 && Clear(v, al + 1)
    ensures v + Shl(1, al + 1) <= 0x8000 && (v > -0x8000 ==> v - Shl(1, al + 1) >= -0x8000)
    ensures Shl(1, al) >= 1 && Shl(1, al + 1) == 2 * Shl(1, al) && !BitSet(v, al)
  {
    hide Mask, Shr;
    ClearIs(v, al + 1);
    StepFits(Shr(v, al + 1), al + 1);
    ShlPositive(al);
    ClearHalf(v, al);
  }

  lemma {:induction false} ClearHalf(v: int, al: nat)
    requires Clear(v, al + 1)
    ensures Clear(v, al) && Shr(v, al) % 2 == 0
    decreases al
  {
    if al > 0 {
      ClearHalf(v / 2, al - 1);
    }
  }

  // ----- one coefficient -----

  /** A DC bit: the value grows by the bit's weight or stays; its higher planes stay, it never overflows. */
  lemma DcBit(v: Coef, al: nat)
    requires al <= 13 && Clear(v, al + 1)
    ensures WithBit(v, al) == v + Shl(1, al) && Clear(WithBit(v, al), al)
    ensures Shr(WithBit(v, al), al) == 2 * Shr(v, al + 1) + 1 && Shr(v, al) == 2 * Shr(v, al + 1)
  {
    hide Mask, Shl, Shr;
    Room(v, al);
    ClearIs(v, al + 1);
    ShlShl(Shr(v, al + 1), 1, al);
    DoubledShl(Shr(v, al + 1), al);
    ShlAdd(2 * Shr(v, al + 1), 1, al);
    ClearOfShl(2 * Shr(v, al + 1), al);
    ClearOfShl(2 * Shr(v, al + 1) + 1, al);
  }

  lemma DoubledShl(x: int, n: nat)
    ensures Shl(x, n + 1) == Shl(2 * x, n)
  {
    ShlInside(x, n);
  }

  function Abs(x: int): nat {
    if x < 0 then -x else x
  }

  /** The coefficient after a refinement pass at bit al: corrected away from zero by that bit's weight or not,
      or newly nonzero with only that bit. */
  ghost predicate RefinedTo(was: int, now: int, al: nat) {
    && Clear(now, al)
    && (was == 0 ==> now == 0 || now == Shl(1, al) || now == -Shl(1, al))
    && (was > 0 ==> now == was || now == was + Shl(1, al))
    && (was < 0 ==> now == was || now == was - Shl(1, al))
  }

  /** A correction moves a coefficient away from zero by the weight of its bit, except that it turns the
      most negative 16-bit value into a positive one. */
  lemma Correction16(v: Coef, al: nat)
    requires al <= 13 && Clear(v, al + 1) && v != 0
    ensures v != -0x8000 <==> RefinedTo(v, Raised(v, al), al) && Raised(v, al) != v
    ensures v == -0x8000 ==> Raised(v, al) > 0
  {
    hide Mask, Shr, Shl, BitSet;
    Room(v, al);
    SmallPower(al);
    ClearHalf(v, al);
    ClearPlus(v, 1, al);
    ClearPlus(v, -1, al);
    ShlAdd(1, -1, al);
    ShlPositive(al);
  }

  lemma NewClear(al: nat)
    requires al <= 13
    ensures Clear(Shl(1, al), al) && Clear(-Shl(1, al), al)
    ensures Wrap16(Shl(1, al)) == Shl(1, al) && Wrap16(Shl(-1, al)) == -Shl(1, al)
  {
    ClearOfShl(1, al);
    ClearOfShl(-1, al);
    ShlAdd(1, -1, al);
    ShlPositive(al);
    SmallPower(al);
  }

  lemma SmallPower(al: nat)
    requires al <= 13
    ensures 1 <= Shl(1, al) <= 0x2000
  {
    ShlShl(1, 13 - al, al);
    ShlPositive(13 - al);
    ShlMonotone(1, Shl(1, 13 - al), al);
    ShlPositive(al);
    assert Shl(1, 4) == 16 && Shl(1, 8) == 256 && Shl(1, 12) == 4096 && Shl(1, 13) == 8192;
  }

  /** Refinement keeps the sign and all higher planes of the magnitude. */
  lemma RefinementKeeps(v: Coef, now: int, al: nat)
    requires al <= 13 && Clear(v, al + 1) && RefinedTo(v, now, al)
    ensures v > 0 ==> now > 0
    ensures v < 0 ==> now < 0
    ensures Shr(Abs(now), al + 1) == Shr(Abs(v), al + 1)
  {
    hide Shr, Mask;
    SmallPower(al);
    ClearIs(v, al + 1);
    var q := Shr(v, al + 1);
    ShlAdd(q, -q, al + 1);
    ShlPositive(al + 1);
    var m := if v < 0 then -q else q;
    ShrOfShl(m, 0, al + 1);
    ShrOfShl(m, Shl(1, al), al + 1);
  }

  // ----- first passes -----

  /** Only assignments of values with clear low bits. */
  ghost predicate PutsClear(es: seq<Edit>, al: nat) {
    forall i :: 0 <= i < |es| ==> es[i].Put? && Clear(es[i].value, al)
  }

  lemma {:induction false} DcFirstClear(c: Scan, mcu: seq<nat>, s: seq<bool>, p: nat, eobrun: nat, dc: Predictions, i: nat)
    requires |mcu| == |c.membership| && i <= |mcu|
    ensures PutsClear(DcFirstEdits(c, mcu, s, p, eobrun, dc, i).edits, c.al)
    decreases |mcu| - i
  {
    hide DcDiff, AfterDc, Wrap16, Shl, Clear;
    if i < |mcu| {
      var block := DcEdit(c, mcu, s, p, dc, i);
      DcFirstClear(c, mcu, s, block.at, eobrun, block.dc, i + 1);
      FirstPassClear(DcDiff(c.dcTbl[i], s, p) + dc[c.membership[i]], c.al);
    }
  }

  lemma {:induction false} AcFirstClear(t: JHuffTbl, s: seq<bool>, p: nat, k: nat, se: nat, al: nat, b: nat, dc: Predictions)
    requires se <= 63 && al <= 13
    ensures PutsClear(AcFirstEdits(t, s, p, k, se, al, b, dc).edits, al)
    decreases 64 - k
  {
    hide NextSymbol, SymbolLength, NaturalOrder, Wrap16, Receive, Shl, EobRun, Clear;
    if k <= se {
      var p1, rs := p + SymbolLength(t, s, p), NextSymbol(t, s, p);
      if rs % 16 != 0 {
        FirstPassClear(Receive(s, p1, rs % 16), al);
        AcFirstClear(t, s, p1 + rs % 16, k + rs / 16 + 1, se, al, b, dc);
      } else {
        AcFirstClear(t, s, p1, k + 16, se, al, b, dc);
      }
    }
  }

  lemma {:induction false} CellClear(es: seq<Edit>, block: nat, pos: nat, v: Coef, al: nat)
    requires PutsClear(es, al) && Clear(v, al)
    ensures Clear(Cell(es, block, pos, v), al)
  {
    hide Clear;
    if es != [] {
      CellClear(es[..|es| - 1], block, pos, v, al);
    }
  }

  /** After an MCU of a first pass at al every coefficient it stored, and every one that was clear, has al clear low bits. */
  lemma FirstPassPlanes(c: Scan, mcu: seq<nat>, coefs: seq<Block>, s: seq<bool>, p: nat, eobrun: nat, dc: Predictions, b: nat, pos: nat)
    requires (c.mode.DCFirst? || c.mode.ACFirst?) && McuFits(c, mcu, |coefs|) && b < |coefs| && pos < 64
    requires Clear(coefs[b][pos], c.al)
    ensures var es := McuOutcome(c, mcu, coefs, s, p, eobrun, dc).edits;
            AllInRange(es, |coefs|) && Clear(Apply(es, coefs)[b][pos], c.al)
  {
    hide Clear, DcFirstEdits, AcFirstEdits, Apply;
    OutcomeFine(c, mcu, coefs, s, p, eobrun, dc);
    var es := McuOutcome(c, mcu, coefs, s, p, eobrun, dc).edits;
    DcFirstClear(c, mcu, s, p, eobrun, dc, 0);
    if c.mode.ACFirst? {
      AcFirstClear(c.acTbl[0], s, p, c.ss, c.se, c.al, mcu[0], dc);
    }
    ApplyIsCellwise(es, coefs, b, pos);
    CellClear(es, b, pos, coefs[b][pos], c.al);
  }

  // ----- AC refinement -----

  predicate InBand(pos: nat, ss: nat, se: nat) {
    ss <= ZigzagOrder(pos) <= se
  }

  /** No run of the block leads past the end of the band. */
  ghost predicate RunsInside(t: JHuffTbl, s: seq<bool>, p: nat, k: nat, se: nat, al: nat, b: nat, nz: Pattern)
    requires se <= 63
    decreases se + 1 - k
  {
    if k > se then true
    else
      var p1, rs := p + SymbolLength(t, s, p), NextSymbol(t, s, p);
      var run, size := rs / 16, rs % 16;
      if size == 0 && run != 15 then true
      else
        var o := Advance(s, if size != 0 then p1 + 1 else p1, k, se, run, al, b, nz);
        (size != 0 ==> o.k <= se) && RunsInside(t, s, o.at, o.k + 1, se, al, b, nz)
  }

  /** In the band, corrections of nonzero history and new values of the bit's weight where there was none. */
  ghost predicate RefinesAt(e: Edit, b: nat, al: nat, nz: Pattern, ss: nat, se: nat) {
    && e.block == b && e.pos < 64 && InBand(e.pos, ss, se)
    && (if nz[e.pos] then e.Raise? && e.al == al else e.Put? && (e.value == Shl(1, al) || e.value == -Shl(1, al)))
  }

  ghost predicate Refines(es: seq<Edit>, b: nat, al: nat, nz: Pattern, ss: nat, se: nat) {
    forall i :: 0 <= i < |es| ==> RefinesAt(es[i], b, al, nz, ss, se)
  }

  lemma RefinesAppend(es: seq<Edit>, fs: seq<Edit>, b: nat, al: nat, nz: Pattern, ss: nat, se: nat)
    requires Refines(es, b, al, nz, ss, se) && Refines(fs, b, al, nz, ss, se)
    ensures Refines(es + fs, b, al, nz, ss, se)
  {
    hide RefinesAt;
  }

  lemma CorrectionRefines(s: seq<bool>, p: nat, k: nat, al: nat, b: nat, nz: Pattern, ss: nat, se: nat)
    requires ss <= k <= se <= 63 && nz[NaturalOrder(k)]
    ensures Refines(Correction(s, p, k, al, b), b, al, nz, ss, se)
  {
    hide NaturalOrder, ZigzagOrder, Peek, Shl;
    ZigzagOfNatural(k);
  }

  lemma {:induction false} AdvanceRefines(s: seq<bool>, p: nat, k: nat, se: nat, r: nat, al: nat, b: nat, nz: Pattern, ss: nat)
    requires ss <= k && se <= 63
    ensures var o := Advance(s, p, k, se, r, al, b, nz);
            Refines(o.edits, b, al, nz, ss, se) && (o.k <= se ==> !nz[NaturalOrder(o.k)])
    decreases se + 1 - k
  {
    hide NaturalOrder, Correction, RefinesAt;
    if k <= se {
      if nz[NaturalOrder(k)] {
        CorrectionRefines(s, p, k, al, b, nz, ss, se);
        AdvanceRefines(s, p + 1, k + 1, se, r, al, b, nz, ss);
        RefinesAppend(Correction(s, p, k, al, b), Advance(s, p + 1, k + 1, se, r, al, b, nz).edits, b, al, nz, ss, se);
      } else if r > 0 {
        AdvanceRefines(s, p, k + 1, se, r - 1, al, b, nz, ss);
      }
    }
  }

  lemma {:induction false} RunRefines(s: seq<bool>, p: nat, k: nat, se: nat, al: nat, b: nat, nz: Pattern, ss: nat)
    requires ss <= k && se <= 63
    ensures Refines(RunEdits(s, p, k, se, al, b, nz).0, b, al, nz, ss, se)
    decreases se + 1 - k
  {
    hide NaturalOrder, Correction, RefinesAt;
    if k <= se {
      if nz[NaturalOrder(k)] {
        CorrectionRefines(s, p, k, al, b, nz, ss, se);
        RunRefines(s, p + 1, k + 1, se, al, b, nz, ss);
        RefinesAppend(Correction(s, p, k, al, b), RunEdits(s, p + 1, k + 1, se, al, b, nz).0, b, al, nz, ss, se);
      } else {
        RunRefines(s, p, k + 1, se, al, b, nz, ss);
      }
    }
  }

  lemma NewRefines(s: seq<bool>, p: nat, k: nat, al: nat, b: nat, nz: Pattern, ss: nat, se: nat)
    requires ss <= k <= se <= 63 && !nz[NaturalOrder(k)] && al <= 13
    ensures Refines([Put(b, NaturalOrder(k), NewCoef(s, p, al))], b, al, nz, ss, se)
  {
    hide NaturalOrder, ZigzagOrder, Peek, Shl, Wrap16;
    ZigzagOfNatural(k);
    NewClear(al);
  }

  lemma {:induction false} BandRefines(t: JHuffTbl, s: seq<bool>, p: nat, k: nat, se: nat, al: nat, b: nat, nz: Pattern, ss: nat)
    requires ss <= k && se <= 63 && al <= 13 && RunsInside(t, s, p, k, se, al, b, nz)
    ensures Refines(BandEdits(t, s, p, k, se, al, b, nz).edits, b, al, nz, ss, se)
    ensures k <= BandEdits(t, s, p, k, se, al, b, nz).k
    decreases se + 1 - k
  {
    hide Advance, NextSymbol, SymbolLength, NaturalOrder, NewCoef, RefinesAt, EobRun;
    if k <= se {
      var p1, rs := p + SymbolLength(t, s, p), NextSymbol(t, s, p);
      if rs % 16 != 0 || rs / 16 == 15 {
        var q := if rs % 16 != 0 then p1 + 1 else p1;
        var o := Advance(s, q, k, se, rs / 16, al, b, nz);
        AdvanceRefines(s, q, k, se, rs / 16, al, b, nz, ss);
        BandRefines(t, s, o.at, o.k + 1, se, al, b, nz, ss);
        var added := if rs % 16 != 0 then [Put(b, NaturalOrder(o.k), NewCoef(s, p1, al))] else [];
        if rs % 16 != 0 {
          NewRefines(s, p1, o.k, al, b, nz, ss, se);
        }
        RefinesAppend(o.edits, added, b, al, nz, ss, se);
        RefinesAppend(o.edits + added, BandEdits(t, s, o.at, o.k + 1, se, al, b, nz).edits, b, al, nz, ss, se);
      }
    }
  }

  /** All runs of the MCU, if it is not inside an EOB run, end in the band. */
  ghost predicate LegalRefinement(c: Scan, mcu: seq<nat>, coefs: seq<Block>, s: seq<bool>, p: nat, eobrun: nat)
    requires McuFits(c, mcu, |coefs|) && c.mode.ACRefine?
  {
    eobrun == 0 ==> RunsInside(c.acTbl[0], s, p, c.ss, c.se, c.al, mcu[0], NonZero(coefs[mcu[0]]))
  }

  lemma McuRefines(c: Scan, mcu: seq<nat>, coefs: seq<Block>, s: seq<bool>, p: nat, eobrun: nat, dc: Predictions)
    requires c.mode.ACRefine? && McuFits(c, mcu, |coefs|) && LegalRefinement(c, mcu, coefs, s, p, eobrun)
    ensures Refines(McuOutcome(c, mcu, coefs, s, p, eobrun, dc).edits, mcu[0], c.al, NonZero(coefs[mcu[0]]), c.ss, c.se)
  {
    hide BandEdits, RunEdits, RunsInside, RefinesAt, NonZero;
    var nz := NonZero(coefs[mcu[0]]);
    var o := Refined([], p, c.ss, eobrun);
    if eobrun == 0 {
      o := BandEdits(c.acTbl[0], s, p, c.ss, c.se, c.al, mcu[0], nz);
      BandRefines(c.acTbl[0], s, p, c.ss, c.se, c.al, mcu[0], nz, c.ss);
    }
    if o.eobrun > 0 {
      RunRefines(s, o.at, o.k, c.se, c.al, mcu[0], nz, c.ss);
      RefinesAppend(o.edits, RunEdits(s, o.at, o.k, c.se, c.al, mcu[0], nz).0, mcu[0], c.al, nz, c.ss, c.se);
    }
  }

  // ----- DC refinement -----

  lemma {:induction false} CellAppend(es: seq<Edit>, fs: seq<Edit>, block: nat, pos: nat, v: Coef)
    ensures Cell(es + fs, block, pos, v) == Cell(fs, block, pos, Cell(es, block, pos, v))
    decreases |fs|
  {
    if fs == [] {
      assert es + fs == es;
    } else {
      CellAppend(es, fs[..|fs| - 1], block, pos, v);
      assert (es + fs)[..|es + fs| - 1] == es + fs[..|fs| - 1];
    }
  }

  lemma CellOfNone(block: nat, pos: nat, v: Coef)
    ensures Cell([], block, pos, v) == v
  {
  }

  lemma CellOfOne(e: Edit, block: nat, pos: nat, v: Coef)
    ensures Cell([e], block, pos, v) == if e.block == block && e.pos == pos then Edited(e, v) else v
  {
    assert [e][..0] == [];
  }

  /** The block occurs once in the MCU. */
  predicate Once(mcu: seq<nat>, j: nat)
    requires j < |mcu|
  {
    forall m :: 0 <= m < |mcu| && mcu[m] == mcu[j] ==> m == j
  }

  lemma {:induction false} DcRefineCell(al: nat, mcu: seq<nat>, s: seq<bool>, p: nat, i: nat, j: nat, v: Coef)
    requires i <= |mcu| && j < |mcu| && Once(mcu, j)
    ensures Cell(DcRefineEdits(al, mcu, s, p, i), mcu[j], 0, v)
         == if i <= j && Peek(s, p + (j - i), 1) == 1 then WithBit(v, al) else v
    decreases |mcu| - i
  {
    hide Peek, WithBit, Cell;
    CellOfNone(mcu[j], 0, v);
    if i < |mcu| {
      var head := if Peek(s, p, 1) == 1 then [SetBit(mcu[i], 0, al)] else [];
      var rest := DcRefineEdits(al, mcu, s, p + 1, i + 1);
      CellOfOne(SetBit(mcu[i], 0, al), mcu[j], 0, v);
      CellAppend(head, rest, mcu[j], 0, v);
      DcRefineCell(al, mcu, s, p + 1, i + 1, j, Cell(head, mcu[j], 0, v));
    }
  }

  /** A DC refinement at bit al appends the delivered bit, in two's complement, to the value known so far. */
  lemma DcRefinementPlanes(c: Scan, mcu: seq<nat>, coefs: seq<Block>, s: seq<bool>, p: nat, eobrun: nat, dc: Predictions, j: nat)
    requires c.mode.DCRefine? && McuFits(c, mcu, |coefs|) && j < |mcu| && Once(mcu, j)
    requires Clear(coefs[mcu[j]][0], c.al + 1)
    ensures var es := McuOutcome(c, mcu, coefs, s, p, eobrun, dc).edits;
            && AllInRange(es, |coefs|)
            && var v, now := coefs[mcu[j]][0], Apply(es, coefs)[mcu[j]][0];
               Clear(now, c.al) && Shr(now, c.al) == 2 * Shr(v, c.al + 1) + Peek(s, p + j, 1)
  {
    hide Clear, Shr, Apply, WithBit, DcRefineEdits, Peek, BitSet, Cell;
    OutcomeFine(c, mcu, coefs, s, p, eobrun, dc);
    var es, v := McuOutcome(c, mcu, coefs, s, p, eobrun, dc).edits, coefs[mcu[j]][0];
    ApplyIsCellwise(es, coefs, mcu[j], 0);
    DcRefineCell(c.al, mcu, s, p, 0, j, v);
    DcValue(v, c.al, s, p + j);
  }

  lemma DcValue(v: Coef, al: nat, s: seq<bool>, p: nat)
    requires al <= 13 && Clear(v, al + 1)
    ensures var w := if Peek(s, p, 1) == 1 then WithBit(v, al) else v;
            Clear(w, al) && Shr(w, al) == 2 * Shr(v, al + 1) + Peek(s, p, 1)
  {
    hide Mask, Shr, WithBit, Peek;
    DcBit(v, al);
    ClearHalf(v, al);
    PeekSplit(s, p, 1, 1);
    assert Shl(1, 0) == 1;
  }

  // ----- a whole progression -----

  /** The values of one coefficient through a progression that starts at bit a: each refinement is for the next bit down. */
  ghost predicate Progression(vals: seq<Coef>, a: nat) {
    && 0 < |vals| <= a + 1 <= 14 && Clear(vals[0], a)
    && forall i :: 0 <= i < |vals| - 1 ==> RefinedTo(vals[i], vals[i + 1], a - 1 - i)
  }

  /** After every scan the coefficient has all planes not yet sent clear, and those sent so far never change again,
      nor does the sign of a coefficient once it is nonzero. */
  lemma {:induction false} PlanesStay(vals: seq<Coef>, a: nat, i: nat, j: nat)
    requires Progression(vals, a) && i <= j < |vals|
    ensures Clear(vals[j], a - j)
    ensures Shr(Abs(vals[j]), a - i) == Shr(Abs(vals[i]), a - i)
    ensures (vals[i] > 0 ==> vals[j] > 0) && (vals[i] < 0 ==> vals[j] < 0)
    decreases j
  {
    hide Shr, Mask, Shl;
    if i < j {
      PlanesStay(vals, a, i, j - 1);
      PlanesStay(vals, a, j - 1, j - 1);
      assert RefinedTo(vals[j - 1], vals[j], a - 1 - (j - 1));
      RefinementKeeps(vals[j - 1], vals[j], a - j);
      ShrShr(Abs(vals[j]), a - j + 1, j - 1 - i);
      ShrShr(Abs(vals[j - 1]), a - j + 1, j - 1 - i);
    } else if j > 0 {
      assert RefinedTo(vals[j - 1], vals[j], a - 1 - (j - 1));
    }
  }
}
