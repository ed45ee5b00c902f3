/** When the point transform overflows the 16 bits of a coefficient: exactly which values of an AC first pass are
    stored and later refined as they were sent (jdphuff.c). */
module Overflow {
  import opened Bits
  import opened HuffmanTable
  import opened Coefficients
  import opened EntropySpec
  import opened BitPlanes
  import opened BaselineEncoder
  import opened ProgressiveEncoder
  import opened Encodable
  import opened EncodedBands

  /** Every correction by these bits, for bit positions al-1 and down, moves the coefficient away from zero by its weight. */
  predicate StepsAway(v: Coef, al: nat, bits: seq<bool>)
    requires |bits| <= al
    decreases al
  {
    if bits == [] then true
    else if bits[0] then Away(v, al - 1) && StepsAway(Raised(v, al - 1), al - 1, bits[1..])
    else StepsAway(v, al - 1, bits[1..])
  }

  predicate Away(v: Coef, al: nat) {
    Raised(v, al) == if v > 0 then v + Shl(1, al) else v - Shl(1, al)
  }

  /** The value arrives: it is stored as sent, and whatever correction bits follow, they do what they say. */
  ghost predicate Arrives(x: int, al: nat) {
    && Wrap16(Shl(x, al)) == Shl(x, al)
    && forall bits: seq<bool> :: |bits| <= al ==> StepsAway(Wrap16(Shl(x, al)), al, bits)
  }

  /** A nonzero multiple of 2^al within 16 bits, other than the most negative number, is corrected as it should be. */
  lemma {:induction false} StepsAwayInside(v: Coef, al: nat, bits: seq<bool>)
    requires |bits| <= al <= 13 && v != 0 && v != -0x8000 && Clear(v, al)
    ensures StepsAway(v, al, bits)
    decreases al
  {
    hide Clear, Shl, Raised;
    if bits != [] {
      OneAway(v, al - 1);
      ClearDown(v, al - 1);
      if bits[0] {
        StepsAwayInside(Raised(v, al - 1), al - 1, bits[1..]);
      } else {
        StepsAwayInside(v, al - 1, bits[1..]);
      }
    }
  }

  lemma ClearDown(v: int, al: nat)
    requires Clear(v, al + 1)
    ensures Clear(v, al)
  {
    ClearHalf(v, al);
  }

  lemma OneAway(v: Coef, al: nat)
    requires al <= 12 && v != 0 && v != -0x8000 && Clear(v, al + 1)
    ensures Away(v, al) && Raised(v, al) != 0 && Raised(v, al) != -0x8000 && Clear(Raised(v, al), al)
  {
    hide Mask, Shl, Raised;
    Correction16(v, al);
    Room(v, al);
  }

  /** A nonzero value of an AC first pass arrives exactly if it lies strictly between the ends of the 16-bit range once it is
      shifted; at the most negative number itself, exactly if no correction can follow. */
  lemma ArrivesExactly(x: int, al: nat)
    requires al <= 13 && x != 0
    ensures Arrives(x, al) <==> -0x8000 < Shl(x, al) < 0x8000 || (x == -0x8000 && al == 0)
  {
    hide Mask, Shl, Raised, StepsAway;
    var v := Wrap16(Shl(x, al));
    FirstPassClear(x, al);
    NotZero(x, al);
    if -0x8000 < Shl(x, al) < 0x8000 {
      forall bits: seq<bool> | |bits| <= al
        ensures StepsAway(v, al, bits)
      {
        StepsAwayInside(v, al, bits);
      }
    } else if al == 0 {
      NoShift(x);
      forall bits: seq<bool> | |bits| <= al
        ensures StepsAway(v, al, bits)
      {
        NoBits(v, bits);
      }
    } else if Shl(x, al) == -0x8000 {
      MostNegative(v, al);
    }
  }

  lemma NotZero(x: int, al: nat)
    requires x != 0
    ensures Shl(x, al) != 0
  {
    ShlPositive(al);
    if x > 0 {
      ShlMonotone(0, x, al);
    } else {
      ShlMonotone(x, 0, al);
    }
  }

  lemma NoShift(x: int)
    ensures Shl(x, 0) == x
  {
  }

  lemma NoBits(v: Coef, bits: seq<bool>)
    requires bits == []
    ensures StepsAway(v, 0, bits)
  {
  }

  /** The most negative number turns positive at its first correction. */
  lemma MostNegative(v: Coef, al: nat)
    requires v == -0x8000 && 1 <= al <= 13 && Clear(v, al)
    ensures !StepsAway(v, al, [true])
  {
    hide Mask, Shl, Raised;
    Correction16(v, al - 1);
    ShlPositive(al - 1);
  }

  /** Receiving n bits gives a value of size n. */
  lemma ReceivedSize(s: seq<bool>, p: nat, n: nat)
    requires n >= 1
    ensures Receive(s, p, n) != 0 && Category(Magnitude(Receive(s, p, n))) == n
  {
    hide Shl, Category, Window, Value;
    PeekSplit(s, p, n, n);
    var x, m := Peek(s, p, n), Magnitude(Receive(s, p, n));
    assert Shl(1, n) == 2 * Shl(1, n - 1) by { DoubledShl(1, n - 1); ShlInside(1, n - 1); }
    ShlPositive(n - 1);
    assert Shl(1, n - 1) <= m < Shl(1, n);
    CategoryBounds(m);
    var k := Category(m);
    if k < n {
      PowersGrow(k, n - 1);
    }
    if k > n {
      PowersGrow(n, k - 1);
    }
  }

  /** What the decoder of an AC first pass can check before it stores a value: the size it has read and Al. */
  lemma SizeGuard(s: seq<bool>, p: nat, n: nat, al: nat)
    requires 1 <= n <= 15 && al <= 13
    ensures Arrives(Receive(s, p, n), al) <==> n + al <= 15
  {
    hide Shl, Category, Receive, Arrives;
    var x := Receive(s, p, n);
    ReceivedSize(s, p, n);
    CategoryDecides(x, al);
    ArrivesExactly(x, al);
    NoShift(x);
  }

  // ----- DC -----

  /** A two's complement number with further bits appended. */
  function Spelled(x: int, bits: seq<bool>): int
    decreases |bits|
  {
    if bits == [] then x else Spelled(2 * x + (if bits[0] then 1 else 0), bits[1..])
  }

  /** A stored DC value after refinements for bit positions al-1 and down. */
  function Appended(v: Coef, al: nat, bits: seq<bool>): Coef
    requires |bits| <= al
    decreases al
  {
    if bits == [] then v else Appended(if bits[0] then WithBit(v, al - 1) else v, al - 1, bits[1..])
  }

  lemma OneAppended(x: int, al: nat, b: bool)
    requires al <= 12 && -0x8000 <= Shl(x, al + 1) < 0x8000
    ensures (if b then WithBit(Shl(x, al + 1), al) else Shl(x, al + 1)) == Shl(2 * x + (if b then 1 else 0), al)
  {
    hide Shl, WithBit, Mask;
    ClearOfShl(x, al + 1);
    DcBit(Shl(x, al + 1), al);
    DoubledShl(x, al);
    ShlAdd(2 * x, 1, al);
  }

  lemma {:induction false} AppendedIs(x: int, al: nat, bits: seq<bool>)
    requires |bits| <= al <= 13 && -0x8000 <= Shl(x, al) < 0x8000
    ensures Appended(Shl(x, al), al, bits) == Shl(Spelled(x, bits), al - |bits|)
    decreases al
  {
    hide Shl, WithBit;
    if bits != [] {
      OneAppended(x, al - 1, bits[0]);
      AppendedIs(2 * x + (if bits[0] then 1 else 0), al - 1, bits[1..]);
    }
  }

  /** A DC value arrives, with all bits appended to it later, exactly if it fits in 16 bits once it is shifted. */
  lemma DcArrivesExactly(x: int, al: nat)
    requires al <= 13
    ensures -0x8000 <= Shl(x, al) < 0x8000 <==>
              forall bits: seq<bool> :: |bits| <= al ==> Appended(Wrap16(Shl(x, al)), al, bits) == Shl(Spelled(x, bits), al - |bits|)
  {
    hide Shl, WithBit;
    if -0x8000 <= Shl(x, al) < 0x8000 {
      forall bits: seq<bool> | |bits| <= al
        ensures Appended(Wrap16(Shl(x, al)), al, bits) == Shl(Spelled(x, bits), al - |bits|)
      {
        AppendedIs(x, al, bits);
      }
    } else {
      var none: seq<bool> := [];
      assert Appended(Wrap16(Shl(x, al)), al, none) == Wrap16(Shl(x, al)) != Shl(Spelled(x, none), al - |none|);
    }
  }

  // ----- overflow happens -----

  const TABLE: JHuffTbl := FlatTable(251)
  const FIRST: Scan := ScanRaw.Scan(ACFirst, 1, 1, 13, 0, [0], [TABLE], [TABLE], [true], [true])
  const DC_TABLE: JHuffTbl := FlatTable(12)
  const DC_FIRST: Scan := ScanRaw.Scan(DCFirst, 0, 0, 13, 0, [0], [DC_TABLE], [DC_TABLE], [true], [true])
  const SECOND: Scan := ScanRaw.Scan(ACRefine, 1, 1, 12, 0, [0], [TABLE], [TABLE], [true], [true])

  lemma TableFits()
    ensures CodesFit(TABLE) && Codes(TABLE, 3) && EobCoded(TABLE, 1) && Category(1) == 1
  {
    hide Codes, CodesFit, FlatTable;
    TablesExist();
    assert AcSymbol(3);
    OneIsCoded(TABLE);
  }

  lemma Three(s: seq<bool>, p: nat, b: bool)
    requires HasAt(s, p, [b, !b, !b])
    ensures Receive(s, p, 3) == if b then 4 else -4
  {
    var w := [b, !b, !b];
    WindowAt(s, p, w);
    assert w[..2] == [b, !b] && w[..2][..1] == [b] && w[..2][..1][..0] == [];
    assert Value(w) == 2 * Value(w[..2]) + if !b then 1 else 0;
    assert Value(w[..2]) == 2 * Value(w[..2][..1]) + if !b then 1 else 0;
    assert Shl(1, 2) == 4 && Shl(1, 3) == 8;
  }

  lemma ThirteenTwelve()
    ensures Shl(4, 13) == 0x8000 && Shl(-4, 13) == -0x8000 && Wrap16(0x8000) == Wrap16(-0x8000) == -0x8000 && Shl(1, 12) == 0x1000
    ensures Raised(-0x8000, 12) == 28672
  {
    assert Shl(1, 4) == 16 && Shl(1, 8) == 256 && Shl(1, 12) == 4096;
    ShlShl(1, 2, 13);
    PowersOfTwo();
    assert Shl(1, 2) == 4;
    PointTransform.ShlOfNegative(4, 13);
    assert Shr(-0x8000, 4) == -0x800 && Shr(-0x800, 4) == -0x80 && Shr(-0x80, 4) == -8;
    ShrShr(-0x8000, 4, 4);
    ShrShr(-0x8000, 8, 4);
  }

  /** A first pass at bit 13 that sends 4, or -4, of size 3, stores -32768 for either, of which the first has lost its sign. */
  lemma FirstOverflows(b: bool, coefs: seq<Block>, dc: Predictions)
    requires |coefs| == 1
    ensures Codes(TABLE, 3)
    ensures var s := Code(TABLE, 3) + [b, !b, !b];
            McuOutcome(FIRST, [0], coefs, s, 0, 0, dc).edits == [Put(0, 1, -0x8000)]
  {
    hide Codes, Code, HasAt, SymbolLength, NextSymbol, Receive, Shl, Wrap16, CodesFit, AcFirstEdits, FlatTable, EobCoded, Category;
    TableFits();
    var t, s := TABLE, Code(TABLE, 3) + [b, !b, !b];
    assert HasAt(s, 0, s) by { Whole(s); }
    HasParts(s, 0, Code(t, 3), [b, !b, !b]);
    SymbolComesBack(t, s, 0, 3);
    Three(s, |Code(t, 3)|, b);
    ThirteenTwelve();
    FirstUnfold(t, s, 0, 1, 1, 13, 0, dc);
    FirstUnfold(t, s, |Code(t, 3)| + 3, 2, 1, 13, 0, dc);
    var e := Put(0, NaturalOrder(1), Wrap16(Shl(if b then 4 else -4, 13)));
    assert AcFirstEdits(t, s, 0, 1, 1, 13, 0, dc).edits == [e] + [];
    assert e == Put(0, 1, -0x8000);
  }

  lemma Whole(s: seq<bool>)
    ensures HasAt(s, 0, s)
  {
  }

  /** A DC first pass at bit 13 does the same: the difference 4 from a prediction of 0, of size 3, is stored as -32768, as -4 is
      (of the two only -4 fits, as ThirteenTwelve shows), and the prediction is right for both. */
  lemma DcFirstOverflows(b: bool, coefs: seq<Block>, dc: Predictions)
    requires |coefs| == 1 && dc[0] == 0
    ensures Codes(DC_TABLE, 3)
    ensures var s := Code(DC_TABLE, 3) + [b, !b, !b];
            var o := McuOutcome(DC_FIRST, [0], coefs, s, 0, 0, dc);
            o.edits == [Put(0, 0, -0x8000)] && o.dc[0] == if b then 4 else -4
  {
    hide Codes, Code, HasAt, SymbolLength, NextSymbol, Receive, Shl, Wrap16, CodesFit, DcFirstEdits, DcEdit, FlatTable, CodesDc, CodesAc, Acceptable;
    TablesExist();
    assert CodesDc(DC_TABLE) ==> Codes(DC_TABLE, 3) by { ThreeIsCoded(DC_TABLE); }
    var s := Code(DC_TABLE, 3) + [b, !b, !b];
    ThirteenTwelve();
    FourSent(DC_FIRST, DC_TABLE, b, s, if b then 4 else -4, dc);
    SingleBlock(DC_FIRST, s, 0, dc);
  }

  lemma ThreeIsCoded(t: JHuffTbl)
    ensures CodesDc(t) ==> Codes(t, 3)
  {
    hide Codes;
  }

  lemma FourSent(c: Scan, t: JHuffTbl, b: bool, s: seq<bool>, x: int, dc: Predictions)
    requires c.membership == [0] && c.dcTbl == [t] && CodesFit(t) && Codes(t, 3)
    requires s == Code(t, 3) + [b, !b, !b] && x == (if b then 4 else -4) && dc[0] == 0
    ensures DcEdit(c, [0], s, 0, dc, 0) == Outcome([Put(0, 0, Wrap16(Shl(x, c.al)))], |s|, 0, dc[0 := x])
  {
    hide Codes, Code, HasAt, SymbolLength, NextSymbol, Receive, Shl, Wrap16, CodesFit;
    assert HasAt(s, 0, s) by { Whole(s); }
    HasParts(s, 0, Code(t, 3), [b, !b, !b]);
    SymbolComesBack(t, s, 0, 3);
    Three(s, |Code(t, 3)|, b);
  }

  /** An MCU of one block. */
  lemma SingleBlock(c: Scan, s: seq<bool>, p: nat, dc: Predictions)
    requires |c.membership| == 1
    ensures var block := DcEdit(c, [0], s, p, dc, 0); DcFirstEdits(c, [0], s, p, 0, dc, 0) == Outcome(block.edits, block.at, 0, block.dc)
  {
    hide DcEdit;
    var block := DcEdit(c, [0], s, p, dc, 0);
    assert block.edits + [] == block.edits;
  }

  /** The next refinement, if it corrects the coefficient, turns it positive. */
  lemma SecondFlips(coefs: seq<Block>, dc: Predictions)
    requires |coefs| == 1 && coefs[0][1] == -0x8000
    ensures EobCoded(TABLE, 1)
    ensures var s := EobBits(TABLE, 1) + [true];
            var es := McuOutcome(SECOND, [0], coefs, s, 0, 0, dc).edits;
            AllInRange(es, 1) && Apply(es, coefs)[0][1] == 28672
  {
    hide Codes, Code, HasAt, SymbolLength, NextSymbol, Shl, Shr, CodesFit, FlatTable, EobBits, EobCoded, Raised, BandEdits, Apply, Category;
    TableFits();
    var t, s := TABLE, EobBits(TABLE, 1) + [true];
    assert HasAt(s, 0, s) by { Whole(s); }
    HasParts(s, 0, EobBits(t, 1), [true]);
    EobComesBack(t, s, 0, 1);
    var nz := NonZero(coefs[0]);
    BandUnfold(t, s, 0, 1, 1, 12, 0, nz);
    BitAt(s, |EobBits(t, 1)|, true);
    assert RunEdits(s, |EobBits(t, 1)| + 1, 2, 1, 12, 0, nz) == ([], |EobBits(t, 1)| + 1);
    var e := Raise(0, 1, 12);
    assert McuOutcome(SECOND, [0], coefs, s, 0, 0, dc).edits == [] + ([e] + []) == [e];
    ApplySingle(e, coefs);
    ThirteenTwelve();
  }
}
