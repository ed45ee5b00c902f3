/** What is known of a coefficient of which the al low-order bits have not been sent (jdphuff.c;
    section G.1.2 of ITU-T T.81). */
module PointTransform {
  import opened Bits
  import opened Coefficients
  import opened BitPlanes

  /** The point transform of an AC coefficient: its magnitude divided, its sign kept. */
  function Part(v: int, al: nat): int {
    if v < 0 then -Shr(-v, al) else Shr(v, al)
  }

  /** DC coefficients are shifted as two's complement numbers. */
  function DcAt(v: Coef, al: nat): Coef {
    Wrap16(Shl(Shr(v, al), al))
  }

  function AcAt(v: Coef, al: nat): Coef {
    Wrap16(Shl(Part(v, al), al))
  }

  /** Bit al of a number. */
  predicate BitOf(v: int, al: nat) {
    Shr(v, al) % 2 == 1
  }

  /** A coefficient with its low bits cut off still fits in 16 bits. */
  lemma Fits(v: Coef, al: nat)
    requires al <= 14
    ensures DcAt(v, al) == Shl(Shr(v, al), al) <= v && Clear(DcAt(v, al), al)
  {
    hide Shl, Shr, Mask;
    var q, top := Shr(v, al), Shl(1, 15 - al);
    ShrMask(v, al);
    ClearOfShl(q, al);
    ShlShl(1, 15 - al, al);
    PowersOfTwo();
    ShlAdd(top, -top, al);
    ShlPositive(al);
    if q < -top {
      ShlMonotone(q, -top, al);
    } else {
      ShlMonotone(-top, q, al);
    }
  }

  lemma ShlOfNegative(x: int, n: nat)
    ensures Shl(-x, n) == -Shl(x, n)
  {
    ShlAdd(x, -x, n);
    ShlPositive(n);
  }

  /** The same towards zero; nothing remains exactly if the point transform is zero, and the sign stays. */
  lemma FitsTowardsZero(v: Coef, al: nat)
    requires al <= 14
    ensures AcAt(v, al) == Shl(Part(v, al), al) && Clear(AcAt(v, al), al)
    ensures AcAt(v, al) == 0 <==> Part(v, al) == 0
    ensures (AcAt(v, al) > 0 ==> v > 0) && (AcAt(v, al) < 0 ==> v < 0)
  {
    hide Shl, Shr, Mask;
    var m := Abs(v);
    var q := Shr(m, al);
    ShrMask(m, al);
    ClearOfShl(Part(v, al), al);
    ShlOfNegative(q, al);
    ShlPositive(al);
    if q > 0 {
      ShlMonotone(0, q, al);
    }
  }

  /** The value at one bit position more: twice as much, plus the bit. */
  lemma OneMore(v: int, al: nat)
    ensures Shr(v, al) == 2 * Shr(v, al + 1) + if BitOf(v, al) then 1 else 0
    ensures Shl(Shr(v, al), al) == Shl(Shr(v, al + 1), al + 1) + if BitOf(v, al) then Shl(1, al) else 0
  {
    hide Shl, Shr;
    ShrShr(v, al, 1);
    HalfIs(Shr(v, al));
    var q := Shr(v, al + 1);
    ShlAdd(2 * q, if BitOf(v, al) then 1 else 0, al);
    ShlPositive(al);
    DoubledShl(q, al);
  }

  lemma HalfIs(x: int)
    ensures Shr(x, 1) == x / 2
  {
  }

  /** Refining the DC coefficient by its bit takes it from one level to the next, and doing so again changes nothing. */
  lemma DcRefined(v: Coef, al: nat)
    requires al <= 13
    ensures if BitOf(v, al) then WithBit(DcAt(v, al + 1), al) == DcAt(v, al) == WithBit(DcAt(v, al), al)
            else DcAt(v, al + 1) == DcAt(v, al)
  {
    hide Shl, Shr, Mask, WithBit;
    Fits(v, al);
    Fits(v, al + 1);
    OneMore(v, al);
    DcBit(DcAt(v, al + 1), al);
    TouchUpOnce(DcAt(v, al + 1), al);
  }

  /** A coefficient with history is corrected by the bit of its magnitude. */
  lemma AcCorrected(v: Coef, al: nat)
    requires al <= 13 && Part(v, al + 1) != 0
    ensures AcAt(v, al) == if BitOf(Abs(v), al) then Raised(AcAt(v, al + 1), al) else AcAt(v, al + 1)
  {
    hide Shl, Shr, Mask, BitSet, Wrap16;
    var m := Abs(v);
    OneMore(m, al);
    FitsTowardsZero(v, al + 1);
    FitsTowardsZero(v, al);
    Room(AcAt(v, al + 1), al);
    ShlOfNegative(Shr(m, al), al);
    ShlOfNegative(Shr(m, al + 1), al + 1);
  }

  /** One without history becomes 1 or -1 in the bit position being sent, or stays zero. */
  lemma AcNew(v: Coef, al: nat)
    requires al <= 13 && Part(v, al + 1) == 0
    ensures AcAt(v, al + 1) == 0 && Part(v, al) == if !BitOf(Abs(v), al) then 0 else if v < 0 then -1 else 1
    ensures AcAt(v, al) == if !BitOf(Abs(v), al) then 0 else Wrap16(if v < 0 then Shl(-1, al) else Shl(1, al))
    ensures v == 0 ==> Part(v, al) == 0
  {
    hide Shl, Shr, Mask;
    ZeroHasNoBit(al);
    OneMore(Abs(v), al);
    FitsTowardsZero(v, al + 1);
    ShlPositive(al);
  }

  /** With nothing cut off, the coefficient itself. */
  lemma Whole(v: Coef)
    ensures DcAt(v, 0) == v && AcAt(v, 0) == v
  {
  }
}
