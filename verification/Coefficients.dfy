/** Coefficient blocks and the edits an MCU makes to them (jdhuff.c, jdphuff.c, jutils.c). */
module Coefficients {
  import opened Bits

  type Coef = x: int | -0x8000 <= x < 0x8000
  type Block = b: seq<Coef> | |b| == 64 witness seq(64, _ => 0)

  predicate AllZero(b: Block) {
    forall i :: 0 <= i < 64 ==> b[i] == 0
  }

  /** jm_jpeg_natural_order; the 16 entries past the block all name its last coefficient. */
  function NaturalOrder(k: nat): (r: nat)
    requires k < 80
    ensures r < 64
  {
    match k
    case 0 => 0 case 1 => 1 case 2 => 8 case 3 => 16 case 4 => 9 case 5 => 2 case 6 => 3 case 7 => 10
    case 8 => 17 case 9 => 24 case 10 => 32 case 11 => 25 case 12 => 18 case 13 => 11 case 14 => 4 case 15 => 5
    case 16 => 12 case 17 => 19 case 18 => 26 case 19 => 33 case 20 => 40 case 21 => 48 case 22 => 41 case 23 => 34
    case 24 => 27 case 25 => 20 case 26 => 13 case 27 => 6 case 28 => 7 case 29 => 14 case 30 => 21 case 31 => 28
    case 32 => 35 case 33 => 42 case 34 => 49 case 35 => 56 case 36 => 57 case 37 => 50 case 38 => 43 case 39 => 36
    case 40 => 29 case 41 => 22 case 42 => 15 case 43 => 23 case 44 => 30 case 45 => 37 case 46 => 44 case 47 => 51
    case 48 => 58 case 49 => 59 case 50 => 52 case 51 => 45 case 52 => 38 case 53 => 31 case 54 => 39 case 55 => 46
    case 56 => 53 case 57 => 60 case 58 => 61 case 59 => 54 case 60 => 47 case 61 => 55 case 62 => 62 case 63 => 63
    case _ => 63
  }

  /** The inverse table. */
  function ZigzagOrder(i: nat): (r: nat)
    ensures r < 64
  {
    match i
    case 0 => 0 case 1 => 1 case 2 => 5 case 3 => 6 case 4 => 14 case 5 => 15 case 6 => 27 case 7 => 28
    case 8 => 2 case 9 => 4 case 10 => 7 case 11 => 13 case 12 => 16 case 13 => 26 case 14 => 29 case 15 => 42
    case 16 => 3 case 17 => 8 case 18 => 12 case 19 => 17 case 20 => 25 case 21 => 30 case 22 => 41 case 23 => 43
    case 24 => 9 case 25 => 11 case 26 => 18 case 27 => 24 case 28 => 31 case 29 => 40 case 30 => 44 case 31 => 53
    case 32 => 10 case 33 => 19 case 34 => 23 case 35 => 32 case 36 => 39 case 37 => 45 case 38 => 52 case 39 => 54
    case 40 => 20 case 41 => 22 case 42 => 33 case 43 => 38 case 44 => 46 case 45 => 51 case 46 => 55 case 47 => 60
    case 48 => 21 case 49 => 34 case 50 => 37 case 51 => 47 case 52 => 50 case 53 => 56 case 54 => 59 case 55 => 61
    case 56 => 35 case 57 => 36 case 58 => 48 case 59 => 49 case 60 => 57 case 61 => 58 case 62 => 62 case 63 => 63
    case _ => 63
  }

  /** The place after p on the zigzag path of Figure A.6 of ITU-T T.81: up and to the right on the diagonals whose row and column
      add up to an even number, down and to the left on the others, and along the edge where the diagonal ends. */
  function NextOnPath(p: nat): nat
    requires p < 63
  {
    var r, c := p / 8, p % 8;
    if (r + c) % 2 == 0 then
      if c == 7 then p + 8 else if r == 0 then p + 1 else p - 7
    else
      if r == 7 then p + 1 else if c == 0 then p + 8 else p + 7
  }

  lemma UpperHalf(k: nat)
    requires k < 32
    ensures NaturalOrder(0) == 0 && NaturalOrder(k) < 63 && NaturalOrder(k + 1) == NextOnPath(NaturalOrder(k))
  {
    if k < 16 {
    }
  }

  lemma LowerHalf(k: nat)
    requires 32 <= k < 63
    ensures NaturalOrder(k) < 63 && NaturalOrder(k + 1) == NextOnPath(NaturalOrder(k))
  {
    if k < 48 {
    }
  }

  lemma PastTheEnd(k: nat)
    requires 63 <= k < 80
    ensures NaturalOrder(k) == 63
  {
  }

  /** The natural order walks that path from the DC coefficient on, and stays at the end of it. */
  lemma NaturalIsZigzag(k: nat)
    requires k < 80
    ensures NaturalOrder(0) == 0
    ensures k < 63 ==> NaturalOrder(k) < 63 && NaturalOrder(k + 1) == NextOnPath(NaturalOrder(k))
    ensures k >= 63 ==> NaturalOrder(k) == 63
  {
    hide NaturalOrder, NextOnPath;
    UpperHalf(0);
    if k < 32 {
      UpperHalf(k);
    } else if k < 63 {
      LowerHalf(k);
    } else {
      PastTheEnd(k);
    }
  }

  lemma ZigzagOfNatural(k: nat)
    requires k < 64
    ensures ZigzagOrder(NaturalOrder(k)) == k
  {
  }

  lemma NaturalOfZigzag(i: nat)
    requires i < 64
    ensures NaturalOrder(ZigzagOrder(i)) == i
  {
    if i < 16 {
    } else if i < 32 {
    } else if i < 48 {
    }
  }

  /** Conversion to a 16-bit JCOEF. */
  function Wrap16(x: int): Coef {
    (x + 0x8000) % 0x1_0000 - 0x8000
  }

  predicate BitSet(v: int, al: nat) {
    Shr(v, al) % 2 == 1
  }

  /** A correction bit of 1 grows the magnitude by 2^al, unless that bit is already set. */
  function Raised(v: Coef, al: nat): Coef {
    if BitSet(v, al) then v else if v >= 0 then Wrap16(v + Shl(1, al)) else Wrap16(v - Shl(1, al))
  }

  /** v |= 1 << al */
  function WithBit(v: Coef, al: nat): Coef {
    if BitSet(v, al) then v else Wrap16(v + Shl(1, al))
  }

  /** One assignment to a coefficient: a new value, a correction, or a DC bit. */
  datatype Edit = Put(block: nat, pos: nat, value: Coef)
                | Raise(block: nat, pos: nat, al: nat)
                | SetBit(block: nat, pos: nat, al: nat)

  function Edited(e: Edit, v: Coef): Coef {
    match e
    case Put(_, _, x) => x
    case Raise(_, _, al) => Raised(v, al)
    case SetBit(_, _, al) => WithBit(v, al)
  }

  predicate InRange(e: Edit, n: nat) {
    e.block < n && e.pos < 64
  }

  function ApplyOne(e: Edit, coefs: seq<Block>): (r: seq<Block>)
    requires InRange(e, |coefs|)
    ensures |r| == |coefs|
  {
    coefs[e.block := coefs[e.block][e.pos := Edited(e, coefs[e.block][e.pos])]]
  }

  ghost predicate AllInRange(es: seq<Edit>, n: nat) {
    forall i :: 0 <= i < |es| ==> InRange(es[i], n)
  }

  function Apply(es: seq<Edit>, coefs: seq<Block>): (r: seq<Block>)
    requires AllInRange(es, |coefs|)
    ensures |r| == |coefs|
  {
    if es == [] then coefs else ApplyOne(es[|es| - 1], Apply(es[..|es| - 1], coefs))
  }

  // ----- one cell at a time -----

  /** What the edits make of the coefficient at pos of a block, given what it was. */
  function Cell(es: seq<Edit>, block: nat, pos: nat, v: Coef): Coef {
    if es == [] then v
    else
      var e, w := es[|es| - 1], Cell(es[..|es| - 1], block, pos, v);
      if e.block == block && e.pos == pos then Edited(e, w) else w
  }

  lemma {:induction false} ApplyIsCellwise(es: seq<Edit>, coefs: seq<Block>, block: nat, pos: nat)
    requires AllInRange(es, |coefs|) && block < |coefs| && pos < 64
    ensures Apply(es, coefs)[block][pos] == Cell(es, block, pos, coefs[block][pos])
  {
    if es != [] {
      ApplyIsCellwise(es[..|es| - 1], coefs, block, pos);
    }
  }

  lemma SameCells(a: seq<Block>, b: seq<Block>)
    requires |a| == |b|
    requires forall block, pos :: 0 <= block < |a| && 0 <= pos < 64 ==> a[block][pos] == b[block][pos]
    ensures a == b
  {
    forall block | 0 <= block < |a|
      ensures a[block] == b[block]
    {
    }
  }

  // ----- repeating edits -----

  lemma WrapKeepsBit(x: int, al: nat)
    requires al < 16
    ensures BitSet(Wrap16(x), al) == BitSet(x, al)
  {
    hide Shr, Shl;
    var q := (x + 0x8000) / 0x1_0000;
    var w := Wrap16(x);
    assert x == w + 0x1_0000 * q;
    Shl16(q);
    ShlShl(q, 16 - al, al);
    ShrPlus(w, Shl(q, 16 - al), al);
    ShlEven(q, 15 - al);
  }

  lemma ShlEven(q: int, n: nat)
    ensures Shl(q, n + 1) == 2 * Shl(q, n)
  {
  }

  /** A correction, or a DC bit, applied again changes nothing and never makes a coefficient zero. */
  lemma TouchUpOnce(v: Coef, al: nat)
    requires al < 16
    ensures BitSet(Raised(v, al), al) && Raised(Raised(v, al), al) == Raised(v, al)
    ensures BitSet(WithBit(v, al), al) && WithBit(WithBit(v, al), al) == WithBit(v, al)
    ensures v != 0 ==> Raised(v, al) != 0
  {
    hide Shr, Shl, Wrap16;
    ShrPlus(v, 1, al);
    ShrPlus(v, -1, al);
    ShlAdd(1, -1, al);
    ShlPositive(al);
    WrapKeepsBit(v + Shl(1, al), al);
    WrapKeepsBit(v - Shl(1, al), al);
    ZeroHasNoBit(al);
  }

  lemma {:induction false} ZeroHasNoBit(al: nat)
    ensures Shr(0, al) == 0
  {
    if al > 0 {
      ZeroHasNoBit(al - 1);
    }
  }

  ghost predicate AnyAt(es: seq<Edit>, block: nat, pos: nat) {
    exists i :: 0 <= i < |es| && es[i].block == block && es[i].pos == pos
  }

  ghost predicate PutAt(es: seq<Edit>, block: nat, pos: nat) {
    exists i :: 0 <= i < |es| && es[i].Put? && es[i].block == block && es[i].pos == pos
  }

  /** All touch-ups in the list are of one kind, at one bit position. */
  ghost predicate Uniform(es: seq<Edit>, raising: bool, al: nat) {
    forall i :: 0 <= i < |es| ==>
      es[i].Put? || (es[i].al == al && if raising then es[i].Raise? else es[i].SetBit?)
  }

  function TouchUp(raising: bool, al: nat, v: Coef): Coef {
    if raising then Raised(v, al) else WithBit(v, al)
  }

  /** A cell ends up with a value that does not depend on the old one, or touched up once, or unchanged. */
  lemma {:induction false} CellForm(es: seq<Edit>, raising: bool, al: nat, block: nat, pos: nat, v: Coef, w: Coef)
    requires Uniform(es, raising, al) && al < 16
    ensures PutAt(es, block, pos) ==> Cell(es, block, pos, v) == Cell(es, block, pos, w)
    ensures !PutAt(es, block, pos) ==>
              Cell(es, block, pos, v) == if AnyAt(es, block, pos) then TouchUp(raising, al, v) else v
  {
    if es != [] {
      var n := |es| - 1;
      var e, init := es[n], es[..n];
      CellForm(init, raising, al, block, pos, v, w);
      TouchUpOnce(v, al);
      assert forall i :: 0 <= i < n ==> init[i] == es[i];
      var here := e.block == block && e.pos == pos;
      assert AnyAt(es, block, pos) <==> AnyAt(init, block, pos) || here by {
        if AnyAt(init, block, pos) {
          var i :| 0 <= i < |init| && init[i].block == block && init[i].pos == pos;
          assert es[i] == init[i];
        }
      }
      assert PutAt(es, block, pos) <==> PutAt(init, block, pos) || (here && e.Put?) by {
        if PutAt(init, block, pos) {
          var i :| 0 <= i < |init| && init[i].Put? && init[i].block == block && init[i].pos == pos;
          assert es[i] == init[i];
        }
      }
    }
  }

  /** Every edit of fs touches a cell that es edits too, and overwrites only cells that es overwrites. */
  ghost predicate Covers(es: seq<Edit>, fs: seq<Edit>) {
    forall block: nat, pos: nat ::
      && (AnyAt(fs, block, pos) ==> AnyAt(es, block, pos))
      && (PutAt(fs, block, pos) ==> PutAt(es, block, pos))
  }

  /** Having done some of the edits before does not show once all of them are done. */
  lemma Absorb(es: seq<Edit>, fs: seq<Edit>, raising: bool, al: nat, coefs: seq<Block>)
    requires AllInRange(es, |coefs|) && AllInRange(fs, |coefs|) && al < 16
    requires Uniform(es, raising, al) && Uniform(fs, raising, al) && Covers(es, fs)
    ensures Apply(es, Apply(fs, coefs)) == Apply(es, coefs)
  {
    var part := Apply(fs, coefs);
    forall block, pos | 0 <= block < |coefs| && 0 <= pos < 64
      ensures Apply(es, part)[block][pos] == Apply(es, coefs)[block][pos]
    {
      var v := coefs[block][pos];
      var w := Cell(fs, block, pos, v);
      ApplyIsCellwise(fs, coefs, block, pos);
      ApplyIsCellwise(es, part, block, pos);
      ApplyIsCellwise(es, coefs, block, pos);
      CellForm(es, raising, al, block, pos, v, w);
      CellForm(es, raising, al, block, pos, w, w);
      CellForm(fs, raising, al, block, pos, v, w);
      TouchUpOnce(v, al);
    }
    SameCells(Apply(es, part), Apply(es, coefs));
  }

  lemma PrefixCovered(es: seq<Edit>, n: nat)
    requires n <= |es|
    ensures Covers(es, es[..n])
  {
    forall block: nat, pos: nat
      ensures AnyAt(es[..n], block, pos) ==> AnyAt(es, block, pos)
      ensures PutAt(es[..n], block, pos) ==> PutAt(es, block, pos)
    {
      if i :| 0 <= i < n && es[..n][i].block == block && es[..n][i].pos == pos {
        assert es[i] == es[..n][i];
      }
      if i :| 0 <= i < n && es[..n][i].Put? && es[..n][i].block == block && es[..n][i].pos == pos {
        assert es[i] == es[..n][i];
      }
    }
  }

  lemma {:induction false} ApplyAppend(es: seq<Edit>, fs: seq<Edit>, coefs: seq<Block>)
    requires AllInRange(es, |coefs|) && AllInRange(fs, |coefs|)
    ensures AllInRange(es + fs, |coefs|) && Apply(es + fs, coefs) == Apply(fs, Apply(es, coefs))
    decreases |fs|
  {
    if fs == [] {
      assert es + fs == es;
    } else {
      ApplyAppend(es, fs[..|fs| - 1], coefs);
      assert (es + fs)[..|es + fs| - 1] == es + fs[..|fs| - 1];
    }
  }
}
