/** Huffman tables: validation, canonical code assignment and the derived
    decoding tables (jdhuff.h, jdhuff.c; Figures C.1, C.2 and F.15 of ITU-T T.81). */
module HuffmanTable {
  import opened Bits

  const HUFF_LOOKAHEAD: nat := 8

  type Byte = x: int | 0 <= x < 256

  datatype JHuffTblRaw = JHuffTbl(bits: seq<nat>, huffval: seq<Byte>)

  /** A table as a DHT marker transmits it: bits[l] codes of length l, then the symbols. */
  type JHuffTbl = t: JHuffTblRaw | |t.bits| == 17 && |t.huffval| == 256
    witness JHuffTblRaw.JHuffTbl(seq(17, _ => 0), seq(256, _ => 0))

  /** Number of symbols with a code shorter than l. */
  function Offset(t: JHuffTbl, l: nat): nat
    requires l <= 17
  {
    if l <= 1 then 0 else Offset(t, l - 1) + t.bits[l - 1]
  }

  /** The smallest code of length l under the canonical assignment. */
  function FirstCode(t: JHuffTbl, l: nat): nat
    requires l <= 17
  {
    if l <= 1 then 0 else 2 * (FirstCode(t, l - 1) + t.bits[l - 1])
  }

  /** The Kraft sum of the codes no longer than l, in units of 2^-16. */
  function Kraft(t: JHuffTbl, l: nat): nat
    requires l <= 16
  {
    if l == 0 then 0 else Kraft(t, l - 1) + Shl(t.bits[l], 16 - l)
  }

  /** At most 256 codes, a Kraft sum strictly below 1, and DC categories 0..15. */
  ghost predicate Acceptable(t: JHuffTbl, isDC: bool) {
    && Offset(t, 17) <= 256
    && Kraft(t, 16) < Shl(1, 16)
    && (isDC ==> forall i :: 0 <= i < Offset(t, 17) ==> t.huffval[i] <= 15)
  }

  /** Number v, read as an l-bit string, is the code of some symbol. */
  predicate IsCode(t: JHuffTbl, l: nat, v: int) {
    1 <= l <= 16 && FirstCode(t, l) <= v < FirstCode(t, l) + t.bits[l]
  }

  /** The j-th code word of length l. */
  function Word(t: JHuffTbl, l: nat, j: nat): (w: seq<bool>)
    requires 1 <= l <= 16
    ensures |w| == l
  {
    LowBits(FirstCode(t, l) + j, l)
  }

  /** The symbol whose code is the l-bit number v. */
  function SymbolOf(t: JHuffTbl, l: nat, v: int): Byte
    requires IsCode(t, l, v)
  {
    var i := Offset(t, l) + v - FirstCode(t, l);
    if i < 256 then t.huffval[i] else 0
  }

  datatype DerivedTblRaw = DerivedTbl(
    maxcode: seq<int>, valoffset: seq<int>, lookNbits: seq<nat>, lookSym: seq<Byte>, huffval: seq<Byte>)

  type DerivedTbl = d: DerivedTblRaw |
      && |d.maxcode| == 18 && |d.valoffset| == 17
      && |d.lookNbits| == |d.lookSym| == |d.huffval| == 256
    witness DerivedTblRaw.DerivedTbl(seq(18, _ => 0), seq(17, _ => 0), seq(256, _ => 0), seq(256, _ => 0), seq(256, _ => 0))

  /** What the three decoding tables must say about the table they derive from. */
  ghost predicate Derives(d: DerivedTbl, t: JHuffTbl) {
    && d.huffval == t.huffval && Offset(t, 17) <= 256
    && d.maxcode[17] == 0xFFFFF
    && (forall l :: 1 <= l <= 16 ==> DecodesLength(t, l, d.maxcode[l], d.valoffset[l]))
    && (forall x :: 0 <= x < 256 ==> LooksUp(t, x, d.lookNbits[x], d.lookSym[x]))
  }

  /** The largest code of length l (-1 if there is none) and the offset from code to symbol index. */
  predicate DecodesLength(t: JHuffTbl, l: nat, maxcode: int, valoffset: int)
    requires 1 <= l <= 16
  {
    if t.bits[l] == 0 then maxcode == -1
    else maxcode == FirstCode(t, l) + t.bits[l] - 1 && valoffset == Offset(t, l) - FirstCode(t, l)
  }

  /** The code of length l, if there is one, that starts the 8-bit string x. */
  predicate Starts(t: JHuffTbl, l: nat, x: nat) {
    1 <= l <= 8 && IsCode(t, l, Shr(x, 8 - l))
  }

  ghost predicate LooksUp(t: JHuffTbl, x: nat, nbits: nat, sym: nat) {
    && (nbits != 0 ==> Starts(t, nbits, x) && sym == SymbolOf(t, nbits, Shr(x, 8 - nbits)))
    && (nbits == 0 ==> forall l :: 1 <= l <= 8 ==> !Starts(t, l, x))
  }

  // ----- the canonical code -----

  lemma {:induction false} OffsetMonotone(t: JHuffTbl, l: nat, m: nat)
    requires l <= m <= 17
    ensures Offset(t, l) <= Offset(t, m)
  {
    if l < m {
      OffsetMonotone(t, l, m - 1);
    }
  }

  lemma {:induction false} KraftMonotone(t: JHuffTbl, l: nat, m: nat)
    requires l <= m <= 16
    ensures Kraft(t, l) <= Kraft(t, m)
    ensures l >= 1 && Offset(t, l + 1) == Offset(t, m + 1) ==> Kraft(t, l) == Kraft(t, m)
  {
    if l < m {
      KraftMonotone(t, l, m - 1);
      OffsetMonotone(t, l + 1, m);
      ShlMonotone(0, t.bits[m], 16 - m);
      ShlPositive(16 - m);
    }
  }

  /** The code counter, left-justified, is the Kraft sum so far. */
  lemma {:induction false} KraftIsCodeCounter(t: JHuffTbl, l: nat)
    requires 1 <= l <= 16
    ensures Shl(FirstCode(t, l) + t.bits[l], 16 - l) == Kraft(t, l)
  {
    ShlAdd(FirstCode(t, l), t.bits[l], 16 - l);
    if l > 1 {
      KraftIsCodeCounter(t, l - 1);
      ShlInside(FirstCode(t, l - 1) + t.bits[l - 1], 16 - l);
      assert 16 - (l - 1) == 16 - l + 1;
    } else {
      ShlPositive(15);
    }
  }

  /** The codes of length l fit in l bits, with the all-ones string left over. */
  predicate Fits(t: JHuffTbl, l: nat)
    requires 1 <= l <= 16
  {
    FirstCode(t, l) + t.bits[l] < Shl(1, l)
  }

  /** Codes fit exactly when the Kraft sum so far is below 1. */
  lemma KraftAtLength(t: JHuffTbl, l: nat)
    requires 1 <= l <= 16
    ensures Fits(t, l) <==> Kraft(t, l) < Shl(1, 16)
  {
    KraftIsCodeCounter(t, l);
    ShlBelow(FirstCode(t, l) + t.bits[l], l, 16 - l);
  }

  /** Every length leaves room for the codes it is given. */
  ghost predicate CodesFit(t: JHuffTbl) {
    forall l :: 1 <= l <= 16 ==> Fits(t, l)
  }

  lemma KraftMeansFit(t: JHuffTbl)
    ensures CodesFit(t) <==> Kraft(t, 16) < Shl(1, 16)
    ensures Fits(t, 16) ==> CodesFit(t)
  {
    KraftAtLength(t, 16);
    forall l | 1 <= l <= 16
      ensures Fits(t, 16) ==> Fits(t, l)
    {
      KraftMonotone(t, l, 16);
      KraftAtLength(t, l);
    }
  }

  /** A shorter code, extended, lies below every longer code. */
  lemma {:induction false} ExtensionBelow(t: JHuffTbl, l: nat, m: nat)
    requires 1 <= l < m <= 16
    ensures Shl(FirstCode(t, l) + t.bits[l], m - l) <= FirstCode(t, m)
  {
    if l + 1 < m {
      ExtensionBelow(t, l, m - 1);
    }
  }

  lemma NoCommonExtension(t: JHuffTbl, l: nat, u: nat, m: nat, v: nat)
    requires IsCode(t, l, u) && IsCode(t, m, v) && l < m
    ensures Shr(v, m - l) != u
  {
    ExtensionBelow(t, l, m);
    ShlMonotone(u, FirstCode(t, l) + t.bits[l], m - l);
    ShrMask(v, m - l);
  }

  /** An accepted table assigns distinct, prefix-free code words. */
  lemma {:induction false} CodeIsPrefixFree(t: JHuffTbl, l: nat, i: nat, m: nat, j: nat)
    requires CodesFit(t)
    requires 1 <= l <= m <= 16 && i < t.bits[l] && j < t.bits[m]
    requires (l, i) != (m, j)
    ensures !(Word(t, l, i) <= Word(t, m, j))
  {
    hide LowBits, FirstCode;
    assert Fits(t, l) && Fits(t, m);
    PrefixIsShift(FirstCode(t, l) + i, l, FirstCode(t, m) + j, m);
    if l < m {
      NoCommonExtension(t, l, FirstCode(t, l) + i, m, FirstCode(t, m) + j);
    }
  }

  /** No code word consists of ones only. */
  lemma NoWordAllOnes(t: JHuffTbl, l: nat, i: nat)
    requires CodesFit(t) && 1 <= l <= 16 && i < t.bits[l]
    ensures exists k :: 0 <= k < l && !Word(t, l, i)[k]
  {
    assert Fits(t, l);
    NotAllOnes(FirstCode(t, l) + i, l);
    assert Word(t, l, i) == LowBits(FirstCode(t, l) + i, l);
  }

  // ----- building the derived table -----

  /** The code length of the symbol with index p, searched below length m. */
  function LengthBelow(t: JHuffTbl, p: nat, m: nat): (l: nat)
    requires 1 <= m <= 17 && p < Offset(t, m)
    ensures 1 <= l < m && Offset(t, l) <= p < Offset(t, l) + t.bits[l]
  {
    if p >= Offset(t, m - 1) then m - 1 else LengthBelow(t, p, m - 1)
  }

  function LengthOf(t: JHuffTbl, p: nat): (l: nat)
    requires p < Offset(t, 17)
    ensures 1 <= l <= 16 && Offset(t, l) <= p < Offset(t, l + 1)
  {
    LengthBelow(t, p, 17)
  }

  function CodeOf(t: JHuffTbl, p: nat): nat
    requires p < Offset(t, 17)
  {
    FirstCode(t, LengthOf(t, p)) + p - Offset(t, LengthOf(t, p))
  }

  lemma LengthUnique(t: JHuffTbl, p: nat, l: nat)
    requires 1 <= l <= 16 && Offset(t, l) <= p < Offset(t, l + 1)
    ensures p < Offset(t, 17) && LengthOf(t, p) == l
  {
    OffsetMonotone(t, l + 1, 17);
    var m := LengthOf(t, p);
    if m < l {
      OffsetMonotone(t, m + 1, l);
    } else if l < m {
      OffsetMonotone(t, l + 1, m);
    }
  }

  lemma CodeAt(t: JHuffTbl, l: nat, p: nat)
    requires 1 <= l <= 16 && Offset(t, l) <= p < Offset(t, l) + t.bits[l]
    ensures p < Offset(t, 17) && CodeOf(t, p) == FirstCode(t, l) + p - Offset(t, l)
  {
    LengthUnique(t, p, l);
  }

  /** The canonical assignment (Figures C.1 and C.2): symbols in the order of the table, the first one coded by zeros, each next
      one by the successor, with zeros appended where the length grows. */
  lemma CanonicalCode(t: JHuffTbl, p: nat)
    requires p < Offset(t, 17) <= 256
    ensures p == 0 ==> CodeOf(t, p) == 0
    ensures p > 0 ==>
              && LengthOf(t, p - 1) <= LengthOf(t, p)
              && CodeOf(t, p) == Shl(CodeOf(t, p - 1) + 1, LengthOf(t, p) - LengthOf(t, p - 1))
    ensures IsCode(t, LengthOf(t, p), CodeOf(t, p)) && SymbolOf(t, LengthOf(t, p), CodeOf(t, p)) == t.huffval[p]
  {
    hide Offset, FirstCode, Shl, LengthBelow;
    var l := LengthOf(t, p);
    OffsetNext(t, l);
    if p > 0 {
      var m := LengthOf(t, p - 1);
      OffsetNext(t, m);
      if l < m {
        OffsetMonotone(t, l + 1, m);
      } else if m < l {
        OffsetMonotone(t, m + 1, l);
        NoneBetween(t, m, l);
      } else {
        ShiftNone(CodeOf(t, p));
      }
    } else {
      EmptyBelow(t, l);
    }
  }

  lemma OffsetNext(t: JHuffTbl, l: nat)
    requires 1 <= l <= 16
    ensures Offset(t, l + 1) == Offset(t, l) + t.bits[l]
  {
  }

  lemma ShiftNone(x: int)
    ensures Shl(x, 0) == x
  {
  }

  /** Lengths without codes only append zeros. */
  lemma {:induction false} NoneBetween(t: JHuffTbl, m: nat, l: nat)
    requires 1 <= m < l <= 16 && Offset(t, m + 1) == Offset(t, l)
    ensures FirstCode(t, l) == Shl(FirstCode(t, m) + t.bits[m], l - m)
    decreases l
  {
    if m + 1 < l {
      OffsetMonotone(t, m + 1, l - 1);
      NoneBetween(t, m, l - 1);
    }
  }

  ghost predicate SizesFilled(t: JHuffTbl, huffsize: seq<nat>) {
    && |huffsize| == 257 && Offset(t, 17) <= 256 && huffsize[Offset(t, 17)] == 0
    && forall p :: 0 <= p < Offset(t, 17) ==> huffsize[p] == LengthOf(t, p)
  }

  ghost predicate CodesFilled(t: JHuffTbl, huffcode: seq<nat>) {
    && |huffcode| == 257 && Offset(t, 17) <= 256
    && forall p :: 0 <= p < Offset(t, 17) ==> huffcode[p] == CodeOf(t, p)
  }

  /** Figure C.1: one code length per symbol, zero-terminated. */
  method FillHuffSize(t: JHuffTbl, huffsize: array<nat>) returns (ok: bool, p: nat)
    requires huffsize.Length == 257
    modifies huffsize
    ensures ok == (Offset(t, 17) <= 256)
    ensures ok ==> p == Offset(t, 17) && SizesFilled(t, huffsize[..])
  {
    p := 0;
    var l := 1;
    while l <= 16
      invariant 1 <= l <= 17 && p == Offset(t, l) <= 256 && p <= Offset(t, 17)
      invariant forall q :: 0 <= q < p ==> huffsize[q] == LengthOf(t, q)
    {
      var i := t.bits[l];
      OffsetMonotone(t, l + 1, 17);
      if p + i > 256 {
        return false, p;
      }
      while i > 0
        invariant 0 <= i <= t.bits[l] && p == Offset(t, l) + t.bits[l] - i
        invariant p <= Offset(t, l + 1) <= Offset(t, 17)
        invariant forall q :: 0 <= q < p ==> huffsize[q] == LengthOf(t, q)
      {
        LengthUnique(t, p, l);
        huffsize[p] := l;
        p, i := p + 1, i - 1;
      }
      l := l + 1;
    }
    huffsize[p] := 0;
    ok := true;
  }

  lemma {:induction false} EmptyBelow(t: JHuffTbl, l: nat)
    requires 1 <= l <= 17 && Offset(t, l) == 0
    ensures FirstCode(t, l) == 0 && (l > 1 ==> Fits(t, l - 1))
  {
    if l > 1 {
      EmptyBelow(t, l - 1);
    }
  }

  lemma SizeAt(t: JHuffTbl, huffsize: seq<nat>, l: nat, p: nat)
    requires SizesFilled(t, huffsize) && 1 <= l <= 17 && Offset(t, l) <= p <= Offset(t, 17)
    requires l <= 16 ==> p <= Offset(t, l + 1)
    ensures huffsize[p] == l <==> l <= 16 && p < Offset(t, l + 1)
    ensures huffsize[p] == 0 <==> p == Offset(t, 17)
  {
    if l <= 16 && p < Offset(t, l + 1) {
      LengthUnique(t, p, l);
    }
  }

  lemma FitsOnward(t: JHuffTbl, l: nat)
    requires l <= 16 && Offset(t, l + 1) == Offset(t, 17) && (l > 0 ==> Fits(t, l) || Offset(t, 17) == 0)
    ensures CodesFit(t)
  {
    KraftMeansFit(t);
    if Offset(t, 17) == 0 {
      EmptyBelow(t, 17);
    } else {
      KraftMonotone(t, l, 16);
      KraftAtLength(t, l);
    }
  }

  /** Figure C.2: consecutive codes of each length, with the overflow check per length. */
  method FillHuffCode(t: JHuffTbl, huffsize: array<nat>, huffcode: array<nat>) returns (ok: bool)
    requires huffcode.Length == 257 && huffcode != huffsize
    requires SizesFilled(t, huffsize[..])
    modifies huffcode
    ensures ok <==> CodesFit(t)
    ensures ok ==> CodesFilled(t, huffcode[..])
  {
    hide Shl, CodeOf, LengthOf;
    ghost var sizes := huffsize[..];
    var code, si, p := 0, huffsize[0], 0;
    if huffsize[0] != 0 {
      EmptyBelow(t, si);
    } else {
      EmptyBelow(t, 17);
    }
    while huffsize[p] != 0
      invariant huffsize[..] == sizes && p <= Offset(t, 17)
      invariant si == 0 ==> Offset(t, 17) == 0
      invariant si != 0 ==> 1 <= si <= 17 && p == Offset(t, si) && code == FirstCode(t, si)
      invariant si > 1 ==> Fits(t, si - 1)
      invariant forall q :: 0 <= q < p ==> huffcode[q] == CodeOf(t, q)
      decreases 17 - si
    {
      SizeAt(t, sizes, si, p);
      OffsetMonotone(t, si + 1, 17);
      while huffsize[p] == si
        invariant huffsize[..] == sizes && 1 <= si <= 16
        invariant Offset(t, si) <= p <= Offset(t, si + 1) <= Offset(t, 17)
        invariant code == FirstCode(t, si) + p - Offset(t, si)
        invariant forall q :: 0 <= q < p ==> huffcode[q] == CodeOf(t, q)
        decreases Offset(t, si + 1) - p
      {
        SizeAt(t, sizes, si, p);
        CodeAt(t, si, p);
        huffcode[p] := code;
        p, code := p + 1, code + 1;
      }
      SizeAt(t, sizes, si, p);
      assert Fits(t, si) || !CodesFit(t);
      if code >= Shl(1, si) {
        return false;
      }
      code, si := code * 2, si + 1;
    }
    ok := true;
    FitsOnward(t, if si == 0 then 16 else si - 1);
  }

  /** huffcode holds the first and the last code of length l where Figure F.15 looks for them. */
  predicate EndsFilled(t: JHuffTbl, huffcode: seq<nat>, l: nat) {
    && 1 <= l <= 16 && |huffcode| == 257
    && (t.bits[l] > 0 ==>
          && Offset(t, l) + t.bits[l] <= 256
          && huffcode[Offset(t, l)] == FirstCode(t, l)
          && huffcode[Offset(t, l) + t.bits[l] - 1] == FirstCode(t, l) + t.bits[l] - 1)
  }

  /** Figure F.15: largest code and symbol offset per length, with the sentinel at 17. */
  method FillMaxCode(t: JHuffTbl, huffcode: seq<nat>, maxcode: array<int>, valoffset: array<int>)
    requires maxcode.Length == 18 && valoffset.Length == 17 && maxcode != valoffset
    requires forall l :: 1 <= l <= 16 ==> EndsFilled(t, huffcode, l)
    modifies maxcode, valoffset
    ensures maxcode[17] == 0xFFFFF
    ensures forall l :: 1 <= l <= 16 ==> DecodesLength(t, l, maxcode[l], valoffset[l])
  {
    var p, l := 0, 1;
    while l <= 16
      invariant 1 <= l <= 17 && p == Offset(t, l)
      invariant forall m :: 1 <= m < l ==> DecodesLength(t, m, maxcode[m], valoffset[m])
    {
      assert EndsFilled(t, huffcode, l);
      if t.bits[l] > 0 {
        valoffset[l] := p - huffcode[p];
        p := p + t.bits[l];
        maxcode[l] := huffcode[p - 1];
      } else {
        maxcode[l] := -1;
      }
      l := l + 1;
    }
    maxcode[17] := 0xFFFFF;
  }

  // ----- the lookahead table -----

  /** Slot x starts with a code of length m that the fill has got to: all shorter lengths,
      the codes of length l below `code`, and `code` itself for slots below `upto`. */
  ghost predicate Reached(t: JHuffTbl, x: nat, m: nat, l: nat, code: nat, upto: nat) {
    && Starts(t, m, x)
    && (m < l || (m == l && l <= 8 && (Shr(x, 8 - l) < code || (Shr(x, 8 - l) == code && x < upto))))
  }

  ghost predicate Slot(t: JHuffTbl, x: nat, nbits: nat, sym: nat, l: nat, code: nat, upto: nat) {
    && (nbits != 0 ==> Reached(t, x, nbits, l, code, upto) && sym == SymbolOf(t, nbits, Shr(x, 8 - nbits)))
    && (nbits == 0 ==> forall m :: 1 <= m <= 8 ==> !Reached(t, x, m, l, code, upto))
  }

  /** At most one code starts a slot. */
  lemma OneCodePerSlot(t: JHuffTbl, x: nat, l: nat, m: nat)
    requires Starts(t, l, x) && Starts(t, m, x)
    ensures l == m
  {
    if l < m {
      ShrShr(x, 8 - m, m - l);
      NoCommonExtension(t, l, Shr(x, 8 - l), m, Shr(x, 8 - m));
    } else if m < l {
      ShrShr(x, 8 - l, l - m);
      NoCommonExtension(t, m, Shr(x, 8 - m), l, Shr(x, 8 - l));
    }
  }

  /** The slots that start with a code are the consecutive ones from the code, left-justified. */
  lemma SlotRange(x: nat, code: nat, k: nat)
    ensures Shr(x, k) == code <==> Shl(code, k) <= x < Shl(code, k) + Shl(1, k)
  {
    ShrMask(x, k);
    if Shl(code, k) <= x < Shl(code, k) + Shl(1, k) {
      ShrOfShl(code, x - Shl(code, k), k);
    }
  }

  lemma SlotNextCode(t: JHuffTbl, x: nat, nbits: nat, sym: nat, l: nat, code: nat)
    requires 1 <= l <= 8 && Slot(t, x, nbits, sym, l, code, Shl(code + 1, 8 - l))
    ensures Slot(t, x, nbits, sym, l, code + 1, Shl(code + 1, 8 - l))
  {
    ShlAdd(code, 1, 8 - l);
    SlotRange(x, code, 8 - l);
    SlotRange(x, code + 1, 8 - l);
    var next, upto := code + 1, Shl(code + 1, 8 - l);
    assert forall m: nat :: Reached(t, x, m, l, code, upto) <==> Reached(t, x, m, l, next, upto);
  }

  lemma SlotNextLength(t: JHuffTbl, x: nat, nbits: nat, sym: nat, l: nat, upto: nat, next: nat)
    requires 1 <= l <= 8 && Slot(t, x, nbits, sym, l, FirstCode(t, l) + t.bits[l], upto)
    requires next == Shl(FirstCode(t, l + 1), if l == 8 then 0 else 7 - l)
    ensures Slot(t, x, nbits, sym, l + 1, FirstCode(t, l + 1), next)
  {
    var c, last, l' := FirstCode(t, l + 1), FirstCode(t, l) + t.bits[l], l + 1;
    if l < 8 {
      SlotRange(x, c, 7 - l);
    }
    forall m: nat
      ensures Reached(t, x, m, l, last, upto) <==> Reached(t, x, m, l', c, next)
    {
      if m == l + 1 && Starts(t, m, x) {
        assert Shr(x, 8 - m) >= c;
      }
    }
  }

  /** All slots are in this state of the fill. */
  ghost predicate AllSlots(t: JHuffTbl, nbits: seq<nat>, syms: seq<Byte>, l: nat, code: nat, upto: nat) {
    |nbits| == |syms| == 256 && forall x :: 0 <= x < 256 ==> Slot(t, x, nbits[x], syms[x], l, code, upto)
  }

  /** The left-justified code at which the codes of length l begin. */
  function Justified(code: nat, l: nat): nat {
    Shl(code, if l >= 8 then 0 else 8 - l)
  }

  lemma SlotsStart(t: JHuffTbl, nbits: seq<nat>, syms: seq<Byte>)
    requires |nbits| == |syms| == 256 && forall x :: 0 <= x < 256 ==> nbits[x] == 0
    ensures AllSlots(t, nbits, syms, 1, FirstCode(t, 1), Justified(FirstCode(t, 1), 1))
  {
    ShlPositive(7);
    assert forall x :: 0 <= x < 256 ==> Slot(t, x, nbits[x], syms[x], 1, 0, 0);
  }

  lemma SlotsNextLength(t: JHuffTbl, nbits: seq<nat>, syms: seq<Byte>, l: nat)
    requires 1 <= l <= 8 && AllSlots(t, nbits, syms, l, FirstCode(t, l) + t.bits[l], Justified(FirstCode(t, l) + t.bits[l], l))
    ensures AllSlots(t, nbits, syms, l + 1, FirstCode(t, l + 1), Justified(FirstCode(t, l + 1), l + 1))
  {
    hide Slot, Shl, FirstCode;
    forall x | 0 <= x < 256
      ensures Slot(t, x, nbits[x], syms[x], l + 1, FirstCode(t, l + 1), Justified(FirstCode(t, l + 1), l + 1))
    {
      SlotNextLength(t, x, nbits[x], syms[x], l, Justified(FirstCode(t, l) + t.bits[l], l), Justified(FirstCode(t, l + 1), l + 1));
    }
  }

  lemma SlotsDone(t: JHuffTbl, nbits: seq<nat>, syms: seq<Byte>)
    requires AllSlots(t, nbits, syms, 9, FirstCode(t, 9), Justified(FirstCode(t, 9), 9))
    ensures forall x :: 0 <= x < 256 ==> LooksUp(t, x, nbits[x], syms[x])
  {
    hide Shl, FirstCode;
    forall x | 0 <= x < 256
      ensures LooksUp(t, x, nbits[x], syms[x])
    {
      assert forall m: nat :: Starts(t, m, x) ==> Reached(t, x, m, 9, FirstCode(t, 9), Justified(FirstCode(t, 9), 9));
    }
  }

  /** The lookahead tables: each short code fills all the slots that start with it. */
  method FillLookahead(t: JHuffTbl, huffcode: seq<nat>, lookNbits: array<nat>, lookSym: array<Byte>)
    requires CodesFilled(t, huffcode) && CodesFit(t)
    requires lookNbits.Length == lookSym.Length == 256 && lookNbits as object != lookSym as object
    modifies lookNbits, lookSym
    ensures forall x :: 0 <= x < 256 ==> LooksUp(t, x, lookNbits[x], lookSym[x])
  {
    hide AllSlots, Justified, FirstCode, LooksUp, CodesFilled, CodesFit;
    var z := 0;
    while z < 256
      invariant 0 <= z <= 256
      invariant forall x :: 0 <= x < z ==> lookNbits[x] == 0
    {
      lookNbits[z] := 0;
      z := z + 1;
    }
    SlotsStart(t, lookNbits[..], lookSym[..]);
    var p, l := 0, 1;
    while l <= 8
      invariant 1 <= l <= 9 && p == Offset(t, l)
      invariant AllSlots(t, lookNbits[..], lookSym[..], l, FirstCode(t, l), Justified(FirstCode(t, l), l))
    {
      p := FillLength(t, huffcode, l, p, lookNbits, lookSym);
      SlotsNextLength(t, lookNbits[..], lookSym[..], l);
      l := l + 1;
    }
    SlotsDone(t, lookNbits[..], lookSym[..]);
  }

  /** The codes of one length, from the p-th symbol on. */
  method FillLength(t: JHuffTbl, huffcode: seq<nat>, l: nat, p0: nat, lookNbits: array<nat>, lookSym: array<Byte>) returns (p: nat)
    requires CodesFilled(t, huffcode) && CodesFit(t) && 1 <= l <= 8 && p0 == Offset(t, l)
    requires lookNbits.Length == lookSym.Length == 256 && lookNbits as object != lookSym as object
    requires AllSlots(t, lookNbits[..], lookSym[..], l, FirstCode(t, l), Justified(FirstCode(t, l), l))
    modifies lookNbits, lookSym
    ensures p == Offset(t, l + 1)
    ensures AllSlots(t, lookNbits[..], lookSym[..], l, FirstCode(t, l) + t.bits[l], Justified(FirstCode(t, l) + t.bits[l], l))
  {
    hide AllSlots, Justified, FirstCode, CodesFilled, CodesFit;
    p := p0;
    var i := 1;
    while i <= t.bits[l]
      invariant 1 <= i <= t.bits[l] + 1 && p == p0 + i - 1
      invariant AllSlots(t, lookNbits[..], lookSym[..], l, FirstCode(t, l) + i - 1, Justified(FirstCode(t, l) + i - 1, l))
    {
      CodeFilledAt(t, huffcode, l, p);
      FillSlots(t, l, p, huffcode[p], lookNbits, lookSym);
      i, p := i + 1, p + 1;
    }
  }

  /** One code's share of the fill; no slot is written twice. */
  method FillSlots(t: JHuffTbl, l: nat, p: nat, code: nat, lookNbits: array<nat>, lookSym: array<Byte>)
    requires 1 <= l <= 8 && IsCode(t, l, code) && p == Offset(t, l) + code - FirstCode(t, l) < 256 && CodesFit(t)
    requires lookNbits.Length == lookSym.Length == 256 && lookNbits as object != lookSym as object
    requires AllSlots(t, lookNbits[..], lookSym[..], l, code, Justified(code, l))
    modifies lookNbits, lookSym
    ensures AllSlots(t, lookNbits[..], lookSym[..], l, code + 1, Justified(code + 1, l))
  {
    hide Slot, Shr, FirstCode, Offset;
    SlotsInTable(t, l, code);
    var lookbits, ctr := Shl(code, 8 - l), Shl(1, 8 - l);
    while ctr > 0
      invariant 0 <= ctr <= Shl(1, 8 - l)
      invariant lookbits == Shl(code, 8 - l) + Shl(1, 8 - l) - ctr
      invariant forall x :: 0 <= x < 256 ==> Slot(t, x, lookNbits[x], lookSym[x], l, code, lookbits)
    {
      SlotRange(lookbits, code, 8 - l);
      SlotFresh(t, lookbits, lookNbits[lookbits], lookSym[lookbits], l, code);
      assert lookNbits[lookbits] == 0;
      lookNbits[lookbits] := l;
      lookSym[lookbits] := t.huffval[p];
      forall x | 0 <= x < 256 && x != lookbits
        ensures Slot(t, x, lookNbits[x], lookSym[x], l, code, lookbits + 1)
      {
        SlotAdvance(t, x, lookNbits[x], lookSym[x], l, code, lookbits);
      }
      SlotWritten(t, lookbits, l, code, p);
      lookbits, ctr := lookbits + 1, ctr - 1;
    }
    ShlAdd(code, 1, 8 - l);
    forall x | 0 <= x < 256
      ensures Slot(t, x, lookNbits[x], lookSym[x], l, code + 1, Shl(code + 1, 8 - l))
    {
      SlotNextCode(t, x, lookNbits[x], lookSym[x], l, code);
    }
  }

  lemma SlotsInTable(t: JHuffTbl, l: nat, code: nat)
    requires 1 <= l <= 8 && IsCode(t, l, code) && CodesFit(t)
    ensures Shl(code, 8 - l) + Shl(1, 8 - l) <= 256
  {
    assert Fits(t, l);
    ShlMonotone(code, Shl(1, l), 8 - l);
    ShlShl(1, l, 8 - l);
    PowersOfTwo();
  }

  lemma SlotFresh(t: JHuffTbl, x: nat, nbits: nat, sym: nat, l: nat, code: nat)
    requires 1 <= l <= 8 && Shr(x, 8 - l) == code && IsCode(t, l, code)
    requires Slot(t, x, nbits, sym, l, code, x)
    ensures nbits == 0
  {
    if nbits != 0 {
      OneCodePerSlot(t, x, nbits, l);
    }
  }

  lemma SlotWritten(t: JHuffTbl, x: nat, l: nat, code: nat, p: nat)
    requires 1 <= l <= 8 && Shr(x, 8 - l) == code && IsCode(t, l, code)
    requires p == Offset(t, l) + code - FirstCode(t, l) < 256
    ensures Slot(t, x, l, t.huffval[p], l, code, x + 1)
  {
  }

  lemma SlotAdvance(t: JHuffTbl, x: nat, nbits: nat, sym: nat, l: nat, code: nat, upto: nat)
    requires x != upto && Slot(t, x, nbits, sym, l, code, upto)
    ensures Slot(t, x, nbits, sym, l, code, upto + 1)
  {
    var next := upto + 1;
    assert forall m: nat :: Reached(t, x, m, l, code, upto) <==> Reached(t, x, m, l, code, next);
  }

  /** The DC symbol check. */
  method CheckSymbols(huffval: seq<Byte>, numsymbols: nat) returns (ok: bool)
    requires numsymbols <= |huffval|
    ensures ok <==> forall i :: 0 <= i < numsymbols ==> huffval[i] <= 15
  {
    var i := 0;
    while i < numsymbols
      invariant 0 <= i <= numsymbols
      invariant forall k :: 0 <= k < i ==> huffval[k] <= 15
    {
      if huffval[i] > 15 {
        return false;
      }
      i := i + 1;
    }
    return true;
  }

  /** jm_jpeg_make_d_derived_tbl: accepts exactly the acceptable tables, and derives from
      an accepted one the tables that decode its canonical code. */
  method MakeDerivedTbl(t: JHuffTbl, isDC: bool) returns (ok: bool, d: DerivedTbl)
    ensures ok <==> Acceptable(t, isDC)
    ensures ok ==> Derives(d, t)
  {
    d := DerivedTblRaw.DerivedTbl(seq(18, _ => 0), seq(17, _ => 0), seq(256, _ => 0), seq(256, _ => 0), t.huffval);
    var huffsize, huffcode := new nat[257], new nat[257];
    var numsymbols: nat;
    ok, numsymbols := FillHuffSize(t, huffsize);
    if !ok {
      return;
    }
    ok := FillHuffCode(t, huffsize, huffcode);
    KraftMeansFit(t);
    if !ok {
      return;
    }
    var maxcode, valoffset := new int[18], new int[17];
    forall l | 1 <= l <= 16
      ensures EndsFilled(t, huffcode[..], l)
    {
      EndsAreFilled(t, huffcode[..], l);
    }
    FillMaxCode(t, huffcode[..], maxcode, valoffset);
    var lookNbits, lookSym := new nat[256], new Byte[256];
    FillLookahead(t, huffcode[..], lookNbits, lookSym);
    if isDC {
      ok := CheckSymbols(t.huffval, numsymbols);
      if !ok {
        return;
      }
    }
    d := DerivedTblRaw.DerivedTbl(maxcode[..], valoffset[..], lookNbits[..], lookSym[..], t.huffval);
  }

  lemma CodeFilledAt(t: JHuffTbl, huffcode: seq<nat>, l: nat, p: nat)
    requires CodesFilled(t, huffcode)
    requires 1 <= l <= 16 && Offset(t, l) <= p < Offset(t, l) + t.bits[l]
    ensures p < 256 && p < |huffcode| && huffcode[p] == FirstCode(t, l) + p - Offset(t, l)
  {
    CodeAt(t, l, p);
  }

  lemma EndsAreFilled(t: JHuffTbl, huffcode: seq<nat>, l: nat)
    requires CodesFilled(t, huffcode) && 1 <= l <= 16
    ensures EndsFilled(t, huffcode, l)
  {
    if t.bits[l] > 0 {
      CodeFilledAt(t, huffcode, l, Offset(t, l));
      CodeFilledAt(t, huffcode, l, Offset(t, l) + t.bits[l] - 1);
    }
  }

  // ----- decoding one symbol -----

  /** Length of the code at position p of s, 17 if none of at most 16 bits is there. */
  function CodeLength(t: JHuffTbl, s: seq<bool>, p: nat, l: nat): (r: nat)
    requires 1 <= l <= 17
    ensures l <= r <= 17
    ensures r <= 16 ==> IsCode(t, r, Peek(s, p, r))
    ensures forall m :: l <= m < r ==> !IsCode(t, m, Peek(s, p, m))
    decreases 17 - l
  {
    if l == 17 || IsCode(t, l, Peek(s, p, l)) then l else CodeLength(t, s, p, l + 1)
  }

  function SymbolLength(t: JHuffTbl, s: seq<bool>, p: nat): nat {
    CodeLength(t, s, p, 1)
  }

  /** The symbol coded at position p of s; 0 stands in for a bit pattern that is no code. */
  function NextSymbol(t: JHuffTbl, s: seq<bool>, p: nat): Byte {
    var l := SymbolLength(t, s, p);
    if l == 17 then 0 else SymbolOf(t, l, Peek(s, p, l))
  }

  lemma WordIsCode(t: JHuffTbl, l: nat, j: nat, w: seq<bool>)
    requires CodesFit(t) && 1 <= l <= 16 && |w| == l
    ensures j < t.bits[l] && Word(t, l, j) == w <==> IsCode(t, l, Value(w)) && Value(w) == FirstCode(t, l) + j
  {
    hide Shl, LowBits, Value, FirstCode;
    assert Fits(t, l);
    if j < t.bits[l] {
      SpellingOf(FirstCode(t, l) + j, l, w);
    }
  }

  /** Decoding finds the one code word that starts the stream, wherever it is cut off. */
  lemma DecodesUniquePrefix(t: JHuffTbl, s: seq<bool>, p: nat, l: nat, j: nat)
    requires CodesFit(t) && 1 <= l <= 16 && j < t.bits[l] && Word(t, l, j) == Window(s, p, l)
    ensures SymbolLength(t, s, p) == l
    ensures Offset(t, l) + j < Offset(t, 17)
    ensures Offset(t, 17) <= 256 ==> NextSymbol(t, s, p) == t.huffval[Offset(t, l) + j]
  {
    hide Word, Window, FirstCode, Value, CodeLength;
    WordIsCode(t, l, j, Window(s, p, l));
    OneCodePerStream(t, s, p, l);
    OffsetMonotone(t, l + 1, 17);
  }

  lemma OneCodePerStream(t: JHuffTbl, s: seq<bool>, p: nat, l: nat)
    requires 1 <= l <= 16 && IsCode(t, l, Peek(s, p, l))
    ensures SymbolLength(t, s, p) == l
  {
    var r := SymbolLength(t, s, p);
    if r < l {
      PeekSplit(s, p, l, r);
      NoCommonExtension(t, r, Peek(s, p, r), l, Peek(s, p, l));
    }
  }

  /** Seventeen bits are consumed exactly when no code word starts the stream. */
  lemma NoCodeMeansNoWord(t: JHuffTbl, s: seq<bool>, p: nat)
    requires CodesFit(t)
    ensures SymbolLength(t, s, p) == 17 <==>
              forall l, j :: 1 <= l <= 16 && 0 <= j < t.bits[l] ==> Word(t, l, j) != Window(s, p, l)
  {
    forall l, j | 1 <= l <= 16 && 0 <= j < t.bits[l] && Word(t, l, j) == Window(s, p, l)
      ensures SymbolLength(t, s, p) != 17
    {
      DecodesUniquePrefix(t, s, p, l, j);
    }
    var r := SymbolLength(t, s, p);
    if r <= 16 {
      WordIsCode(t, r, Peek(s, p, r) - FirstCode(t, r), Window(s, p, r));
    }
  }

  // ----- Figure F.16: comparing with the largest code of each length -----

  /** Once no shorter code matched, the bits read so far are not below the smallest code. */
  lemma {:induction false} AboveFirstCode(t: JHuffTbl, s: seq<bool>, p: nat, l: nat)
    requires 1 <= l <= 16 && forall m :: 1 <= m < l ==> !IsCode(t, m, Peek(s, p, m))
    ensures FirstCode(t, l) <= Peek(s, p, l)
    ensures l > 1 ==> t.bits[l - 1] + FirstCode(t, l - 1) <= Peek(s, p, l - 1)
  {
    if l > 1 {
      AboveFirstCode(t, s, p, l - 1);
      PeekSplit(s, p, l, l - 1);
      assert Shl(Peek(s, p, l - 1), 1) == 2 * Shl(Peek(s, p, l - 1), 0);
    }
  }

  /** Figure F.16: the symbol is found at the code plus the offset of its length. */
  lemma SymbolAtOffset(t: JHuffTbl, d: DerivedTbl, s: seq<bool>, p: nat, l: nat)
    requires Derives(d, t) && l == SymbolLength(t, s, p) <= 16
    ensures 0 <= Peek(s, p, l) + d.valoffset[l] < 256
    ensures d.huffval[Peek(s, p, l) + d.valoffset[l]] == NextSymbol(t, s, p)
  {
    assert DecodesLength(t, l, d.maxcode[l], d.valoffset[l]);
    OffsetMonotone(t, l + 1, 17);
  }

  lemma MaxCodeTest(t: JHuffTbl, d: DerivedTbl, s: seq<bool>, p: nat, l: nat)
    requires Derives(d, t) && 1 <= l <= 17 && l <= SymbolLength(t, s, p)
    ensures Peek(s, p, l) > d.maxcode[l] <==> l != SymbolLength(t, s, p)
  {
    if l <= 16 {
      AboveFirstCode(t, s, p, l);
      assert DecodesLength(t, l, d.maxcode[l], d.valoffset[l]);
      assert l == SymbolLength(t, s, p) <==> IsCode(t, l, Peek(s, p, l));
    } else {
      PeekSplit(s, p, 17, 17);
      PowersOfTwo();
    }
  }

  /** What the lookahead entry for the next 8 bits says about the next symbol. */
  lemma LookaheadTest(t: JHuffTbl, d: DerivedTbl, s: seq<bool>, p: nat)
    requires Derives(d, t)
    ensures Peek(s, p, 8) < 256
    ensures var nb := d.lookNbits[Peek(s, p, 8)];
            if nb != 0 then nb == SymbolLength(t, s, p) <= 8 && d.lookSym[Peek(s, p, 8)] == NextSymbol(t, s, p)
            else SymbolLength(t, s, p) >= 9
  {
    PeekSplit(s, p, 8, 8);
    PowersOfTwo();
    var x := Peek(s, p, 8);
    assert LooksUp(t, x, d.lookNbits[x], d.lookSym[x]);
    var r := SymbolLength(t, s, p);
    if d.lookNbits[x] != 0 {
      PeekSplit(s, p, 8, d.lookNbits[x]);
      OneCodePerStream(t, s, p, d.lookNbits[x]);
    } else if r <= 8 {
      PeekSplit(s, p, 8, r);
      assert Starts(t, r, x);
    }
  }
}
