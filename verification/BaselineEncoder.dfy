/** The sequential encoding of section F.1.2 of ITU-T T.81, as the inverse the decoder has to undo:
    DC differences, run/size codes, ZRL and EOB, one-padded bytes, stuffing and restart markers. */
module BaselineEncoder {
  import opened Bits
  import opened HuffmanTable
  import opened ByteStream
  import opened Coefficients
  import opened EntropySpec

  // ----- symbols and appended bits -----

  /** The first table entry from index p on that holds symbol sym. */
  function FindSymbol(t: JHuffTbl, sym: nat, p: nat): (i: nat)
    requires p <= Offset(t, 17) <= 256
    ensures p <= i <= Offset(t, 17) && (i < Offset(t, 17) ==> t.huffval[i] == sym)
    decreases Offset(t, 17) - p
  {
    if p == Offset(t, 17) || t.huffval[p] == sym then p else FindSymbol(t, sym, p + 1)
  }

  predicate Codes(t: JHuffTbl, sym: nat) {
    Offset(t, 17) <= 256 && FindSymbol(t, sym, 0) < Offset(t, 17)
  }

  /** The code word of a symbol. */
  function Code(t: JHuffTbl, sym: nat): seq<bool>
    requires Codes(t, sym)
  {
    var i := FindSymbol(t, sym, 0);
    LowBits(CodeOf(t, i), LengthOf(t, i))
  }

  /** The number of bits of a magnitude (the category of Tables F.1 and F.2). */
  function Category(a: nat): nat {
    if a == 0 then 0 else 1 + Category(a / 2)
  }

  function Magnitude(v: int): nat {
    if v < 0 then -v else v
  }

  /** The n bits appended to a code for a value of category n: negative values less one. */
  function Appended(v: int, n: nat): (w: seq<bool>)
    ensures |w| == n
  {
    LowBits(if v < 0 then v + Shl(1, n) - 1 else v, n)
  }

  lemma {:induction false} CategoryBounds(a: nat)
    ensures a < Shl(1, Category(a))
    ensures a == 0 ==> Category(a) == 0
    ensures a > 0 ==> Category(a) > 0 && Shl(1, Category(a) - 1) <= a
  {
    if a > 0 {
      CategoryBounds(a / 2);
    }
  }

  /** Bit string w stands at position p of s. */
  ghost predicate HasAt(s: seq<bool>, p: nat, w: seq<bool>) {
    p + |w| <= |s| && s[p..p + |w|] == w
  }

  lemma HasParts(s: seq<bool>, p: nat, a: seq<bool>, b: seq<bool>)
    requires HasAt(s, p, a + b)
    ensures HasAt(s, p, a) && HasAt(s, p + |a|, b)
  {
    assert (a + b)[..|a|] == a && (a + b)[|a|..] == b;
    assert s[p..p + |a|] == s[p..p + |a + b|][..|a|];
    assert s[p + |a|..p + |a| + |b|] == s[p..p + |a + b|][|a|..];
  }

  lemma WindowAt(s: seq<bool>, p: nat, w: seq<bool>)
    requires HasAt(s, p, w)
    ensures Window(s, p, |w|) == w
  {
    WindowOfPrefix(s, p, w);
  }

  /** Decoding a code word gives its symbol back. */
  lemma SymbolComesBack(t: JHuffTbl, s: seq<bool>, p: nat, sym: nat)
    requires CodesFit(t) && Codes(t, sym) && HasAt(s, p, Code(t, sym))
    ensures SymbolLength(t, s, p) == |Code(t, sym)| && NextSymbol(t, s, p) == sym
  {
    hide SymbolLength, NextSymbol, LowBits, HasAt, FirstCode;
    var i := FindSymbol(t, sym, 0);
    var l := LengthOf(t, i);
    WindowAt(s, p, Code(t, sym));
    assert CodeOf(t, i) == FirstCode(t, l) + (i - Offset(t, l));
    DecodesUniquePrefix(t, s, p, l, i - Offset(t, l));
  }

  /** Extending the appended bits gives the value back. */
  lemma ValueComesBack(s: seq<bool>, p: nat, v: int)
    requires HasAt(s, p, Appended(v, Category(Magnitude(v))))
    ensures Receive(s, p, Category(Magnitude(v))) == v
  {
    hide LowBits, HasAt, Value, Window, Category;
    var n := Category(Magnitude(v));
    CategoryBounds(Magnitude(v));
    WindowAt(s, p, Appended(v, n));
    ValueOfSmall(if v < 0 then v + Shl(1, n) - 1 else v, n);
  }

  function Flipped(w: seq<bool>): (r: seq<bool>)
    ensures |r| == |w|
  {
    seq(|w|, i requires 0 <= i < |w| => !w[i])
  }

  lemma {:induction false} ValueOfFlipped(w: seq<bool>)
    ensures Value(Flipped(w)) == Shl(1, |w|) - 1 - Value(w)
  {
    if w != [] {
      var init := w[..|w| - 1];
      ValueOfFlipped(init);
      assert Flipped(w)[..|w| - 1] == Flipped(init);
    }
  }

  /** Received bits that begin with a 1 are a positive number, others the negative of the number spelled by the opposite bits. */
  lemma ReceivedSigned(s: seq<bool>, p: nat, n: nat)
    requires n >= 1
    ensures var w := Window(s, p, n); Receive(s, p, n) == if w[0] then Value(w) else -(Value(Flipped(w)) as int)
  {
    hide Shl, Value, Window;
    var w := Window(s, p, n);
    assert [w[0]] + w[1..] == w;
    ValueAppend([w[0]], w[1..]);
    ValueBound(w[1..]);
    OneBitValue(w[0], n - 1);
    ValueOfFlipped(w);
  }

  lemma OneBitValue(b: bool, n: nat)
    ensures Shl(Value([b]), n) == (if b then Shl(1, n) else 0) && Shl(1, n + 1) == 2 * Shl(1, n)
  {
    assert Value([b]) == 2 * Value([b][..0]) + if b then 1 else 0;
    ShlPositive(n);
  }

  // ----- AC coefficients -----

  /** A run of zeros and the value that ends it have a code. */
  predicate ValueCoded(t: JHuffTbl, v: int, run: nat) {
    Category(Magnitude(v)) <= 15 && Codes(t, 16 * run + Category(Magnitude(v)))
  }

  function ValueBits(t: JHuffTbl, v: int, run: nat): seq<bool>
    requires ValueCoded(t, v, run)
  {
    Code(t, 16 * run + Category(Magnitude(v))) + Appended(v, Category(Magnitude(v)))
  }

  /** Every symbol the AC encoding needs is coded, from zigzag index k on after `run` zeros. */
  predicate AcCoded(t: JHuffTbl, b: Block, k: nat, run: nat)
    decreases 64 - k, run
  {
    if k >= 64 then run > 0 ==> Codes(t, 0)
    else if b[NaturalOrder(k)] == 0 then AcCoded(t, b, k + 1, run + 1)
    else if run > 15 then Codes(t, 0xF0) && AcCoded(t, b, k, run - 16)
    else ValueCoded(t, b[NaturalOrder(k)], run) && AcCoded(t, b, k + 1, 0)
  }

  /** Figure F.2: run/size codes, ZRL for runs of 16 zeros, EOB for the last zeros. */
  function AcBits(t: JHuffTbl, b: Block, k: nat, run: nat): seq<bool>
    requires AcCoded(t, b, k, run)
    decreases 64 - k, run
  {
    if k >= 64 then if run > 0 then Code(t, 0) else []
    else if b[NaturalOrder(k)] == 0 then AcBits(t, b, k + 1, run + 1)
    else if run > 15 then Code(t, 0xF0) + AcBits(t, b, k, run - 16)
    else ValueBits(t, b[NaturalOrder(k)], run) + AcBits(t, b, k + 1, 0)
  }

  /** The assignments that make the nonzero coefficients from zigzag index k on. */
  function Puts(b: Block, k: nat, at: nat): seq<Edit>
    decreases 64 - k
  {
    if k >= 64 then []
    else (if b[NaturalOrder(k)] == 0 then [] else [Put(at, NaturalOrder(k), b[NaturalOrder(k)])]) + Puts(b, k + 1, at)
  }

  lemma WrapOfCoef(v: Coef)
    ensures Wrap16(v) == v
  {
  }

  lemma ValueCodeComesBack(t: JHuffTbl, s: seq<bool>, p: nat, v: int, run: nat)
    requires CodesFit(t) && ValueCoded(t, v, run) && HasAt(s, p, ValueBits(t, v, run))
    ensures var n := Category(Magnitude(v));
            && p + SymbolLength(t, s, p) + n == p + |ValueBits(t, v, run)|
            && NextSymbol(t, s, p) == 16 * run + n && n <= 15 && (v != 0 ==> n > 0)
            && Receive(s, p + SymbolLength(t, s, p), n) == v
  {
    hide CodesFit, HasAt, Wrap16, Receive, Codes, Code, NextSymbol, SymbolLength, Category, Appended;
    var n := Category(Magnitude(v));
    CategoryBounds(Magnitude(v));
    HasParts(s, p, Code(t, 16 * run + n), Appended(v, n));
    SymbolComesBack(t, s, p, 16 * run + n);
    ValueComesBack(s, p + |Code(t, 16 * run + n)|, v);
  }

  /** One step of decoding AC coefficients. */
  lemma AcUnfold(t: JHuffTbl, s: seq<bool>, p: nat, k: nat, at: nat)
    ensures k >= 64 ==> AcEdits(t, s, p, k, at) == ([], p)
    ensures k < 64 ==>
              var p1, run, size := p + SymbolLength(t, s, p), NextSymbol(t, s, p) / 16, NextSymbol(t, s, p) % 16;
              var now := AcEdits(t, s, p, k, at);
              if size != 0 then
                var rest := AcEdits(t, s, p1 + size, k + run + 1, at);
                now == ([Put(at, NaturalOrder(k + run), Wrap16(Receive(s, p1, size)))] + rest.0, rest.1)
              else if run == 15 then now == AcEdits(t, s, p1, k + 16, at)
              else now == ([], p1)
  {
    hide SymbolLength, NextSymbol, NaturalOrder, Receive, Wrap16;
  }

  /** One step of encoding them, and of assigning them. */
  lemma AcCases(t: JHuffTbl, b: Block, k: nat, run: nat, at: nat)
    requires AcCoded(t, b, k, run)
    ensures k >= 64 ==> Puts(b, k, at) == [] && if run > 0 then Codes(t, 0) && AcBits(t, b, k, run) == Code(t, 0) else AcBits(t, b, k, run) == []
    ensures k < 64 ==>
              var v := b[NaturalOrder(k)];
              if v == 0 then
                && AcCoded(t, b, k + 1, run + 1) && AcBits(t, b, k, run) == AcBits(t, b, k + 1, run + 1)
                && Puts(b, k, at) == Puts(b, k + 1, at)
              else if run > 15 then
                Codes(t, 0xF0) && AcCoded(t, b, k, run - 16) && AcBits(t, b, k, run) == Code(t, 0xF0) + AcBits(t, b, k, run - 16)
              else
                && ValueCoded(t, v, run) && AcCoded(t, b, k + 1, 0)
                && AcBits(t, b, k, run) == ValueBits(t, v, run) + AcBits(t, b, k + 1, 0)
                && Puts(b, k, at) == [Put(at, NaturalOrder(k), v)] + Puts(b, k + 1, at)
  {
    hide NaturalOrder, Codes, Code, ValueCoded, ValueBits;
    if k < 64 && b[NaturalOrder(k)] == 0 {
      assert [] + Puts(b, k + 1, at) == Puts(b, k + 1, at);
    }
  }

  /** Decoding the AC encoding assigns exactly the nonzero coefficients. */
  lemma {:induction false} AcComesBack(t: JHuffTbl, s: seq<bool>, p: nat, b: Block, k: nat, run: nat, at: nat)
    requires CodesFit(t) && AcCoded(t, b, k, run) && HasAt(s, p, AcBits(t, b, k, run)) && run < k <= 64
    ensures AcEdits(t, s, p, k - run, at) == (Puts(b, k, at), p + |AcBits(t, b, k, run)|)
    decreases 64 - k, run
  {
    hide CodesFit, HasAt, NaturalOrder, Wrap16, Receive, Codes, Code, NextSymbol, SymbolLength, ValueCoded, ValueBits, Category;
    hide AcEdits, AcBits, AcCoded, Puts;
    AcUnfold(t, s, p, k - run, at);
    AcCases(t, b, k, run, at);
    if k >= 64 {
      if run > 0 {
        SymbolComesBack(t, s, p, 0);
      }
    } else if b[NaturalOrder(k)] == 0 {
      AcComesBack(t, s, p, b, k + 1, run + 1, at);
    } else if run > 15 {
      HasParts(s, p, Code(t, 0xF0), AcBits(t, b, k, run - 16));
      SymbolComesBack(t, s, p, 0xF0);
      AcComesBack(t, s, p + |Code(t, 0xF0)|, b, k, run - 16, at);
    } else {
      var v := b[NaturalOrder(k)];
      HasParts(s, p, ValueBits(t, v, run), AcBits(t, b, k + 1, 0));
      ValueCodeComesBack(t, s, p, v, run);
      WrapOfCoef(v);
      AcComesBack(t, s, p + |ValueBits(t, v, run)|, b, k + 1, 0, at);
    }
  }

  // ----- blocks and MCUs -----

  predicate BlockCoded(c: Scan, i: nat, b: Block, pred: int)
    requires i < |c.membership|
  {
    ValueCoded(c.dcTbl[i], b[0] - pred, 0) && AcCoded(c.acTbl[i], b, 1, 0)
  }

  /** DC difference, then the AC coefficients. */
  function BlockBits(c: Scan, i: nat, b: Block, pred: int): seq<bool>
    requires i < |c.membership| && BlockCoded(c, i, b, pred)
  {
    ValueBits(c.dcTbl[i], b[0] - pred, 0) + AcBits(c.acTbl[i], b, 1, 0)
  }

  function BlockPuts(b: Block, at: nat): seq<Edit> {
    [Put(at, 0, b[0])] + Puts(b, 1, at)
  }

  /** A sequential scan whose coefficients are all wanted, with accepted tables. */
  ghost predicate Sequential(c: Scan) {
    && c.mode.Baseline?
    && forall i :: 0 <= i < |c.membership| ==>
         c.dcNeeded[i] && c.acNeeded[i] && CodesFit(c.dcTbl[i]) && CodesFit(c.acTbl[i])
  }

  lemma BlockComesBack(c: Scan, mcu: seq<nat>, s: seq<bool>, p: nat, dc: Predictions, i: nat, b: Block)
    requires Sequential(c) && i < |mcu| == |c.membership|
    requires BlockCoded(c, i, b, dc[c.membership[i]]) && HasAt(s, p, BlockBits(c, i, b, dc[c.membership[i]]))
    ensures BlockEdits(c, mcu, s, p, dc, i)
         == Outcome(BlockPuts(b, mcu[i]), p + |BlockBits(c, i, b, dc[c.membership[i]])|, 0, dc[c.membership[i] := b[0]])
  {
    hide CodesFit, HasAt, Wrap16, Receive, AcCoded, AcBits, AcEdits, ValueCoded, ValueBits, SymbolLength, NextSymbol, Category, Puts;
    var diff := b[0] - dc[c.membership[i]];
    HasParts(s, p, ValueBits(c.dcTbl[i], diff, 0), AcBits(c.acTbl[i], b, 1, 0));
    ValueCodeComesBack(c.dcTbl[i], s, p, diff, 0);
    WrapOfCoef(b[0]);
    AcComesBack(c.acTbl[i], s, p + |ValueBits(c.dcTbl[i], diff, 0)|, b, 1, 0, mcu[i]);
  }

  /** The blocks of an MCU, from the i-th on, have codes when predicted from dc. */
  ghost predicate McuCoded(c: Scan, img: seq<Block>, mcu: seq<nat>, dc: Predictions, i: nat)
    requires McuFits(c, mcu, |img|) && i <= |mcu|
    decreases |mcu| - i
  {
    if i == |mcu| then true
    else
      && BlockCoded(c, i, img[mcu[i]], dc[c.membership[i]])
      && McuCoded(c, img, mcu, dc[c.membership[i] := img[mcu[i]][0]], i + 1)
  }

  ghost function McuBits(c: Scan, img: seq<Block>, mcu: seq<nat>, dc: Predictions, i: nat): seq<bool>
    requires McuFits(c, mcu, |img|) && i <= |mcu| && McuCoded(c, img, mcu, dc, i)
    decreases |mcu| - i
  {
    if i == |mcu| then []
    else
      var b := img[mcu[i]];
      BlockBits(c, i, b, dc[c.membership[i]]) + McuBits(c, img, mcu, dc[c.membership[i] := b[0]], i + 1)
  }

  /** The predictions an MCU leaves. */
  ghost function McuDc(c: Scan, img: seq<Block>, mcu: seq<nat>, dc: Predictions, i: nat): Predictions
    requires McuFits(c, mcu, |img|) && i <= |mcu|
    decreases |mcu| - i
  {
    if i == |mcu| then dc else McuDc(c, img, mcu, dc[c.membership[i] := img[mcu[i]][0]], i + 1)
  }

  ghost function McuPuts(img: seq<Block>, mcu: seq<nat>, i: nat): seq<Edit>
    requires i <= |mcu| && forall j :: 0 <= j < |mcu| ==> mcu[j] < |img|
    decreases |mcu| - i
  {
    if i == |mcu| then [] else BlockPuts(img[mcu[i]], mcu[i]) + McuPuts(img, mcu, i + 1)
  }

  lemma {:induction false} McuComesBack(c: Scan, img: seq<Block>, mcu: seq<nat>, s: seq<bool>, p: nat, eobrun: nat, dc: Predictions, i: nat)
    requires Sequential(c) && McuFits(c, mcu, |img|) && i <= |mcu|
    requires McuCoded(c, img, mcu, dc, i) && HasAt(s, p, McuBits(c, img, mcu, dc, i))
    ensures BaselineEdits(c, mcu, s, p, eobrun, dc, i)
         == Outcome(McuPuts(img, mcu, i), p + |McuBits(c, img, mcu, dc, i)|, eobrun, McuDc(c, img, mcu, dc, i))
    decreases |mcu| - i
  {
    hide Sequential, HasAt, BlockCoded, BlockBits, BlockEdits, BlockPuts;
    if i < |mcu| {
      var b := img[mcu[i]];
      var dc' := dc[c.membership[i] := b[0]];
      var bits := BlockBits(c, i, b, dc[c.membership[i]]);
      HasParts(s, p, bits, McuBits(c, img, mcu, dc', i + 1));
      BlockComesBack(c, mcu, s, p, dc, i, b);
      McuComesBack(c, img, mcu, s, p + |bits|, eobrun, dc', i + 1);
    }
  }

  // ----- what the assignments make of the blocks -----

  /** The nonzero coefficients of b from zigzag index k on, over an older block. */
  function Overlay(b: Block, k: nat, under: Block): Block {
    seq(64, i requires 0 <= i < 64 => if ZigzagOrder(i) >= k && b[i] != 0 then b[i] else under[i])
  }

  lemma OverlayStep(b: Block, k: nat, under: Block)
    requires k < 64
    ensures Overlay(b, k, under)
         == Overlay(b, k + 1, if b[NaturalOrder(k)] == 0 then under else under[NaturalOrder(k) := b[NaturalOrder(k)]])
  {
    hide NaturalOrder, ZigzagOrder;
    ZigzagOfNatural(k);
    forall i | 0 <= i < 64
      ensures i != NaturalOrder(k) ==> ZigzagOrder(i) != k
    {
      NaturalOfZigzag(i);
    }
  }

  lemma {:induction false} PutsMake(b: Block, k: nat, at: nat, coefs: seq<Block>)
    requires at < |coefs|
    ensures AllInRange(Puts(b, k, at), |coefs|)
    ensures Apply(Puts(b, k, at), coefs) == coefs[at := Overlay(b, k, coefs[at])]
    decreases 64 - k
  {
    hide NaturalOrder, ZigzagOrder, Overlay, Apply;
    if k >= 64 {
      ApplyNothing(coefs);
      OverlayEnd(b, k, coefs[at]);
    } else if b[NaturalOrder(k)] == 0 {
      assert [] + Puts(b, k + 1, at) == Puts(b, k + 1, at);
      PutsMake(b, k + 1, at, coefs);
      OverlayStep(b, k, coefs[at]);
    } else {
      var head := [Put(at, NaturalOrder(k), b[NaturalOrder(k)])];
      ApplySingle(head[0], coefs);
      PutsMake(b, k + 1, at, Apply(head, coefs));
      ApplyAppend(head, Puts(b, k + 1, at), coefs);
      OverlayStep(b, k, coefs[at]);
    }
  }

  lemma OverlayEnd(b: Block, k: nat, under: Block)
    requires k >= 64
    ensures Overlay(b, k, under) == under
  {
    hide ZigzagOrder;
  }

  /** A coefficient not yet decoded is zero. (One decoded before may be decoded again.) */
  predicate ZeroOrSame(b: Block, under: Block) {
    forall i :: 0 <= i < 64 ==> under[i] == 0 || under[i] == b[i]
  }

  ghost predicate Blank(img: seq<Block>, coefs: seq<Block>, b: nat) {
    b < |coefs| == |img| && ZeroOrSame(img[b], coefs[b])
  }

  lemma BlockMade(img: seq<Block>, b: nat, coefs: seq<Block>)
    requires Blank(img, coefs, b)
    ensures AllInRange(BlockPuts(img[b], b), |coefs|) && Apply(BlockPuts(img[b], b), coefs) == coefs[b := img[b]]
  {
    hide Apply, Puts, Overlay;
    var x := img[b];
    var head := [Put(b, 0, x[0])];
    ApplySingle(head[0], coefs);
    PutsMake(x, 1, b, Apply(head, coefs));
    ApplyAppend(head, Puts(x, 1, b), coefs);
    FullOverlay(x, coefs[b]);
  }

  lemma FullOverlay(b: Block, under: Block)
    requires ZeroOrSame(b, under)
    ensures Overlay(b, 1, under[0 := b[0]]) == b
  {
    forall i | 0 <= i < 64
      ensures ZigzagOrder(i) == 0 ==> i == 0
    {
      NaturalOfZigzag(i);
    }
  }

  /** Blocks b of the list become those of the image. */
  ghost function Filled(img: seq<Block>, list: seq<nat>, coefs: seq<Block>): (r: seq<Block>)
    requires |coefs| == |img|
    ensures |r| == |coefs|
  {
    seq(|coefs|, b requires 0 <= b < |coefs| => if b in list then img[b] else coefs[b])
  }

  lemma {:induction false} McuMade(img: seq<Block>, mcu: seq<nat>, i: nat, coefs: seq<Block>)
    requires i <= |mcu| && |coefs| == |img| && forall j :: 0 <= j < |mcu| ==> mcu[j] < |img| && Blank(img, coefs, mcu[j])
    ensures AllInRange(McuPuts(img, mcu, i), |coefs|)
    ensures Apply(McuPuts(img, mcu, i), coefs) == Filled(img, mcu[i..], coefs)
    decreases |mcu| - i
  {
    hide Apply, BlockPuts;
    if i < |mcu| {
      var b := mcu[i];
      BlockMade(img, b, coefs);
      var next := coefs[b := img[b]];
      McuMade(img, mcu, i + 1, next);
      ApplyAppend(BlockPuts(img[b], b), McuPuts(img, mcu, i + 1), coefs);
      assert mcu[i..] == [b] + mcu[i + 1..];
    } else {
      ApplyNothing(coefs);
    }
  }

  lemma ApplySingle(e: Edit, coefs: seq<Block>)
    requires InRange(e, |coefs|)
    ensures Apply([e], coefs) == ApplyOne(e, coefs)
  {
    assert [e][..0] == [];
  }

  lemma ApplyNothing(coefs: seq<Block>)
    ensures Apply([], coefs) == coefs
  {
  }

  // ----- bytes -----

  function ByteOf(w: seq<bool>): Byte
    requires |w| == 8
  {
    ValueBound(w);
    PowersOfTwo();
    Value(w)
  }

  /** Bits to bytes, the last byte filled up with ones. */
  function Pack(bits: seq<bool>): seq<Byte> {
    if bits == [] then []
    else if |bits| < 8 then [ByteOf(bits + seq(8 - |bits|, _ => true))]
    else [ByteOf(bits[..8])] + Pack(bits[8..])
  }

  lemma {:induction false} PackKeeps(bits: seq<bool>)
    ensures bits <= BitsOfBytes(Pack(bits))
    decreases |bits|
  {
    hide LowBits, Value;
    if 0 < |bits| < 8 {
      var w := bits + seq(8 - |bits|, _ => true);
      LowBitsOfValue(w);
      assert BitsOfBytes([ByteOf(w)]) == LowBits(ByteOf(w), 8) + [];
    } else if bits != [] {
      PackKeeps(bits[8..]);
      LowBitsOfValue(bits[..8]);
      assert bits == bits[..8] + bits[8..];
    }
  }
}
