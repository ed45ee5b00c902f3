/** Encodings of the MCUs of a scan of any kind, and what decoding them makes of the blocks
    (jdhuff.c, jdphuff.c; sections F.1.2 and G.1.2 of ITU-T T.81). */
module ScanEncoder {
  import opened Bits
  import opened HuffmanTable
  import opened Coefficients
  import opened EntropySpec
  import opened BitPlanes
  import opened PointTransform
  import opened BaselineEncoder
  import opened ProgressiveEncoder

  // ----- what a scan is to make of the blocks -----

  /** The scan is about coefficient i of its blocks. */
  predicate Sends(c: Scan, i: nat) {
    match c.mode
    case Baseline => true
    case DCFirst => i == 0
    case DCRefine => i == 0
    case ACFirst => InBand(i, c.ss, c.se)
    case ACRefine => InBand(i, c.ss, c.se)
  }

  /** The value it has after the scan. */
  function Level(c: Scan, v: Coef): Coef {
    match c.mode
    case Baseline => v
    case DCFirst => DcAt(v, c.al)
    case DCRefine => DcAt(v, c.al)
    case ACFirst => AcAt(v, c.al)
    case ACRefine => AcAt(v, c.al)
  }

  /** The values it may have before: nothing yet, or what the scan before left. (A block sent twice may be decoded
      twice, except in AC refinement, where what is known already tells how to read.) */
  predicate Prior(c: Scan, v: Coef, was: Coef) {
    match c.mode
    case Baseline => was == 0 || was == v
    case DCFirst => true
    case DCRefine => was == DcAt(v, c.al + 1) || was == DcAt(v, c.al)
    case ACFirst => was == 0 || was == AcAt(v, c.al)
    case ACRefine => was == AcAt(v, c.al + 1)
  }

  function Known(c: Scan, x: Block, was: Block): Block {
    seq(64, i requires 0 <= i < 64 => if Sends(c, i) then Level(c, x[i]) else was[i])
  }

  /** The blocks of the list have been sent. */
  ghost function Sent(c: Scan, img: seq<Block>, list: seq<nat>, coefs: seq<Block>): (r: seq<Block>)
    requires |coefs| == |img|
    ensures |r| == |coefs|
  {
    seq(|coefs|, b requires 0 <= b < |coefs| => if b in list then Known(c, img[b], coefs[b]) else coefs[b])
  }

  ghost predicate Ready(c: Scan, x: Block, was: Block) {
    forall i: nat :: i < 64 && Sends(c, i) ==> Prior(c, x[i], was[i])
  }

  predicate NoRepeats(list: seq<nat>) {
    forall i, j :: 0 <= i < j < |list| ==> list[i] != list[j]
  }

  ghost predicate AllReady(c: Scan, img: seq<Block>, coefs: seq<Block>, list: seq<nat>) {
    && |coefs| == |img| && (c.mode.ACRefine? ==> NoRepeats(list))
    && forall i :: 0 <= i < |list| ==> list[i] < |img| && Ready(c, img[list[i]], coefs[list[i]])
  }

  lemma KnownIsReady(c: Scan, x: Block, was: Block)
    ensures Known(c, x, Known(c, x, was)) == Known(c, x, was)
    ensures !c.mode.ACRefine? ==> Ready(c, x, Known(c, x, was))
  {
    hide DcAt, AcAt, InBand;
  }

  /** Sending some blocks leaves the others ready, and sending twice is sending all at once. */
  lemma SentTwice(c: Scan, img: seq<Block>, a: seq<nat>, b: seq<nat>, coefs: seq<Block>)
    requires AllReady(c, img, coefs, a + b)
    ensures AllReady(c, img, coefs, a) && AllReady(c, img, Sent(c, img, a, coefs), b)
    ensures Sent(c, img, b, Sent(c, img, a, coefs)) == Sent(c, img, a + b, coefs)
  {
    hide Known, Ready;
    assert forall i :: 0 <= i < |a| ==> (a + b)[i] == a[i];
    assert forall i :: 0 <= i < |b| ==> (a + b)[|a| + i] == b[i];
    forall i | 0 <= i < |b|
      ensures Ready(c, img[b[i]], Sent(c, img, a, coefs)[b[i]])
    {
      assert (a + b)[|a| + i] == b[i];
      KnownIsReady(c, img[b[i]], coefs[b[i]]);
      forall j | 0 <= j < |a|
        ensures c.mode.ACRefine? ==> a[j] != b[i]
      {
        assert (a + b)[j] == a[j];
      }
    }
    forall k | 0 <= k < |coefs|
      ensures Sent(c, img, b, Sent(c, img, a, coefs))[k] == Sent(c, img, a + b, coefs)[k]
    {
      KnownIsReady(c, img[k], coefs[k]);
    }
  }

  lemma SentNone(c: Scan, img: seq<Block>, coefs: seq<Block>)
    requires |coefs| == |img|
    ensures Sent(c, img, [], coefs) == coefs
  {
  }

  lemma SentOne(c: Scan, img: seq<Block>, b: nat, coefs: seq<Block>)
    requires b < |coefs| == |img|
    ensures Sent(c, img, [b], coefs) == coefs[b := Known(c, img[b], coefs[b])]
  {
    hide Known;
  }

  // ----- sequential scans -----

  lemma BaselineMade(c: Scan, img: seq<Block>, mcu: seq<nat>, coefs: seq<Block>)
    requires c.mode.Baseline? && AllReady(c, img, coefs, mcu)
    ensures AllInRange(McuPuts(img, mcu, 0), |coefs|) && Apply(McuPuts(img, mcu, 0), coefs) == Sent(c, img, mcu, coefs)
  {
    hide McuPuts, Apply;
    forall j | 0 <= j < |mcu|
      ensures Blank(img, coefs, mcu[j])
    {
      assert Ready(c, img[mcu[j]], coefs[mcu[j]]);
    }
    McuMade(img, mcu, 0, coefs);
    assert mcu[0..] == mcu;
    forall b | 0 <= b < |coefs|
      ensures Known(c, img[b], coefs[b]) == img[b]
    {
    }
  }

  // ----- DC scans -----

  lemma {:induction false} DcMade(c: Scan, img: seq<Block>, mcu: seq<nat>, i: nat, coefs: seq<Block>)
    requires c.mode.DCFirst? && McuFits(c, mcu, |img|) && i <= |mcu| && |coefs| == |img|
    ensures AllInRange(DcPuts(c, img, mcu, i), |coefs|) && Apply(DcPuts(c, img, mcu, i), coefs) == Sent(c, img, mcu[i..], coefs)
    decreases |mcu| - i
  {
    hide Apply, DcAt, Sent;
    if i < |mcu| {
      var b := mcu[i];
      var head := [Put(b, 0, DcAt(img[b][0], c.al))];
      ApplySingle(head[0], coefs);
      SentOne(c, img, b, coefs);
      assert Known(c, img[b], coefs[b]) == coefs[b][0 := DcAt(img[b][0], c.al)];
      DcMade(c, img, mcu, i + 1, Apply(head, coefs));
      ApplyAppend(head, DcPuts(c, img, mcu, i + 1), coefs);
      SentFirst(c, img, mcu, i, coefs);
    } else {
      assert mcu[i..] == [];
      ApplyNothing(coefs);
      SentNone(c, img, coefs);
    }
  }

  /** One block after the other. */
  lemma SentFirst(c: Scan, img: seq<Block>, mcu: seq<nat>, i: nat, coefs: seq<Block>)
    requires i < |mcu| && |coefs| == |img|
    ensures Sent(c, img, mcu[i + 1..], Sent(c, img, [mcu[i]], coefs)) == Sent(c, img, mcu[i..], coefs)
  {
    hide Known;
    assert mcu[i..] == [mcu[i]] + mcu[i + 1..];
    forall k | 0 <= k < |coefs|
      ensures Sent(c, img, mcu[i + 1..], Sent(c, img, [mcu[i]], coefs))[k] == Sent(c, img, mcu[i..], coefs)[k]
    {
      KnownIsReady(c, img[k], coefs[k]);
    }
  }

  lemma {:induction false} DcTailsMade(c: Scan, img: seq<Block>, mcu: seq<nat>, i: nat, coefs: seq<Block>)
    requires c.mode.DCRefine? && McuFits(c, mcu, |img|) && i <= |mcu| && AllReady(c, img, coefs, mcu[i..])
    ensures AllInRange(DcSets(img, mcu, c.al, i), |coefs|) && Apply(DcSets(img, mcu, c.al, i), coefs) == Sent(c, img, mcu[i..], coefs)
    decreases |mcu| - i
  {
    hide Apply, DcAt, Sent, BitOf, WithBit;
    if i < |mcu| {
      var b := mcu[i];
      var v := img[b][0];
      assert mcu[i..] == [b] + mcu[i + 1..];
      assert mcu[i..][0] == b && Ready(c, img[b], coefs[b]) && Sends(c, 0);
      DcRefined(v, c.al);
      var head := if BitOf(v, c.al) then [SetBit(b, 0, c.al)] else [];
      ApplySingle(SetBit(b, 0, c.al), coefs);
      ApplyNothing(coefs);
      SentOne(c, img, b, coefs);
      assert Known(c, img[b], coefs[b]) == coefs[b][0 := DcAt(v, c.al)];
      assert Apply(head, coefs) == Sent(c, img, [b], coefs) by {
        assert BitOf(v, c.al) || coefs[b][0 := DcAt(v, c.al)] == coefs[b];
        assert coefs[b := coefs[b]] == coefs;
      }
      SentTwice(c, img, [b], mcu[i + 1..], coefs);
      DcTailsMade(c, img, mcu, i + 1, Apply(head, coefs));
      ApplyAppend(head, DcSets(img, mcu, c.al, i + 1), coefs);
    } else {
      assert mcu[i..] == [];
      ApplyNothing(coefs);
      SentNone(c, img, coefs);
    }
  }

  // ----- AC scans -----

  lemma BandMade(c: Scan, img: seq<Block>, b: nat, coefs: seq<Block>)
    requires c.mode.ACFirst? && b < |coefs| == |img| && Ready(c, img[b], coefs[b])
    ensures AllInRange(Puts(Band(img[b], c.ss, c.se, c.al), c.ss, b), |coefs|)
    ensures Apply(Puts(Band(img[b], c.ss, c.se, c.al), c.ss, b), coefs) == Sent(c, img, [b], coefs)
  {
    hide Puts, Apply, AcAt, ZigzagOrder, Sent;
    var y := Band(img[b], c.ss, c.se, c.al);
    PutsMake(y, c.ss, b, coefs);
    SentOne(c, img, b, coefs);
    assert Overlay(y, c.ss, coefs[b]) == Known(c, img[b], coefs[b]);
  }

  /** The band from zigzag index k on is at the accuracy of the scan. */
  function Refreshed(x: Block, k: nat, se: nat, al: nat, was: Block): Block {
    seq(64, i requires 0 <= i < 64 => if InBand(i, k, se) then AcAt(x[i], al) else was[i])
  }

  ghost predicate OneLess(x: Block, k: nat, se: nat, al: nat, was: Block) {
    forall i: nat :: i < 64 && InBand(i, k, se) ==> was[i] == AcAt(x[i], al + 1)
  }

  lemma RefinementMakes(x: Block, k: nat, al: nat, at: nat, coefs: seq<Block>)
    requires k <= 63 && al <= 13 && at < |coefs| && coefs[at][NaturalOrder(k)] == AcAt(x[NaturalOrder(k)], al + 1)
    ensures AllInRange(Refinement(x, k, al, at), |coefs|)
    ensures Apply(Refinement(x, k, al, at), coefs) == coefs[at := coefs[at][NaturalOrder(k) := AcAt(x[NaturalOrder(k)], al)]]
  {
    hide Apply, Part, BitOf, Abs, AcAt, Raised;
    var pos := NaturalOrder(k);
    var v := x[pos];
    ApplyNothing(coefs);
    assert coefs[at][pos := coefs[at][pos]] == coefs[at];
    assert coefs[at := coefs[at]] == coefs;
    if History(x, k, al) {
      AcCorrected(v, al);
      ApplySingle(Raise(at, pos, al), coefs);
    } else {
      AcNew(v, al);
      FitsTowardsZero(v, al);
      ApplySingle(Put(at, pos, AcAt(v, al)), coefs);
    }
  }

  lemma RefreshedStep(x: Block, k: nat, se: nat, al: nat, was: Block)
    requires k <= se <= 63
    ensures Refreshed(x, k + 1, se, al, was[NaturalOrder(k) := AcAt(x[NaturalOrder(k)], al)]) == Refreshed(x, k, se, al, was)
    ensures OneLess(x, k, se, al, was) ==>
              && was[NaturalOrder(k)] == AcAt(x[NaturalOrder(k)], al + 1)
              && OneLess(x, k + 1, se, al, was[NaturalOrder(k) := AcAt(x[NaturalOrder(k)], al)])
  {
    hide NaturalOrder, ZigzagOrder, AcAt;
    ZigzagOfNatural(k);
    forall i | 0 <= i < 64
      ensures ZigzagOrder(i) == k ==> i == NaturalOrder(k)
    {
      NaturalOfZigzag(i);
    }
    assert OneLess(x, k, se, al, was) ==> InBand(NaturalOrder(k), k, se);
  }

  lemma {:induction false} RefinementsMake(x: Block, k: nat, se: nat, al: nat, at: nat, coefs: seq<Block>)
    requires k <= se + 1 && se <= 63 && al <= 13 && at < |coefs| && OneLess(x, k, se, al, coefs[at])
    ensures AllInRange(Refinements(x, k, se + 1, al, at), |coefs|)
    ensures Apply(Refinements(x, k, se + 1, al, at), coefs) == coefs[at := Refreshed(x, k, se, al, coefs[at])]
    decreases se + 1 - k
  {
    hide Apply, NaturalOrder, AcAt, OneLess, Refinement;
    if k <= se {
      RefreshedStep(x, k, se, al, coefs[at]);
      RefinementMakes(x, k, al, at, coefs);
      RefinementsMake(x, k + 1, se, al, at, Apply(Refinement(x, k, al, at), coefs));
      ApplyAppend(Refinement(x, k, al, at), Refinements(x, k + 1, se + 1, al, at), coefs);
    } else {
      ApplyNothing(coefs);
      assert Refreshed(x, k, se, al, coefs[at]) == coefs[at];
    }
  }

  lemma RefinedMade(c: Scan, img: seq<Block>, b: nat, coefs: seq<Block>)
    requires c.mode.ACRefine? && b < |coefs| == |img| && Ready(c, img[b], coefs[b])
    ensures AllInRange(Refinements(img[b], c.ss, c.se + 1, c.al, b), |coefs|)
    ensures Apply(Refinements(img[b], c.ss, c.se + 1, c.al, b), coefs) == Sent(c, img, [b], coefs)
  {
    hide Apply, AcAt, ZigzagOrder, Sent, Refinements;
    assert OneLess(img[b], c.ss, c.se, c.al, coefs[b]);
    RefinementsMake(img[b], c.ss, c.se, c.al, b, coefs);
    SentOne(c, img, b, coefs);
    assert Refreshed(img[b], c.ss, c.se, c.al, coefs[b]) == Known(c, img[b], coefs[b]);
  }

  /** The history the decoder of a refinement sees is that of the encoder. */
  lemma HistorySeen(c: Scan, img: seq<Block>, b: nat, coefs: seq<Block>)
    requires c.mode.ACRefine? && b < |coefs| == |img| && Ready(c, img[b], coefs[b])
    ensures Sees(NonZero(coefs[b]), img[b], c.ss, c.se, c.al)
  {
    hide AcAt, ZigzagOrder, NaturalOrder, Part;
    forall k: nat | c.ss <= k <= c.se
      ensures NonZero(coefs[b])[NaturalOrder(k)] == History(img[b], k, c.al)
    {
      ZigzagOfNatural(k);
      var i := NaturalOrder(k);
      assert Sends(c, i) && Prior(c, img[b][i], coefs[b][i]);
      FitsTowardsZero(img[b][i], c.al + 1);
    }
  }

  // ----- one MCU -----

  /** The bits that encode an MCU, and what is left of an EOB run after it. */
  datatype Piece = Piece(bits: seq<bool>, run: nat)

  /** The tables of the scan have been accepted. */
  ghost predicate Accepted(c: Scan) {
    match c.mode
    case Baseline => Sequential(c)
    case DCFirst => forall i :: 0 <= i < |c.membership| ==> CodesFit(c.dcTbl[i])
    case DCRefine => true
    case ACFirst => CodesFit(c.acTbl[0])
    case ACRefine => CodesFit(c.acTbl[0])
  }

  /** Nothing to send in the band. */
  predicate BandBlank(x: Block, ss: nat, se: nat, al: nat)
    requires se <= 63
  {
    forall k: nat :: ss <= k <= se ==> Part(x[NaturalOrder(k)], al) == 0
  }

  /** The length of the EOB run that an encoded block starts: what is left after it, and itself. */
  function RunStarted(trailing: bool, left: nat): nat {
    if trailing then left + 1 else 0
  }

  ghost predicate FirstEncodes(t: JHuffTbl, x: Block, ss: nat, se: nat, al: nat, eobrun: nat, w: Piece)
    requires se <= 63
  {
    var n := RunStarted(Trailing(x, se, al), w.run);
    if eobrun > 0 then BandBlank(x, ss, se, al) && w == Piece([], eobrun - 1)
    else
      && FirstCoded(t, x, ss, 0, se, al) && RunCoded(t, n)
      && w == Piece(FirstBits(t, x, ss, 0, se, al, RunBits(t, n)), RunLeft(n))
  }

  ghost predicate RefineEncodes(t: JHuffTbl, x: Block, ss: nat, se: nat, al: nat, eobrun: nat, w: Piece)
    requires se <= 63
  {
    var n := RunStarted(!Fresh(x, se, al), w.run);
    if eobrun > 0 then NextFresh(x, ss, se, al) > se && w == Piece(Corrections(x, ss, se + 1, al), eobrun - 1)
    else
      && RefineCoded(t, x, ss, se, al) && RunCoded(t, n)
      && w == Piece(RefineBits(t, x, ss, se, al, RunBits(t, n)), RunLeft(n))
  }

  /** w encodes an MCU of the image, predictions being dc and eobrun blocks being left of an EOB run. How long a run
      it starts is up to the encoder. */
  ghost predicate Encodes(c: Scan, img: seq<Block>, mcu: seq<nat>, dc: Predictions, eobrun: nat, w: Piece)
    requires McuFits(c, mcu, |img|)
  {
    match c.mode
    case Baseline => McuCoded(c, img, mcu, dc, 0) && w == Piece(McuBits(c, img, mcu, dc, 0), eobrun)
    case DCFirst => DcCoded(c, img, mcu, dc, 0) && w == Piece(DcBits(c, img, mcu, dc, 0), eobrun)
    case DCRefine => w == Piece(DcTails(img, mcu, c.al, 0), eobrun)
    case ACFirst => FirstEncodes(c.acTbl[0], img[mcu[0]], c.ss, c.se, c.al, eobrun, w)
    case ACRefine => RefineEncodes(c.acTbl[0], img[mcu[0]], c.ss, c.se, c.al, eobrun, w)
  }

  /** The predictions after it. */
  ghost function NextDc(c: Scan, img: seq<Block>, mcu: seq<nat>, dc: Predictions): Predictions
    requires McuFits(c, mcu, |img|)
  {
    match c.mode
    case Baseline => McuDc(c, img, mcu, dc, 0)
    case DCFirst => DcLast(c, img, mcu, dc, 0)
    case _ => dc
  }

  /** The outcome of decoding an encoded MCU: its blocks are sent, and the decoder stands after its bits. */
  ghost predicate Reads(o: Outcome, c: Scan, img: seq<Block>, mcu: seq<nat>, coefs: seq<Block>, p: nat, dc: Predictions, w: Piece)
    requires McuFits(c, mcu, |img|) && |coefs| == |img|
  {
    && o.at == p + |w.bits| && o.eobrun == w.run && o.dc == NextDc(c, img, mcu, dc)
    && AllInRange(o.edits, |coefs|) && Apply(o.edits, coefs) == Sent(c, img, mcu, coefs)
  }

  lemma FirstReads(c: Scan, img: seq<Block>, b: nat, coefs: seq<Block>, s: seq<bool>, p: nat, eobrun: nat, dc: Predictions, w: Piece)
    requires c.mode.ACFirst? && Accepted(c) && b < |img| == |coefs| && Ready(c, img[b], coefs[b])
    requires Encodes(c, img, [b], dc, eobrun, w) && HasAt(s, p, w.bits)
    ensures Reads(McuOutcome(c, [b], coefs, s, p, eobrun, dc), c, img, [b], coefs, p, dc, w)
  {
    hide CodesFit, HasAt, FirstBits, FirstCoded, RunBits, RunCoded, Puts, Band, Sent, Apply, AcFirstEdits, Trailing, BandBlank;
    var x := img[b];
    if eobrun > 0 {
      ApplyNothing(coefs);
      SentOne(c, img, b, coefs);
      BlankStays(c, x, coefs[b]);
      assert coefs[b := coefs[b]] == coefs;
    } else {
      var n := RunStarted(Trailing(x, c.se, c.al), w.run);
      FirstComesBack(c.acTbl[0], s, p, x, c.ss, 0, c.ss, c.se, c.al, n, b, dc);
      BandMade(c, img, b, coefs);
    }
  }

  /** A block without anything to send is already right. */
  lemma BlankStays(c: Scan, x: Block, was: Block)
    requires c.mode.ACFirst? && Ready(c, x, was) && BandBlank(x, c.ss, c.se, c.al)
    ensures Known(c, x, was) == was
  {
    hide AcAt, ZigzagOrder, NaturalOrder, Part;
    forall i: nat | i < 64
      ensures Known(c, x, was)[i] == was[i]
    {
      if Sends(c, i) {
        NaturalOfZigzag(i);
        assert Part(x[NaturalOrder(ZigzagOrder(i))], c.al) == 0;
        FitsTowardsZero(x[i], c.al);
        assert Prior(c, x[i], was[i]);
      }
    }
  }

  lemma RefinementReads(c: Scan, img: seq<Block>, b: nat, coefs: seq<Block>, s: seq<bool>, p: nat, eobrun: nat, dc: Predictions, w: Piece)
    requires c.mode.ACRefine? && Accepted(c) && b < |img| == |coefs| && Ready(c, img[b], coefs[b])
    requires Encodes(c, img, [b], dc, eobrun, w) && HasAt(s, p, w.bits)
    ensures Reads(McuOutcome(c, [b], coefs, s, p, eobrun, dc), c, img, [b], coefs, p, dc, w)
  {
    hide CodesFit, HasAt, RefineBits, RefineCoded, RunBits, RunCoded, Refinements, Sent, Apply, AcRefineEdits, Corrections, NextFresh, Fresh, NonZero, Sees;
    var x := img[b];
    HistorySeen(c, img, b, coefs);
    RefinedMade(c, img, b, coefs);
    if eobrun > 0 {
      RefineInRun(c.acTbl[0], s, p, x, c.ss, c.se, c.al, eobrun, b, NonZero(coefs[b]), dc);
    } else {
      var n := RunStarted(!Fresh(x, c.se, c.al), w.run);
      RefineComesBack(c.acTbl[0], s, p, x, c.ss, c.se, c.al, n, b, NonZero(coefs[b]), dc);
    }
  }

  /** Decoding the encoding of an MCU, in a scan of any kind. */
  lemma McuReads(c: Scan, img: seq<Block>, mcu: seq<nat>, coefs: seq<Block>, s: seq<bool>, p: nat, eobrun: nat, dc: Predictions, w: Piece)
    requires Accepted(c) && McuFits(c, mcu, |img|) && AllReady(c, img, coefs, mcu)
    requires Encodes(c, img, mcu, dc, eobrun, w) && HasAt(s, p, w.bits)
    ensures Reads(McuOutcome(c, mcu, coefs, s, p, eobrun, dc), c, img, mcu, coefs, p, dc, w)
  {
    hide CodesFit, HasAt, Sent, Apply, Ready, FirstEncodes, RefineEncodes, AcFirstEdits, AcRefineEdits, BaselineEdits, DcFirstEdits, DcRefineEdits;
    hide McuCoded, McuBits, DcCoded, DcBits, DcTails, DcSets, DcPuts, McuPuts;
    match c.mode
    case Baseline =>
      McuComesBack(c, img, mcu, s, p, eobrun, dc, 0);
      BaselineMade(c, img, mcu, coefs);
    case DCFirst =>
      DcComesBack(c, img, mcu, s, p, eobrun, dc, 0);
      DcMade(c, img, mcu, 0, coefs);
      assert mcu[0..] == mcu;
    case DCRefine =>
      DcTailsComeBack(img, mcu, c.al, s, p, 0);
      assert mcu[0..] == mcu;
      DcTailsMade(c, img, mcu, 0, coefs);
    case ACFirst =>
      assert mcu == [mcu[0]];
      FirstReads(c, img, mcu[0], coefs, s, p, eobrun, dc, w);
    case ACRefine =>
      assert mcu == [mcu[0]];
      RefinementReads(c, img, mcu[0], coefs, s, p, eobrun, dc, w);
  }
}
