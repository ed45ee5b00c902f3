/** Bit planes through a whole progression of scans, decoded one after another from whatever bytes
    (sections G.1.1 and G.1.2 of ITU-T T.81). */
module ProgressionPlanes {
  import opened Bits
  import opened HuffmanTable
  import opened Coefficients
  import opened EntropySpec
  import opened BitPlanes
  import opened PointTransform
  import opened Delivery
  import opened ScanEncoder
  import opened ScanGeometry
  import opened CoefController
  import opened RoundTrip
  import opened EncodedBands
  import opened Overflow
  import opened ScanPlanes
  import opened Progression

  /** No run of any scan leaves the band of the scan. */
  ghost predicate RunsInBand(passes: seq<Pass>, im: Image, file: seq<Byte>, coefs: seq<Block>)
    requires AllFitImage(passes, im, |coefs|)
  {
    passes == [] ||
    (var init, p := passes[..|passes| - 1], passes[|passes| - 1];
     && RunsInBand(init, im, file, coefs)
     && ScanInBand(p.c, im, p.sc, file, Opening(p.c, file, p.pos), Progression.Decoded(init, im, file, coefs)))
  }

  /** All values of AC first scans fit in 16 bits once they are shifted. */
  ghost predicate SizesFitAll(passes: seq<Pass>, im: Image, file: seq<Byte>, coefs: seq<Block>)
    requires AllFitImage(passes, im, |coefs|)
  {
    passes == [] ||
    (var init, p := passes[..|passes| - 1], passes[|passes| - 1];
     && SizesFitAll(init, im, file, coefs)
     && ScanSizesFit(p.c, im, p.sc, file, Opening(p.c, file, p.pos), Progression.Decoded(init, im, file, coefs)))
  }

  /** No scan names a component twice. */
  ghost predicate Distinct(passes: seq<Pass>) {
    forall n :: 0 <= n < |passes| ==> NoRepeats(passes[n].sc)
  }

  ghost predicate Possible(passes: seq<Pass>, im: Image, file: seq<Byte>, coefs: seq<Block>) {
    && |coefs| == TotalBlocks(im) && (forall b :: 0 <= b < |coefs| ==> AllZero(coefs[b]))
    && AllFitImage(passes, im, |coefs|) && Legal(passes, im) && Distinct(passes) && RunsInBand(passes, im, file, coefs)
  }

  /** The values that a coefficient has after each of the scans that send it. */
  ghost function Values(passes: seq<Pass>, im: Image, file: seq<Byte>, coefs: seq<Block>, b: nat, i: nat): seq<Coef>
    requires AllFitImage(passes, im, |coefs|) && b < |coefs| && i < 64
  {
    if passes == [] then []
    else
      Values(passes[..|passes| - 1], im, file, coefs, b, i)
      + if Touches(passes[|passes| - 1], im, b, i) then [Progression.Decoded(passes, im, file, coefs)[b][i]] else []
  }

  /** The bits that refinement scans deliver for the DC coefficient of a block. */
  ghost function DcBits(passes: seq<Pass>, im: Image, file: seq<Byte>, coefs: seq<Block>, b: nat): seq<bool>
    requires AllFitImage(passes, im, |coefs|)
  {
    if passes == [] then []
    else
      var init, p := passes[..|passes| - 1], passes[|passes| - 1];
      DcBits(init, im, file, coefs, b)
      + if Touches(p, im, b, 0) && p.c.mode.DCRefine?
        then [DeliveredBit(p.c, im, p.sc, file, Opening(p.c, file, p.pos), Progression.Decoded(init, im, file, coefs), b) == 1]
        else []
  }

  /** The bit position at which the first of them starts. */
  ghost function FirstAl(passes: seq<Pass>, im: Image, b: nat, i: nat): nat {
    if passes == [] then 0
    else
      var init, p := passes[..|passes| - 1], passes[|passes| - 1];
      if After(init, im, b, i).Nothing? then LowBit(p.c) else FirstAl(init, im, b, i)
  }

  /** The value, before it is shifted, that the first of them receives. */
  ghost function FirstReceived(passes: seq<Pass>, im: Image, file: seq<Byte>, coefs: seq<Block>, b: nat, i: nat): int
    requires AllFitImage(passes, im, |coefs|)
  {
    if passes == [] then 0
    else
      var init, p := passes[..|passes| - 1], passes[|passes| - 1];
      if After(init, im, b, i).Nothing?
      then ReceivedValue(p.c, im, p.sc, file, Opening(p.c, file, p.pos), Progression.Decoded(init, im, file, coefs), b, i)
      else FirstReceived(init, im, file, coefs, b, i)
  }

  /** What refinement scans deliver to an AC coefficient. */
  ghost function AcDeliveries(passes: seq<Pass>, im: Image, file: seq<Byte>, coefs: seq<Block>, b: nat, i: nat): seq<Delivered>
    requires AllFitImage(passes, im, |coefs|)
  {
    if passes == [] then []
    else
      var init, p := passes[..|passes| - 1], passes[|passes| - 1];
      AcDeliveries(init, im, file, coefs, b, i)
      + if Touches(p, im, b, i) && p.c.mode.ACRefine?
        then [DeliveredAc(p.c, im, p.sc, file, Opening(p.c, file, p.pos), Progression.Decoded(init, im, file, coefs), b, i)]
        else []
  }

  lemma PossibleBefore(passes: seq<Pass>, im: Image, file: seq<Byte>, coefs: seq<Block>)
    requires passes != [] && Possible(passes, im, file, coefs)
    ensures var init, p := passes[..|passes| - 1], passes[|passes| - 1];
            && Possible(init, im, file, coefs) && RunFits(p.c, im, p.sc, |coefs|) && NoRepeats(p.sc)
            && AllFitImage(passes, im, |coefs|)
            && ScanInBand(p.c, im, p.sc, file, Opening(p.c, file, p.pos), Progression.Decoded(init, im, file, coefs))
            && forall b: nat, i: nat :: i < 64 && Touches(p, im, b, i) ==> Follows(p.c, After(init, im, b, i))
  {
    hide RunFits, ScanInBand, Touches, Follows, After, NoRepeats, TotalBlocks, Opening, Progression.Decoded;
  }

  lemma TouchesInScan(p: Pass, im: Image, k: nat, y: nat, x: nat, i: nat)
    requires Selects(im, p.sc) && InGrid(im, k, y, x)
    ensures Touches(p, im, Index(im, k, y, x), i) <==> InScan(im, p.sc, k, y, x) && Sends(p.c, i)
  {
    hide Index, Flat, Rest, InScan, Sends, PaddedHeight, PaddedWidth;
    ScanCovers(im, p.sc, k, y, x);
  }

  // ----- AC coefficients -----

  /** A signed number with magnitude bits appended; a sign counts where a zero receives its first bit. */
  function SpelledAc(x: int, ds: seq<Delivered>): int {
    if ds == [] then x else Extended(SpelledAc(x, ds[..|ds| - 1]), ds[|ds| - 1])
  }

  /** One delivery more. */
  lemma TookExtends(was: Coef, now: Coef, d: Delivered, al: nat)
    requires Clear(was, al + 1) && TookBit(was, now, d, al)
    ensures Part(now, al) == Extended(Part(was, al + 1), d)
  {
    hide Shr, Shl, Mask;
    PartSign(was, al + 1);
  }

  /** Nothing is lost of a value that is clear below. */
  lemma PartSign(v: Coef, al: nat)
    requires Clear(v, al)
    ensures v == Shl(Part(v, al), al)
    ensures (v > 0 <==> Part(v, al) > 0) && (v < 0 <==> Part(v, al) < 0)
  {
    hide Shr, Shl, Mask;
    if v < 0 {
      ClearOfNegative(v, al);
    }
    ClearIs(Abs(v), al);
    ShlOfNegative(Shr(Abs(v), al), al);
    ShlPositive(al);
    if Shr(Abs(v), al) > 0 {
      ShlMonotone(0, Shr(Abs(v), al), al);
    }
  }

  /** What the values so far, what was received and delivered, the accuracy so far and the present value have to do with
      each other. */
  ghost predicate Told(vals: seq<Coef>, x: int, ds: seq<Delivered>, a: nat, acc: Accuracy, now: Coef) {
    if vals == [] then acc == Nothing && now == 0 && ds == []
    else
      && |vals| == |ds| + 1 <= a + 1 <= 14 && acc == AllBut(a - |ds|) && now == vals[|ds|]
      && vals[0] == Wrap16(Shl(x, a)) && Clear(vals[0], a)
      && (vals[0] != -0x8000 ==>
            BitPlanes.Progression(vals, a) && Clear(now, a - |ds|) && Part(now, a - |ds|) == SpelledAc(Part(vals[0], a), ds))
  }

  lemma FirstTold(now: Coef, x: int, a: nat)
    requires a <= 13 && now == Wrap16(Shl(x, a))
    ensures Told([now], x, [], a, AllBut(a), now)
  {
    hide Shl, Shr, Mask;
    FirstPassClear(x, a);
  }

  /** A refinement of the last value is one more step of the progression, and keeps out of the way of overflow. */
  lemma NextTold(vals: seq<Coef>, x: int, ds: seq<Delivered>, a: nat, al: nat, now: Coef, d: Delivered)
    requires vals != [] && Told(vals, x, ds, a, AllBut(al + 1), vals[|vals| - 1])
    requires vals[0] != -0x8000 ==>
               Clear(vals[|vals| - 1], al + 1) && TookBit(vals[|vals| - 1], now, d, al) && RefinedTo(vals[|vals| - 1], now, al)
    ensures Told(vals + [now], x, ds + [d], a, AllBut(al), now)
  {
    hide Clear, RefinedTo, Part, Extended;
    if vals[0] != -0x8000 {
      TookExtends(vals[|vals| - 1], now, d, al);
      assert (ds + [d])[..|ds|] == ds;
      assert Clear(now, al);
    }
  }

  /** A progression that starts away from the most negative value stays away from it. */
  lemma {:induction false} NeverMostNegative(vals: seq<Coef>, a: nat, j: nat)
    requires BitPlanes.Progression(vals, a) && vals[0] != -0x8000 && j < |vals|
    ensures vals[j] != -0x8000 && Clear(vals[j], a - j)
    decreases j
  {
    hide Shl, Mask;
    PlanesStay(vals, a, j, j);
    if j > 0 {
      NeverMostNegative(vals, a, j - 1);
      assert RefinedTo(vals[j - 1], vals[j], a - 1 - (j - 1));
      Room(vals[j - 1], a - j);
    }
  }

  /** One more scan, seen from one AC coefficient. */
  lemma AcOneMore(passes: seq<Pass>, im: Image, file: seq<Byte>, coefs: seq<Block>, k: nat, y: nat, x: nat, i: nat,
                  vals: seq<Coef>, x0: int, ds: seq<Delivered>, a: nat, acc: Accuracy)
    requires passes != [] && Possible(passes, im, file, coefs) && InGrid(im, k, y, x) && 1 <= i < 64
    requires acc == After(passes[..|passes| - 1], im, Index(im, k, y, x), i) && Index(im, k, y, x) < |coefs|
    requires AllFitImage(passes[..|passes| - 1], im, |coefs|)
    requires Told(vals, x0, ds, a, acc, Progression.Decoded(passes[..|passes| - 1], im, file, coefs)[Index(im, k, y, x)][i])
    ensures var p, now := passes[|passes| - 1], Progression.Decoded(passes, im, file, coefs)[Index(im, k, y, x)][i];
            var st, was := Opening(p.c, file, p.pos), Progression.Decoded(passes[..|passes| - 1], im, file, coefs);
            var b := Index(im, k, y, x);
            if !Touches(p, im, b, i) then Told(vals, x0, ds, a, acc, now)
            else if acc.Nothing? then
              && !p.c.mode.ACRefine?
              && Told([now], ReceivedValue(p.c, im, p.sc, file, st, was, b, i), [], LowBit(p.c), AllBut(LowBit(p.c)), now)
            else
              && p.c.mode.ACRefine?
              && Told(vals + [now], x0, ds + [DeliveredAc(p.c, im, p.sc, file, st, was, b, i)], a, AllBut(LowBit(p.c)), now)
  {
    hide Index, InScan, Touches, Sends, Run, ScanInBand, After, Possible, AllFitImage, Clear, RefinedTo, TookBit, Took, Part, SpelledAc;
    hide DeliveredAc, ReceivedValue, Opening, NoRepeats, RunFits, BitPlanes.Progression, Shl, Wrap16;
    PossibleBefore(passes, im, file, coefs);
    var init, p := passes[..|passes| - 1], passes[|passes| - 1];
    var was := Progression.Decoded(init, im, file, coefs);
    var st, b := Opening(p.c, file, p.pos), Index(im, k, y, x);
    var now := Progression.Decoded(passes, im, file, coefs)[b][i];
    assert now == Run(p.c, im, p.sc, file, 0, 0, st, was).1[b][i];
    SelectsOf(p, im, |coefs|);
    TouchesInScan(p, im, k, y, x, i);
    if !Touches(p, im, b, i) {
      ScanKeeps(p.c, im, p.sc, file, st, was, k, y, x, i);
    } else if acc.Nothing? {
      assert Follows(p.c, acc);
      NoDcHere(p.c, i);
      assert vals == [];
      FirstScanStores(p.c, im, p.sc, file, st, was, k, y, x, i);
      FirstTold(now, ReceivedValue(p.c, im, p.sc, file, st, was, b, i), LowBit(p.c));
    } else {
      assert Follows(p.c, acc);
      NoDcHere(p.c, i);
      AcRefinementScanPlanes(p.c, im, p.sc, file, st, was, k, y, x, i);
      if vals[0] != -0x8000 {
        NeverMostNegative(vals, a, |vals| - 1);
      }
      NextTold(vals, x0, ds, a, p.c.al, now, DeliveredAc(p.c, im, p.sc, file, st, was, b, i));
    }
  }

  lemma SelectsOf(p: Pass, im: Image, n: nat)
    requires RunFits(p.c, im, p.sc, n)
    ensures Selects(im, p.sc)
  {
  }

  /** AC coefficients are no matter of DC scans. */
  lemma NoDcHere(c: Scan, i: nat)
    requires Sends(c, i)
    ensures i >= 1 ==> !c.mode.DCFirst? && !c.mode.DCRefine?
    ensures i == 0 ==> !c.mode.ACFirst? && !c.mode.ACRefine?
    ensures LowBit(c) <= 13
  {
    assert ZigzagOrder(0) == 0;
  }

  /** Through any legal progression whose runs stay in band, the values of an AC coefficient start at the one received, shifted
      and cut to 16 bits. Unless that is the most negative one, they form a progression of refinements, each for the next bit
      down, and the present value has exactly the magnitude bits and sign that the scans have delivered. */
  lemma {:induction false} AcHistory(passes: seq<Pass>, im: Image, file: seq<Byte>, coefs: seq<Block>, k: nat, y: nat, x: nat, i: nat)
    requires Possible(passes, im, file, coefs) && InGrid(im, k, y, x) && 1 <= i < 64
    ensures var b := Index(im, k, y, x);
            && b < |coefs| && AllFitImage(passes, im, |coefs|)
            && Told(Values(passes, im, file, coefs, b, i), FirstReceived(passes, im, file, coefs, b, i),
                    AcDeliveries(passes, im, file, coefs, b, i), FirstAl(passes, im, b, i), After(passes, im, b, i),
                    Progression.Decoded(passes, im, file, coefs)[b][i])
    decreases |passes|
  {
    hide Index, Touches, Told, Legal, Distinct, RunsInBand, Follows, PaddedHeight, PaddedWidth, Opening, Run, ReceivedValue, DeliveredAc;
    IndexInside(im, k, y, x);
    var b := Index(im, k, y, x);
    if passes == [] {
      NothingTold(0, 0);
      assert AllZero(coefs[b]);
    } else {
      var init, p := passes[..|passes| - 1], passes[|passes| - 1];
      PossibleBefore(passes, im, file, coefs);
      AcHistory(init, im, file, coefs, k, y, x, i);
      var vals, a, acc := Values(init, im, file, coefs, b, i), FirstAl(init, im, b, i), After(init, im, b, i);
      var x0, ds := FirstReceived(init, im, file, coefs, b, i), AcDeliveries(init, im, file, coefs, b, i);
      var now := Progression.Decoded(passes, im, file, coefs)[b][i];
      AcOneMore(passes, im, file, coefs, k, y, x, i, vals, x0, ds, a, acc);
      UntoldIs(vals, x0, ds, a, acc, Progression.Decoded(init, im, file, coefs)[b][i], x0, a);
      UntoldIs(vals, x0, ds, a, acc, now, FirstReceived(passes, im, file, coefs, b, i), LowBit(p.c));
      assert vals + [] == vals && ds + [] == ds && [] + [now] == [now];
    }
  }

  lemma NothingTold(x: int, a: nat)
    ensures Told([], x, [], a, Nothing, 0)
  {
  }

  /** As long as nothing is sent, the first bit position and the first value do not matter. */
  lemma UntoldIs(vals: seq<Coef>, x: int, ds: seq<Delivered>, a: nat, acc: Accuracy, now: Coef, x': int, a': nat)
    ensures acc.Nothing? && Told(vals, x, ds, a, acc, now) ==> Told(vals, x', ds, a', acc, now) && vals == [] && ds == [] && now == 0
  {
  }

  /** If the sizes of first scans fit, the first value of an AC coefficient is stored as received. */
  lemma {:induction false} FirstValueInside(passes: seq<Pass>, im: Image, file: seq<Byte>, coefs: seq<Block>, k: nat, y: nat, x: nat, i: nat)
    requires Possible(passes, im, file, coefs) && SizesFitAll(passes, im, file, coefs) && InGrid(im, k, y, x) && 1 <= i < 64
    ensures var b := Index(im, k, y, x);
            && b < |coefs| && AllFitImage(passes, im, |coefs|)
            && (After(passes, im, b, i) != Nothing ==>
                  Storable(FirstReceived(passes, im, file, coefs, b, i), FirstAl(passes, im, b, i)))
    decreases |passes|
  {
    hide Index, Touches, Legal, Distinct, RunsInBand, Follows, PaddedHeight, PaddedWidth, Run, Opening, ScanSizesFit, Storable, ReceivedValue, LowBit;
    IndexInside(im, k, y, x);
    var b := Index(im, k, y, x);
    if passes != [] {
      var init, p := passes[..|passes| - 1], passes[|passes| - 1];
      PossibleBefore(passes, im, file, coefs);
      FirstValueInside(init, im, file, coefs, k, y, x, i);
      if After(init, im, b, i) == Nothing && Touches(p, im, b, i) {
        StartsWhole(p.c, After(init, im, b, i));
        NoDcThere(p, im, b, i);
        FirstScanInside(p.c, im, p.sc, file, Opening(p.c, file, p.pos), Progression.Decoded(init, im, file, coefs), b, i);
      }
    }
  }

  lemma StartsWhole(c: Scan, acc: Accuracy)
    requires Follows(c, acc) && acc == Nothing
    ensures !c.mode.DCRefine? && !c.mode.ACRefine?
  {
  }

  lemma NoDcThere(p: Pass, im: Image, b: nat, i: nat)
    requires Touches(p, im, b, i) && i >= 1
    ensures !p.c.mode.DCFirst? && !p.c.mode.DCRefine?
  {
    NoDcHere(p.c, i);
  }

  /** A value that lies inside is stored as it is, and known by its shifted form. */
  lemma StoredInside(x: int, a: nat)
    requires Storable(x, a)
    ensures Wrap16(Shl(x, a)) == Shl(x, a) != -0x8000 && Part(Shl(x, a), a) == x
  {
    hide Shl, Shr;
    ClearOfShl(x, a);
    ShlOfNegative(x, a);
    ClearOfShl(-x, a);
    ShlPositive(a);
    if x > 0 {
      ShlMonotone(0, x, a);
    } else if x < 0 {
      ShlMonotone(x, 0, a);
    }
  }

  /** Where moreover the sizes of first scans fit: an AC coefficient is the value received first, with the magnitude bits and the
      sign appended that the refinement scans have delivered, and zeros for those still to come. */
  lemma AcSpelled(passes: seq<Pass>, im: Image, file: seq<Byte>, coefs: seq<Block>, k: nat, y: nat, x: nat, i: nat,
                  b: nat, x0: int, ds: seq<Delivered>, a: nat)
    requires AllFitImage(passes, im, |coefs|) && 1 <= i < 64 && b < |coefs|
    requires x0 == FirstReceived(passes, im, file, coefs, b, i) && a == FirstAl(passes, im, b, i)
    requires ds == AcDeliveries(passes, im, file, coefs, b, i)
    requires InGrid(im, k, y, x) && b == Index(im, k, y, x)
    requires Possible(passes, im, file, coefs) && SizesFitAll(passes, im, file, coefs)
    ensures After(passes, im, b, i) == Nothing ==> Progression.Decoded(passes, im, file, coefs)[b][i] == 0
    ensures After(passes, im, b, i) != Nothing ==>
              && |ds| <= a <= 13 && After(passes, im, b, i) == AllBut(a - |ds|)
              && Progression.Decoded(passes, im, file, coefs)[b][i] == Shl(SpelledAc(x0, ds), a - |ds|)
              && Shr(Abs(Progression.Decoded(passes, im, file, coefs)[b][i]), a - |ds|) == Spelled(Abs(x0), BitsOf(ds))
  {
    hide Index, Clear, Shl, Shr, Part, Storable, After, Legal, RunsInBand, SizesFitAll, FirstAl, Values, Progression.Decoded, SpelledAc, Spelled, BitsOf;
    hide FirstReceived, AcDeliveries, Possible, AllFitImage, BitPlanes.Progression;
    AcHistory(passes, im, file, coefs, k, y, x, i);
    FirstValueInside(passes, im, file, coefs, k, y, x, i);
    if After(passes, im, b, i) != Nothing {
      StoredInside(x0, a);
      PartSign(Progression.Decoded(passes, im, file, coefs)[b][i], a - |ds|);
      PartMagnitude(Progression.Decoded(passes, im, file, coefs)[b][i], a - |ds|);
      SpelledMagnitude(x0, ds);
    }
  }

  lemma PartMagnitude(v: Coef, al: nat)
    ensures Abs(Part(v, al)) == Shr(Abs(v), al)
  {
    hide Shr;
  }

  /** The delivered bits alone. */
  function BitsOf(ds: seq<Delivered>): (bits: seq<bool>)
    ensures |bits| == |ds|
  {
    seq(|ds|, i requires 0 <= i < |ds| => ds[i].bit)
  }

  /** In magnitude that is an unsigned number with the bits appended, and the sign stays. */
  lemma {:induction false} SpelledMagnitude(x: int, ds: seq<Delivered>)
    ensures Abs(SpelledAc(x, ds)) == Spelled(Abs(x), BitsOf(ds))
    ensures (x > 0 ==> SpelledAc(x, ds) > 0) && (x < 0 ==> SpelledAc(x, ds) < 0)
    decreases |ds|
  {
    if ds == [] {
      assert BitsOf(ds) == [];
    } else {
      var n := |ds| - 1;
      SpelledMagnitude(x, ds[..n]);
      assert BitsOf(ds) == BitsOf(ds[..n]) + [ds[n].bit];
      SpelledMore(Abs(x), BitsOf(ds[..n]), ds[n].bit);
    }
  }

  /** The first bit that is 1 is delivered with this sign. */
  predicate FirstSign(ds: seq<Delivered>, n: nat, negative: bool) {
    n < |ds| && ds[n].bit && ds[n].negative == negative && forall m :: 0 <= m < n ==> !ds[m].bit
  }

  /** A coefficient that starts at zero has the sign delivered with its first bit that is 1. */
  lemma {:induction false} SpelledSign(ds: seq<Delivered>) returns (n: nat)
    requires SpelledAc(0, ds) != 0
    ensures FirstSign(ds, n, SpelledAc(0, ds) < 0)
    decreases |ds|
  {
    var init := ds[..|ds| - 1];
    if SpelledAc(0, init) == 0 {
      NoneBefore(init);
      n := |ds| - 1;
      assert forall m :: 0 <= m < n ==> ds[m] == init[m];
    } else {
      n := SpelledSign(init);
      assert forall m :: 0 <= m <= n ==> ds[m] == init[m];
    }
  }

  /** Zero stays zero only by zeros. */
  lemma {:induction false} NoneBefore(ds: seq<Delivered>)
    requires SpelledAc(0, ds) == 0
    ensures forall m :: 0 <= m < |ds| ==> !ds[m].bit
    decreases |ds|
  {
    if ds != [] {
      NoneBefore(ds[..|ds| - 1]);
    }
  }

  /** Bit planes of AC coefficients: between any two scans of a legal progression whose runs stay in band and whose sizes fit,
      the planes that were known stay, those not sent are clear, and so does the sign of what is nonzero. */
  lemma AcPlanesStay(passes: seq<Pass>, im: Image, file: seq<Byte>, coefs: seq<Block>, k: nat, y: nat, x: nat, i: nat,
                     b: nat, vals: seq<Coef>, a: nat, j: nat, m: nat)
    requires AllFitImage(passes, im, |coefs|) && b < |coefs| && 1 <= i < 64 && j <= m < |vals|
    requires vals == Values(passes, im, file, coefs, b, i) && a == FirstAl(passes, im, b, i)
    requires InGrid(im, k, y, x) && b == Index(im, k, y, x)
    requires Possible(passes, im, file, coefs) && SizesFitAll(passes, im, file, coefs)
    ensures |vals| <= a + 1 <= 14 && After(passes, im, b, i) == AllBut(a + 1 - |vals|)
    ensures Progression.Decoded(passes, im, file, coefs)[b][i] == vals[|vals| - 1]
    ensures Clear(vals[m], a - m) && Shr(Abs(vals[m]), a - j) == Shr(Abs(vals[j]), a - j)
    ensures (vals[j] > 0 ==> vals[m] > 0) && (vals[j] < 0 ==> vals[m] < 0)
  {
    hide FirstReceived, AcDeliveries, Possible, AllFitImage, BitPlanes.Progression, Part, SpelledAc, Shl, Wrap16, Storable;
    hide Index, Clear, Shr, After, RefinedTo, Legal, RunsInBand, SizesFitAll, FirstAl, Values, Progression.Decoded;
    AcHistory(passes, im, file, coefs, k, y, x, i);
    FirstValueInside(passes, im, file, coefs, k, y, x, i);
    StoredInside(FirstReceived(passes, im, file, coefs, b, i), a);
    PlanesStay(vals, a, j, m);
  }

  // ----- DC coefficients -----

  /** The present value is the first one with the delivered bits appended, and that is the one received. */
  ghost predicate DcTold(vals: seq<Coef>, x: int, bits: seq<bool>, a: nat, acc: Accuracy, now: Coef) {
    if vals == [] then acc == Nothing && now == 0 && bits == []
    else
      && a <= 13 && |vals| == |bits| + 1 <= a + 1 && vals[0] == Wrap16(Shl(x, a)) && acc == AllBut(a - |bits|) && now == vals[|bits|]
      && Clear(now, a - |bits|) && Shr(now, a - |bits|) == Spelled(Shr(vals[0], a), bits)
  }

  lemma FirstDcTold(now: Coef, x: int, a: nat)
    requires a <= 13 && now == Wrap16(Shl(x, a))
    ensures DcTold([now], x, [], a, AllBut(a), now)
  {
    hide Shl, Shr, Mask;
    FirstPassClear(x, a);
  }

  lemma {:induction false} SpelledMore(x: int, bits: seq<bool>, b: bool)
    ensures Spelled(x, bits + [b]) == 2 * Spelled(x, bits) + if b then 1 else 0
    decreases |bits|
  {
    if bits == [] {
      assert [] + [b] == [b];
    } else {
      SpelledMore(2 * x + (if bits[0] then 1 else 0), bits[1..], b);
      assert (bits + [b])[1..] == bits[1..] + [b];
    }
  }

  lemma NextDcTold(vals: seq<Coef>, x: int, bits: seq<bool>, a: nat, al: nat, now: Coef, b: bool)
    requires vals != [] && DcTold(vals, x, bits, a, AllBut(al + 1), vals[|vals| - 1])
    requires Clear(now, al) && Shr(now, al) == 2 * Shr(vals[|vals| - 1], al + 1) + if b then 1 else 0
    ensures DcTold(vals + [now], x, bits + [b], a, AllBut(al), now)
  {
    hide Clear, Shr, Shl, Spelled;
    SpelledMore(Shr(vals[0], a), bits, b);
  }

  lemma NothingDcTold(x: int, a: nat)
    ensures DcTold([], x, [], a, Nothing, 0)
  {
  }

  lemma UntoldDcIs(vals: seq<Coef>, x: int, bits: seq<bool>, a: nat, acc: Accuracy, now: Coef, x': int, a': nat)
    ensures acc.Nothing? && DcTold(vals, x, bits, a, acc, now) ==> DcTold(vals, x', bits, a', acc, now) && vals == [] && bits == [] && now == 0
  {
  }

  /** One more scan, seen from one DC coefficient. */
  lemma DcOneMore(passes: seq<Pass>, im: Image, file: seq<Byte>, coefs: seq<Block>, k: nat, y: nat, x: nat,
                  vals: seq<Coef>, x0: int, bits: seq<bool>, a: nat, acc: Accuracy)
    requires passes != [] && Possible(passes, im, file, coefs) && InGrid(im, k, y, x)
    requires acc == After(passes[..|passes| - 1], im, Index(im, k, y, x), 0) && Index(im, k, y, x) < |coefs|
    requires AllFitImage(passes[..|passes| - 1], im, |coefs|)
    requires DcTold(vals, x0, bits, a, acc, Progression.Decoded(passes[..|passes| - 1], im, file, coefs)[Index(im, k, y, x)][0])
    ensures var p, now := passes[|passes| - 1], Progression.Decoded(passes, im, file, coefs)[Index(im, k, y, x)][0];
            var st, was := Opening(p.c, file, p.pos), Progression.Decoded(passes[..|passes| - 1], im, file, coefs);
            var b := Index(im, k, y, x);
            if !Touches(p, im, b, 0) then DcTold(vals, x0, bits, a, acc, now)
            else if acc.Nothing? then
              && !p.c.mode.DCRefine?
              && DcTold([now], ReceivedValue(p.c, im, p.sc, file, st, was, b, 0), [], LowBit(p.c), AllBut(LowBit(p.c)), now)
            else
              && p.c.mode.DCRefine?
              && DcTold(vals + [now], x0, bits + [DeliveredBit(p.c, im, p.sc, file, st, was, b) == 1], a, AllBut(p.c.al), now)
  {
    hide Index, InScan, Touches, Sends, Run, ScanInBand, After, Possible, AllFitImage, Clear, Opening, NoRepeats, RunFits, Shr, Shl, Wrap16, DeliveredBit, ReceivedValue, Spelled;
    PossibleBefore(passes, im, file, coefs);
    var init, p := passes[..|passes| - 1], passes[|passes| - 1];
    var was := Progression.Decoded(init, im, file, coefs);
    var st, b := Opening(p.c, file, p.pos), Index(im, k, y, x);
    var now := Progression.Decoded(passes, im, file, coefs)[b][0];
    SelectsOf(p, im, |coefs|);
    TouchesInScan(p, im, k, y, x, 0);
    UntoldDcIs(vals, x0, bits, a, acc, was[b][0], x0, a);
    if !Touches(p, im, b, 0) {
      ScanKeeps(p.c, im, p.sc, file, st, was, k, y, x, 0);
    } else if acc.Nothing? {
      assert Follows(p.c, acc);
      NoDcHere(p.c, 0);
      FirstScanStores(p.c, im, p.sc, file, st, was, k, y, x, 0);
      FirstDcTold(now, ReceivedValue(p.c, im, p.sc, file, st, was, b, 0), LowBit(p.c));
    } else {
      assert Follows(p.c, acc);
      NoDcHere(p.c, 0);
      DcRefinementScanPlanes(p.c, im, p.sc, file, st, was, k, y, x);
      OneBit(p.c, im, p.sc, file, st, was, b);
      NextDcTold(vals, x0, bits, a, p.c.al, now, DeliveredBit(p.c, im, p.sc, file, st, was, b) == 1);
    }
  }

  lemma OneBit(c: Scan, im: Image, sc: seq<nat>, file: seq<Byte>, st: State, coefs: seq<Block>, b: nat)
    requires RunFits(c, im, sc, |coefs|)
    ensures DeliveredBit(c, im, sc, file, st, coefs, b) <= 1
  {
    hide Rest, FoldBit, Fold, Run, Complete, Terminates;
    RunIsFold(c, im, sc, file, 0, 0, st, coefs);
    FoldBitIsBit(c, Rest(im, sc, 0, 0), file, st, coefs, b);
  }

  lemma {:induction false} FoldBitIsBit(c: Scan, ms: seq<seq<nat>>, file: seq<Byte>, st: State, coefs: seq<Block>, b: nat)
    requires AllFit(c, ms, |coefs|)
    ensures FoldBit(c, ms, file, st, coefs, b) <= 1
    decreases |ms|
  {
    hide Step, McuFits, Peek;
    if ms != [] {
      var next := Step(c, ms[0], file, st, coefs);
      FoldBitIsBit(c, ms[1..], file, next.0, next.1, b);
      if b in ms[0] {
        PeekIsBit(c, ms[0], file, st, b);
      }
    }
  }

  lemma PeekIsBit(c: Scan, mcu: seq<nat>, file: seq<Byte>, st: State, b: nat)
    requires b in mcu
    ensures StepBit(c, mcu, file, st, b) <= 1
  {
    hide Begin, Peek;
    var s := Begin(c, file, st);
    if s.stream.Running? {
      PeekSplit(s.stream.seg.bits, s.stream.at + IndexOf(mcu, b), 1, 1);
      ProgressiveEncoder.ShlTwo();
    }
  }

  /** Through any legal progression the DC coefficient of a block is its first value, in two's complement, with the bits appended
      that the refinement scans have delivered, and zeros for those still to come; the first value is the one received, shifted
      and cut to 16 bits. */
  lemma {:induction false} DcHistory(passes: seq<Pass>, im: Image, file: seq<Byte>, coefs: seq<Block>, k: nat, y: nat, x: nat)
    requires Possible(passes, im, file, coefs) && InGrid(im, k, y, x)
    ensures var b := Index(im, k, y, x);
            && b < |coefs| && AllFitImage(passes, im, |coefs|)
            && DcTold(Values(passes, im, file, coefs, b, 0), FirstReceived(passes, im, file, coefs, b, 0),
                      DcBits(passes, im, file, coefs, b), FirstAl(passes, im, b, 0),
                      After(passes, im, b, 0), Progression.Decoded(passes, im, file, coefs)[b][0])
    decreases |passes|
  {
    hide Index, Touches, DcTold, Legal, Distinct, RunsInBand, Follows, PaddedHeight, PaddedWidth, Opening, Run, DeliveredBit, ReceivedValue;
    IndexInside(im, k, y, x);
    var b := Index(im, k, y, x);
    if passes == [] {
      NothingDcTold(0, 0);
      assert AllZero(coefs[b]);
    } else {
      var init, p := passes[..|passes| - 1], passes[|passes| - 1];
      PossibleBefore(passes, im, file, coefs);
      DcHistory(init, im, file, coefs, k, y, x);
      var vals, a, acc := Values(init, im, file, coefs, b, 0), FirstAl(init, im, b, 0), After(init, im, b, 0);
      var x0, bits := FirstReceived(init, im, file, coefs, b, 0), DcBits(init, im, file, coefs, b);
      var now := Progression.Decoded(passes, im, file, coefs)[b][0];
      DcOneMore(passes, im, file, coefs, k, y, x, vals, x0, bits, a, acc);
      UntoldDcIs(vals, x0, bits, a, acc, now, FirstReceived(passes, im, file, coefs, b, 0), LowBit(p.c));
      UntoldDcIs(vals, x0, bits, a, acc, Progression.Decoded(init, im, file, coefs)[b][0], x0, a);
      assert vals + [] == vals && bits + [] == bits && [] + [now] == [now];
    }
  }

  /** If the value received fits in 16 bits once it is shifted: it is that value with those bits appended. */
  lemma DcSpelled(passes: seq<Pass>, im: Image, file: seq<Byte>, coefs: seq<Block>, k: nat, y: nat, x: nat,
                  b: nat, x0: int, bits: seq<bool>, a: nat)
    requires AllFitImage(passes, im, |coefs|) && b < |coefs|
    requires x0 == FirstReceived(passes, im, file, coefs, b, 0) && a == FirstAl(passes, im, b, 0)
    requires bits == DcBits(passes, im, file, coefs, b)
    requires InGrid(im, k, y, x) && b == Index(im, k, y, x)
    requires Possible(passes, im, file, coefs) && After(passes, im, b, 0) != Nothing && -0x8000 <= Shl(x0, a) < 0x8000
    ensures |bits| <= a <= 13 && After(passes, im, b, 0) == AllBut(a - |bits|)
    ensures Progression.Decoded(passes, im, file, coefs)[b][0] == Shl(Spelled(x0, bits), a - |bits|)
  {
    hide Index, Clear, Shl, Shr, After, Legal, RunsInBand, FirstAl, Values, Progression.Decoded, Spelled, FirstReceived, DcBits, Possible;
    DcHistory(passes, im, file, coefs, k, y, x);
    ClearOfShl(x0, a);
    ClearIs(Progression.Decoded(passes, im, file, coefs)[b][0], a - |bits|);
  }

  // ----- encoded progressions -----

  /** All this is said of every file of encoded scans: its runs stay in band, and its sizes fit unless the image holds the most
      negative number as an AC coefficient. */
  lemma {:induction false} EncodedIsPossible(passes: seq<Pass>, data: seq<seq<Piece>>, im: Image, img: seq<Block>, file: seq<Byte>, coefs: seq<Block>)
    requires |coefs| == |img| == TotalBlocks(im) && AllEncoded(passes, data, im, img, file) && Legal(passes, im) && Distinct(passes)
    requires forall b :: 0 <= b < |coefs| ==> AllZero(coefs[b])
    ensures Possible(passes, im, file, coefs) && (Moderate(img) ==> SizesFitAll(passes, im, file, coefs))
    decreases |passes|
  {
    hide Encoded, Written, Run, Opening, After, Touches, Follows, RunFits, KnownTo, Moderate, ScanInBand, ScanSizesFit, ScanOrderly, NoRepeats, StartsReady;
    FitsOf(passes, data, im, img, file);
    if passes != [] {
      var init, p := passes[..|passes| - 1], passes[|passes| - 1];
      var was := Progression.Decoded(init, im, file, coefs);
      EncodedIsPossible(init, data[..|init|], im, img, file, coefs);
      ProgressionComesBack(init, data[..|init|], im, img, file, coefs);
      PassReady(init, p, data[|init|], im, img, was);
      PassDecoded(p, data[|init|], im, img, file, was);
      OrderlyScan(p.c, im, p.sc, file, Opening(p.c, file, p.pos), was, Moderate(img));
    }
  }
}
