/** A progression of encoded scans in one file: decoding them one after another builds the image up,
    coefficient by coefficient and bit by bit (sections G.1.1 and G.1.2 of ITU-T T.81). */
module Progression {
  import opened HuffmanTable
  import opened ByteStream
  import opened Coefficients
  import opened EntropySpec
  import opened BitPlanes
  import opened PointTransform
  import opened ScanEncoder
  import opened ScanGeometry
  import opened CoefController
  import opened RoundTrip
  import opened EncodedBands

  /** One scan of a file: its parameters and components, and where its data begins. */
  datatype Pass = Pass(c: Scan, sc: seq<nat>, pos: nat)

  /** The data of an encoded scan, with the marker after it, stands where the pass begins. */
  ghost predicate Written(p: Pass, ws: seq<Piece>, file: seq<Byte>) {
    exists m: Marker :: StandsIn(file, p.pos, ScanBytes(p.c.restartInterval, ws, 0) + [FILL, m])
  }

  /** The marker behind the data of a scan, and the position after it. */
  ghost function Behind(p: Pass, ws: seq<Piece>, file: seq<Byte>): Ending
    requires Written(p, ws, file)
  {
    var next := p.pos + |ScanBytes(p.c.restartInterval, ws, 0)| + 2;
    Ending(file[next - 1], next)
  }

  ghost predicate AllEncoded(passes: seq<Pass>, data: seq<seq<Piece>>, im: Image, img: seq<Block>, file: seq<Byte>) {
    |data| == |passes| &&
    forall n :: 0 <= n < |passes| ==> Encoded(passes[n].c, im, passes[n].sc, img, data[n]) && Written(passes[n], data[n], file)
  }

  ghost predicate AllFitImage(passes: seq<Pass>, im: Image, n: nat) {
    forall i :: 0 <= i < |passes| ==> RunFits(passes[i].c, im, passes[i].sc, n)
  }

  /** What the controller ends with, scan after scan. */
  ghost function Decoded(passes: seq<Pass>, im: Image, file: seq<Byte>, coefs: seq<Block>): (r: seq<Block>)
    requires AllFitImage(passes, im, |coefs|)
    ensures |r| == |coefs|
  {
    if passes == [] then coefs
    else
      var p := passes[|passes| - 1];
      Run(p.c, im, p.sc, file, 0, 0, Opening(p.c, file, p.pos), Decoded(passes[..|passes| - 1], im, file, coefs)).1
  }

  /** How much of a coefficient is known: nothing, or all but its al low-order bits. */
  datatype Accuracy = Nothing | AllBut(al: nat)

  /** The scan sends coefficient i of block b. */
  ghost predicate Touches(p: Pass, im: Image, b: nat, i: nat) {
    Selects(im, p.sc) && b in Flat(Rest(im, p.sc, 0, 0)) && Sends(p.c, i)
  }

  ghost function After(passes: seq<Pass>, im: Image, b: nat, i: nat): Accuracy {
    if passes == [] then Nothing
    else
      var p := passes[|passes| - 1];
      if Touches(p, im, b, i) then AllBut(if p.c.mode.Baseline? then 0 else p.c.al)
      else After(passes[..|passes| - 1], im, b, i)
  }

  function ValueAt(v: Coef, i: nat, a: Accuracy): Coef {
    match a
    case Nothing => 0
    case AllBut(al) => if i == 0 then DcAt(v, al) else AcAt(v, al)
  }

  /** First scans send what was not sent before, refinements one bit more. */
  predicate Follows(c: Scan, a: Accuracy) {
    if c.mode.DCRefine? || c.mode.ACRefine? then a == AllBut(c.al + 1) else a == Nothing
  }

  ghost predicate Legal(passes: seq<Pass>, im: Image) {
    passes == [] ||
    (var init, p := passes[..|passes| - 1], passes[|passes| - 1];
     Legal(init, im) && forall b: nat, i: nat :: i < 64 && Touches(p, im, b, i) ==> Follows(p.c, After(init, im, b, i)))
  }

  /** What a scan may find, and what it leaves, in terms of accuracy. */
  lemma OneCoefficient(c: Scan, v: Coef, i: nat, a: Accuracy)
    requires i < 64 && Sends(c, i) && Follows(c, a)
    ensures Prior(c, v, ValueAt(v, i, a))
    ensures Level(c, v) == ValueAt(v, i, AllBut(if c.mode.Baseline? then 0 else c.al))
  {
    hide DcAt, AcAt;
    Whole(v);
    assert ZigzagOrder(0) == 0;
  }

  /** The coefficients have the accuracy that the scans so far have given them. */
  ghost predicate KnownTo(passes: seq<Pass>, im: Image, img: seq<Block>, coefs: seq<Block>) {
    |coefs| == |img| && forall b: nat, i: nat :: b < |img| && i < 64 ==> coefs[b][i] == ValueAt(img[b][i], i, After(passes, im, b, i))
  }

  /** A scan that follows finds its coefficients ready. */
  lemma PassReady(init: seq<Pass>, p: Pass, ws: seq<Piece>, im: Image, img: seq<Block>, coefs: seq<Block>)
    requires Encoded(p.c, im, p.sc, img, ws) && KnownTo(init, im, img, coefs)
    requires forall b: nat, i: nat :: i < 64 && Touches(p, im, b, i) ==> Follows(p.c, After(init, im, b, i))
    ensures StartsReady(p.c, im, p.sc, img, coefs)
  {
    hide Accepted, AllFit, ScanEncodes, Flat, Rest, Prior, Level, ValueAt, Sends, Follows, After;
    var list := Flat(Rest(im, p.sc, 0, 0));
    forall b: nat | b in list
      ensures b < |img| && Ready(p.c, img[b], coefs[b])
    {
      ListInside(p.c, im, p.sc, img, ws, b);
      forall i: nat | i < 64 && Sends(p.c, i)
        ensures Prior(p.c, img[b][i], coefs[b][i])
      {
        assert Touches(p, im, b, i);
        OneCoefficient(p.c, img[b][i], i, After(init, im, b, i));
      }
    }
  }

  /** What decoding a scan that stands in the file makes of ready coefficients. */
  lemma PassDecoded(p: Pass, ws: seq<Piece>, im: Image, img: seq<Block>, file: seq<Byte>, coefs: seq<Block>)
    requires Encoded(p.c, im, p.sc, img, ws) && Written(p, ws, file) && StartsReady(p.c, im, p.sc, img, coefs)
    ensures Complete(p.c, im, p.sc, file, 0, 0, Opening(p.c, file, p.pos), coefs)
    ensures Run(p.c, im, p.sc, file, 0, 0, Opening(p.c, file, p.pos), coefs).1 == Sent(p.c, img, Flat(Rest(im, p.sc, 0, 0)), coefs)
    ensures ScanOrderly(p.c, im, p.sc, file, Opening(p.c, file, p.pos), coefs, Moderate(img))
    ensures ClosedAt(p.c, im, p.sc, file, p.pos, coefs) == Behind(p, ws, file)
  {
    hide ClosedAt;
    hide ScanOrderly, Moderate;
    hide Accepted, AllFit, ScanEncodes, Run, Complete, Opening, Flat, Rest, Ready, ScanBytes, Sent;
    var m: Marker :| StandsIn(file, p.pos, ScanBytes(p.c.restartInterval, ws, 0) + [FILL, m]);
    var pre, rest := file[..p.pos], file[p.pos + |ScanBytes(p.c.restartInterval, ws, 0)| + 2..];
    assert file == pre + ScanBytes(p.c.restartInterval, ws, 0) + [FILL, m] + rest;
    EncodedScanComesBack(p.c, im, p.sc, img, ws, coefs, pre, m, rest, file);
  }

  /** One scan more. */
  lemma OnePass(init: seq<Pass>, p: Pass, ws: seq<Piece>, im: Image, img: seq<Block>, file: seq<Byte>, coefs: seq<Block>)
    requires Encoded(p.c, im, p.sc, img, ws) && Written(p, ws, file) && KnownTo(init, im, img, coefs)
    requires Legal(init + [p], im)
    ensures Complete(p.c, im, p.sc, file, 0, 0, Opening(p.c, file, p.pos), coefs)
    ensures KnownTo(init + [p], im, img, Run(p.c, im, p.sc, file, 0, 0, Opening(p.c, file, p.pos), coefs).1)
  {
    hide Accepted, AllFit, ScanEncodes, Run, Complete, Opening, Flat, Rest, Level, ValueAt, Sends, Follows, Written, Legal, Ready, Prior;
    var passes := init + [p];
    assert passes[..|passes| - 1] == init && passes[|passes| - 1] == p;
    LastFollows(passes, im);
    PassReady(init, p, ws, im, img, coefs);
    PassDecoded(p, ws, im, img, file, coefs);
    var list := Flat(Rest(im, p.sc, 0, 0));
    forall b: nat, i: nat | b < |img| && i < 64
      ensures Sent(p.c, img, list, coefs)[b][i] == ValueAt(img[b][i], i, After(passes, im, b, i))
    {
      if Touches(p, im, b, i) {
        OneCoefficient(p.c, img[b][i], i, After(init, im, b, i));
      }
    }
  }

  lemma LastFollows(passes: seq<Pass>, im: Image)
    requires passes != [] && Legal(passes, im)
    ensures var init, p := passes[..|passes| - 1], passes[|passes| - 1];
            forall b: nat, i: nat :: i < 64 && Touches(p, im, b, i) ==> Follows(p.c, After(init, im, b, i))
  {
  }

  /** The blocks of a scan are blocks of the image. */
  lemma ListInside(c: Scan, im: Image, sc: seq<nat>, img: seq<Block>, ws: seq<Piece>, b: nat)
    requires Encoded(c, im, sc, img, ws) && b in Flat(Rest(im, sc, 0, 0))
    ensures b < |img|
  {
    hide Rest, ScanEncodes, Accepted;
    FlatInside(c, Rest(im, sc, 0, 0), |img|, b);
  }

  lemma {:induction false} FlatInside(c: Scan, ms: seq<seq<nat>>, n: nat, b: nat)
    requires AllFit(c, ms, n) && b in Flat(ms)
    ensures b < n
    decreases |ms|
  {
    if b !in ms[0] {
      FlatInside(c, ms[1..], n, b);
    } else {
      assert McuFits(c, ms[0], n);
    }
  }

  /** After any legal progression, read from zeroed coefficients, every coefficient has exactly the bits that were sent. */
  lemma {:induction false} ProgressionComesBack(passes: seq<Pass>, data: seq<seq<Piece>>, im: Image, img: seq<Block>, file: seq<Byte>, coefs: seq<Block>)
    requires |coefs| == |img| && AllEncoded(passes, data, im, img, file) && Legal(passes, im)
    requires forall b :: 0 <= b < |coefs| ==> AllZero(coefs[b])
    ensures AllFitImage(passes, im, |coefs|) && KnownTo(passes, im, img, Decoded(passes, im, file, coefs))
    decreases |passes|
  {
    hide Encoded, Written, Run, Opening, After, Touches, Follows, RunFits, ValueAt;
    FitsOf(passes, data, im, img, file);
    if passes == [] {
      NothingKnown(im, img, coefs);
    } else {
      var init, p := passes[..|passes| - 1], passes[|passes| - 1];
      ProgressionComesBack(init, data[..|init|], im, img, file, coefs);
      assert init + [p] == passes;
      OnePass(init, p, data[|init|], im, img, file, Decoded(init, im, file, coefs));
    }
  }

  lemma NothingKnown(im: Image, img: seq<Block>, coefs: seq<Block>)
    requires |coefs| == |img| && forall b :: 0 <= b < |coefs| ==> AllZero(coefs[b])
    ensures KnownTo([], im, img, coefs)
  {
  }

  lemma FitsOf(passes: seq<Pass>, data: seq<seq<Piece>>, im: Image, img: seq<Block>, file: seq<Byte>)
    requires AllEncoded(passes, data, im, img, file)
    ensures AllFitImage(passes, im, |img|)
  {
    hide RunFits, Written, AllFit, ScanEncodes, Accepted;
  }

  /** A progression that has sent everything to the last bit has restored the image. */
  lemma ImageRestored(passes: seq<Pass>, data: seq<seq<Piece>>, im: Image, img: seq<Block>, file: seq<Byte>, coefs: seq<Block>)
    requires |coefs| == |img| && AllEncoded(passes, data, im, img, file) && Legal(passes, im)
    requires forall b :: 0 <= b < |coefs| ==> AllZero(coefs[b])
    requires forall b: nat, i: nat :: b < |img| && i < 64 ==> After(passes, im, b, i) == AllBut(0)
    ensures AllFitImage(passes, im, |coefs|) && Decoded(passes, im, file, coefs) == img
  {
    hide AllEncoded, Legal, After, Decoded, AllFitImage;
    ProgressionComesBack(passes, data, im, img, file, coefs);
    var r := Decoded(passes, im, file, coefs);
    forall b: nat, i: nat | b < |img| && i < 64
      ensures r[b][i] == img[b][i]
    {
      Whole(img[b][i]);
    }
    SameCells(r, img);
  }
}
