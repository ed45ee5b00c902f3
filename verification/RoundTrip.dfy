/** Encoding a scan of any kind and decoding it again gives its blocks, to the accuracy of the scan,
    restart intervals included (jdhuff.c, jdphuff.c, jdcoefct.c; Annexes B, F and G of ITU-T T.81). */
module RoundTrip {
  import opened Bits
  import opened HuffmanTable
  import opened ByteStream
  import opened Coefficients
  import opened EntropySpec
  import opened BaselineEncoder
  import opened ScanEncoder
  import opened Bands
  import opened EncodedBands
  import opened ScanGeometry
  import opened CoefController
  import E = EntropyDecoder

  const NO_DC: Predictions := [0, 0, 0, 0]

  ghost predicate AllFit(c: Scan, mcus: seq<seq<nat>>, n: nat) {
    forall i :: 0 <= i < |mcus| ==> McuFits(c, mcus[i], n)
  }

  /** MCUs decoded one after another. */
  ghost function Fold(c: Scan, mcus: seq<seq<nat>>, file: seq<Byte>, st: State, coefs: seq<Block>): (r: (State, seq<Block>))
    requires AllFit(c, mcus, |coefs|)
    ensures |r.1| == |coefs|
  {
    if mcus == [] then (st, coefs)
    else
      var next := Step(c, mcus[0], file, st, coefs);
      Fold(c, mcus[1..], file, next.0, next.1)
  }

  /** The end of the segment of the last MCU; ahead if there is none. */
  ghost function LastEnd(c: Scan, mcus: seq<seq<nat>>, file: seq<Byte>, st: State, coefs: seq<Block>, ahead: Ending): Ending
    requires AllFit(c, mcus, |coefs|)
  {
    if mcus == [] then ahead
    else
      var next := Step(c, mcus[0], file, st, coefs);
      LastEnd(c, mcus[1..], file, next.0, next.1, E.ClosedBy(c, file, st))
  }

  lemma {:induction false} LastEndAppend(c: Scan, a: seq<seq<nat>>, b: seq<seq<nat>>, file: seq<Byte>, st: State, coefs: seq<Block>, ahead: Ending)
    requires AllFit(c, a, |coefs|) && AllFit(c, b, |coefs|)
    ensures var mid := Fold(c, a, file, st, coefs);
            && AllFit(c, a + b, |coefs|)
            && LastEnd(c, a + b, file, st, coefs, ahead) == LastEnd(c, b, file, mid.0, mid.1, LastEnd(c, a, file, st, coefs, ahead))
    decreases |a|
  {
    hide Step, E.ClosedBy, McuFits;
    if a == [] {
      assert a + b == b;
    } else {
      assert (a + b)[1..] == a[1..] + b;
      var next := Step(c, a[0], file, st, coefs);
      LastEndAppend(c, a[1..], b, file, next.0, next.1, E.ClosedBy(c, file, st));
    }
  }

  /** All segments that are entered on the way are closed by a marker. */
  ghost predicate Terminates(c: Scan, mcus: seq<seq<nat>>, file: seq<Byte>, st: State, coefs: seq<Block>)
    requires AllFit(c, mcus, |coefs|)
  {
    if mcus == [] then true
    else
      var next := Step(c, mcus[0], file, st, coefs);
      E.Terminated(c, file, st) && Terminates(c, mcus[1..], file, next.0, next.1)
  }

  /** The runs of an MCU stay in the band and, if sized, the sizes of its values fit. */
  ghost predicate StepOrderly(c: Scan, mcu: seq<nat>, file: seq<Byte>, st: State, coefs: seq<Block>, sized: bool)
    requires McuFits(c, mcu, |coefs|)
  {
    StepInBand(c, mcu, file, st, coefs) && (sized ==> StepSizesFit(c, mcu, file, st, coefs))
  }

  ghost predicate Orderly(c: Scan, mcus: seq<seq<nat>>, file: seq<Byte>, st: State, coefs: seq<Block>, sized: bool)
    requires AllFit(c, mcus, |coefs|)
  {
    if mcus == [] then true
    else
      var next := Step(c, mcus[0], file, st, coefs);
      StepOrderly(c, mcus[0], file, st, coefs, sized) && Orderly(c, mcus[1..], file, next.0, next.1, sized)
  }

  lemma {:induction false} OrderlyAppend(c: Scan, a: seq<seq<nat>>, b: seq<seq<nat>>, file: seq<Byte>, st: State, coefs: seq<Block>, sized: bool)
    requires AllFit(c, a, |coefs|) && AllFit(c, b, |coefs|)
    requires Orderly(c, a, file, st, coefs, sized)
    requires var mid := Fold(c, a, file, st, coefs); Orderly(c, b, file, mid.0, mid.1, sized)
    ensures AllFit(c, a + b, |coefs|) && Orderly(c, a + b, file, st, coefs, sized)
    decreases |a|
  {
    hide Step, StepOrderly, McuFits;
    if a == [] {
      assert a + b == b;
    } else {
      assert (a + b)[1..] == a[1..] + b;
      var next := Step(c, a[0], file, st, coefs);
      OrderlyAppend(c, a[1..], b, file, next.0, next.1, sized);
    }
  }

  lemma {:induction false} FoldAppend(c: Scan, a: seq<seq<nat>>, b: seq<seq<nat>>, file: seq<Byte>, st: State, coefs: seq<Block>)
    requires AllFit(c, a, |coefs|) && AllFit(c, b, |coefs|)
    ensures AllFit(c, a + b, |coefs|)
    ensures var mid := Fold(c, a, file, st, coefs);
            && Fold(c, a + b, file, st, coefs) == Fold(c, b, file, mid.0, mid.1)
            && Terminates(c, a + b, file, st, coefs) == (Terminates(c, a, file, st, coefs) && Terminates(c, b, file, mid.0, mid.1))
    decreases |a|
  {
    hide Step, E.Terminated;
    if a == [] {
      assert a + b == b;
    } else {
      assert (a + b)[1..] == a[1..] + b;
      var next := Step(c, a[0], file, st, coefs);
      FoldAppend(c, a[1..], b, file, next.0, next.1);
    }
  }

  // ----- encoding a list of MCUs -----

  /** The pieces encode the MCUs one after another. */
  ghost predicate ListEncodes(c: Scan, img: seq<Block>, ms: seq<seq<nat>>, ws: seq<Piece>, dc: Predictions, eobrun: nat)
    requires AllFit(c, ms, |img|)
  {
    |ws| == |ms| &&
    if ms == [] then true
    else
      && Encodes(c, img, ms[0], dc, eobrun, ws[0])
      && ListEncodes(c, img, ms[1..], ws[1..], NextDc(c, img, ms[0], dc), ws[0].run)
  }

  function Joined(ws: seq<Piece>): seq<bool> {
    if ws == [] then [] else ws[0].bits + Joined(ws[1..])
  }

  lemma AllFitParts(c: Scan, ms: seq<seq<nat>>, r: nat, n: nat)
    requires AllFit(c, ms, n) && r <= |ms|
    ensures AllFit(c, ms[..r], n) && AllFit(c, ms[r..], n)
  {
    hide McuFits;
  }

  /** Each restart interval starts with predictions of zero and outside any EOB run. */
  ghost predicate ScanEncodes(c: Scan, img: seq<Block>, ms: seq<seq<nat>>, ws: seq<Piece>)
    requires AllFit(c, ms, |img|)
  {
    |ws| == |ms| &&
    if c.restartInterval == 0 || |ms| <= c.restartInterval then ListEncodes(c, img, ms, ws, NO_DC, 0)
    else
      var r := c.restartInterval;
      AllFitParts(c, ms, r, |img|);
      ListEncodes(c, img, ms[..r], ws[..r], NO_DC, 0) && ScanEncodes(c, img, ms[r..], ws[r..])
  }

  lemma {:induction false} ScanParts(c: Scan, img: seq<Block>, ms: seq<seq<nat>>, ws: seq<Piece>)
    requires AllFit(c, ms, |img|) && ScanEncodes(c, img, ms, ws)
    ensures |ws| == |ms|
    ensures if c.restartInterval == 0 || |ms| <= c.restartInterval then ListEncodes(c, img, ms, ws, NO_DC, 0)
            else
              var r := c.restartInterval;
              && AllFit(c, ms[..r], |img|) && ListEncodes(c, img, ms[..r], ws[..r], NO_DC, 0)
              && AllFit(c, ms[r..], |img|) && ScanEncodes(c, img, ms[r..], ws[r..])
  {
    hide ListEncodes, AllFit;
    if 0 < c.restartInterval < |ms| {
      AllFitParts(c, ms, c.restartInterval, |img|);
    }
  }

  /** One restart interval as a stuffed segment. */
  function SegmentBytes(ws: seq<Piece>): seq<Byte> {
    Stuff(Pack(Joined(ws)))
  }

  function RstMarker(n: nat): seq<Byte>
    requires n < 8
  {
    [FILL, M_RST0 + n]
  }

  /** The bytes of a scan: a stuffed segment per restart interval, RST markers between them. */
  function ScanBytes(r: nat, ws: seq<Piece>, n: nat): seq<Byte>
    requires n < 8
    decreases |ws|
  {
    if r == 0 || |ws| <= r then SegmentBytes(ws)
    else SegmentBytes(ws[..r]) + RstMarker(n) + ScanBytes(r, ws[r..], (n + 1) % 8)
  }

  lemma FirstInterval(r: nat, ws: seq<Piece>, n: nat)
    requires 0 < r < |ws| && n < 8
    ensures ScanBytes(r, ws, n) == SegmentBytes(ws[..r]) + [0xFF, 0xD0 + n] + ScanBytes(r, ws[r..], (n + 1) % 8)
  {
    hide SegmentBytes;
  }

  lemma NumberAfter(n: nat, k: nat)
    ensures ((n + 1) % 8 + k) % 8 == (n + k + 1) % 8
  {
  }

  /** Behind the k-th restart interval of a scan that begins with number n stands RST(n + k modulo 8). */
  lemma {:induction false} IntervalAt(r: nat, ws: seq<Piece>, n: nat, k: nat, from: nat) returns (before: seq<Byte>)
    requires r > 0 && n < 8 && from == Times(k, r) && from + r < |ws|
    ensures ScanBytes(r, ws, n)
         == before + (SegmentBytes(ws[from..from + r]) + [0xFF, 0xD0 + (n + k) % 8] + ScanBytes(r, ws[from + r..], (n + k + 1) % 8))
  {
    hide SegmentBytes, ScanBytes;
    FirstInterval(r, ws, n);
    if k == 0 {
      before := [];
      assert ws[..r] == ws[0..r];
    } else {
      var low := from - r;
      var rest := IntervalAt(r, ws[r..], (n + 1) % 8, k - 1, low);
      assert ws[r..][low..low + r] == ws[from..from + r] && ws[r..][low + r..] == ws[from + r..];
      NumberAfter(n, k - 1);
      NumberAfter(n, k);
      before := SegmentBytes(ws[..r]) + [0xFF, 0xD0 + n] + rest;
    }
  }

  // ----- decoding it -----

  function Flat(ms: seq<seq<nat>>): seq<nat> {
    if ms == [] then [] else ms[0] + Flat(ms[1..])
  }

  /** A state in which the decoder stands at bit p of a segment, nothing being amiss. */
  ghost function Standing(seg: Segment, p: nat, eobrun: nat, dc: Predictions, toGo: nat, n: nat): State {
    State(Running(seg, p), false, eobrun, dc, toGo, n)
  }

  /** Decoding one encoded MCU sends its blocks and stands after its bits. */
  lemma McuRead(c: Scan, img: seq<Block>, mcu: seq<nat>, w: Piece, file: seq<Byte>, seg: Segment, p: nat, eobrun: nat, dc: Predictions,
                toGo: nat, n: nat, coefs: seq<Block>)
    requires Accepted(c) && McuFits(c, mcu, |img|) && AllReady(c, img, coefs, mcu)
    requires Encodes(c, img, mcu, dc, eobrun, w) && HasAt(seg.bits, p, w.bits)
    ensures |coefs| == |img| && Step(c, mcu, file, Standing(seg, p, eobrun, dc, toGo, n), coefs)
         == (End(c, file, Standing(seg, p + |w.bits|, w.run, NextDc(c, img, mcu, dc), toGo, n)), Sent(c, img, mcu, coefs))
  {
    hide Encodes, NextDc, Accepted, End, Apply, Sent, Ready, McuOutcome;
    assert p + |w.bits| <= |seg.bits|;
    hide HasAt;
    McuReads(c, img, mcu, coefs, seg.bits, p, eobrun, dc, w);
  }

  /** It is orderly. */
  lemma McuOrderly(c: Scan, img: seq<Block>, mcu: seq<nat>, w: Piece, file: seq<Byte>, seg: Segment, p: nat, eobrun: nat, dc: Predictions,
                   toGo: nat, n: nat, coefs: seq<Block>)
    requires Accepted(c) && McuFits(c, mcu, |img|) && AllReady(c, img, coefs, mcu)
    requires Encodes(c, img, mcu, dc, eobrun, w) && HasAt(seg.bits, p, w.bits)
    ensures StepOrderly(c, mcu, file, Standing(seg, p, eobrun, dc, toGo, n), coefs, Moderate(img))
  {
    hide Encodes, Accepted, HasAt, Ready, McuInBand, SizesFit, NoExtreme, Moderate;
    EncodedInBand(c, img, mcu, coefs, seg.bits, p, eobrun, dc, w);
    if c.mode.ACFirst? && Moderate(img) {
      ModerateBand(img, mcu[0], c.ss, c.se);
    }
  }

  lemma NotAtEnd(c: Scan, file: seq<Byte>, seg: Segment, p: nat, eobrun: nat, dc: Predictions, toGo: nat, n: nat)
    ensures c.restartInterval == 0 || toGo > 1 ==>
              End(c, file, Standing(seg, p, eobrun, dc, toGo, n)) == Standing(seg, p, eobrun, dc, if toGo == 0 then 0xFFFF_FFFF else toGo - 1, n)
    ensures c.restartInterval > 0 && toGo == 1 ==>
              End(c, file, Standing(seg, p, eobrun, dc, toGo, n)).stream == Restarting(Resync(file, seg.marker, seg.after, n % 8))
    ensures End(c, file, Standing(seg, p, eobrun, dc, toGo, n)).nextRst == n && !End(c, file, Standing(seg, p, eobrun, dc, toGo, n)).starved
    ensures E.Terminated(c, file, Standing(seg, p, eobrun, dc, toGo, n)) <==> seg.marker != 0
    ensures E.ClosedBy(c, file, Standing(seg, p, eobrun, dc, toGo, n)) == EndOf(seg)
  {
  }

  /** Decoding an encoded restart interval sends its blocks; if a restart is due after it, it is seen. */
  lemma {:induction false} SegmentRead(c: Scan, img: seq<Block>, ms: seq<seq<nat>>, ws: seq<Piece>, file: seq<Byte>, seg: Segment, p: nat,
                                       eobrun: nat, dc: Predictions, toGo: nat, n: nat, coefs: seq<Block>)
    requires Accepted(c) && AllFit(c, ms, |img|) && AllReady(c, img, coefs, Flat(ms)) && seg.marker != 0 && |coefs| == |img|
    requires ListEncodes(c, img, ms, ws, dc, eobrun) && HasAt(seg.bits, p, Joined(ws))
    requires c.restartInterval == 0 || |ms| <= toGo
    ensures Fold(c, ms, file, Standing(seg, p, eobrun, dc, toGo, n), coefs).1 == Sent(c, img, Flat(ms), coefs)
    ensures Terminates(c, ms, file, Standing(seg, p, eobrun, dc, toGo, n), coefs)
    ensures Orderly(c, ms, file, Standing(seg, p, eobrun, dc, toGo, n), coefs, Moderate(img))
    ensures LastEnd(c, ms, file, Standing(seg, p, eobrun, dc, toGo, n), coefs, EndOf(seg)) == EndOf(seg)
    ensures c.restartInterval > 0 && |ms| == toGo > 0 ==>
              var st := Fold(c, ms, file, Standing(seg, p, eobrun, dc, toGo, n), coefs).0;
              st.stream == Restarting(Resync(file, seg.marker, seg.after, n % 8)) && st.nextRst == n && !st.starved
    decreases |ms|
  {
    hide Accepted, McuFits, HasAt, Encodes, NextDc, Step, End, Sent, Standing, Resync, E.Terminated, E.ClosedBy, EndOf, AllReady, StepOrderly, Moderate;
    if ms == [] {
      SentNone(c, img, coefs);
    } else {
      var w, dc' := ws[0], NextDc(c, img, ms[0], dc);
      HasParts(seg.bits, p, w.bits, Joined(ws[1..]));
      SentTwice(c, img, ms[0], Flat(ms[1..]), coefs);
      NotAtEnd(c, file, seg, p, eobrun, dc, toGo, n);
      McuRead(c, img, ms[0], w, file, seg, p, eobrun, dc, toGo, n, coefs);
      McuOrderly(c, img, ms[0], w, file, seg, p, eobrun, dc, toGo, n, coefs);
      NotAtEnd(c, file, seg, p + |w.bits|, w.run, dc', toGo, n);
      if c.restartInterval == 0 || toGo > 1 {
        SegmentRead(c, img, ms[1..], ws[1..], file, seg, p + |w.bits|, w.run, dc', if toGo == 0 then 0xFFFF_FFFF else toGo - 1, n,
                    Sent(c, img, ms[0], coefs));
      } else {
        assert ms[1..] == [];
        SentNone(c, img, Sent(c, img, ms[0], coefs));
      }
    }
  }

  /** The restart the encoder announced is the restart the decoder makes. */
  lemma RestartRead(c: Scan, ms: seq<seq<nat>>, file: seq<Byte>, st: State, coefs: seq<Block>, after: nat, n: nat)
    requires AllFit(c, ms, |coefs|) && ms != [] && n < 8
    requires st.stream == Restarting(Resync(file, M_RST0 + n, after, n)) && !st.starved && st.nextRst == n
    ensures var anew := Standing(SegmentAt(file, after), 0, 0, NO_DC, c.restartInterval, (n + 1) % 8);
            && Fold(c, ms, file, st, coefs) == Fold(c, ms, file, anew, coefs)
            && Terminates(c, ms, file, st, coefs) == Terminates(c, ms, file, anew, coefs)
            && (forall sized :: Orderly(c, ms, file, st, coefs, sized) == Orderly(c, ms, file, anew, coefs, sized))
            && forall x, y :: LastEnd(c, ms, file, st, coefs, x) == LastEnd(c, ms, file, anew, coefs, y)
  {
    hide Decoded, SegmentAt, Resync, AllFit, McuFits, Apply, End, McuInBand, SizesFit;
    RestartIsResync(file, M_RST0 + n, after, n);
    var anew := Standing(SegmentAt(file, after), 0, 0, NO_DC, c.restartInterval, (n + 1) % 8);
    assert Begin(c, file, st) == anew == Begin(c, file, anew);
  }

  /** The segment at byte pos of a file is that of a restart interval, closed by marker m. */
  ghost predicate Holds(file: seq<Byte>, pos: nat, ws: seq<Piece>, m: Marker) {
    var seg := SegmentAt(file, pos);
    HasAt(seg.bits, 0, Joined(ws)) && seg.marker == m && seg.after == pos + |SegmentBytes(ws)| + 2
  }

  lemma SegmentFound(ws: seq<Piece>, pre: seq<Byte>, m: Marker, rest: seq<Byte>, file: seq<Byte>)
    requires file == pre + SegmentBytes(ws) + [FILL, m] + rest
    ensures Holds(file, |pre|, ws, m)
  {
    hide HasAt, Joined, SegmentAt, Pack, Stuff;
    UnstuffStuffed(pre, Pack(Joined(ws)), m, rest);
    PackHas(Joined(ws));
  }

  /** One restart interval, closed by any marker. */
  lemma IntervalRead(c: Scan, img: seq<Block>, ms: seq<seq<nat>>, ws: seq<Piece>, n: nat, pos: nat, m: Marker, file: seq<Byte>, coefs: seq<Block>)
    requires Accepted(c) && AllFit(c, ms, |img|) && AllReady(c, img, coefs, Flat(ms)) && |coefs| == |img|
    requires ListEncodes(c, img, ms, ws, NO_DC, 0) && (c.restartInterval == 0 || |ms| <= c.restartInterval)
    requires Holds(file, pos, ws, m)
    ensures var st := Standing(SegmentAt(file, pos), 0, 0, NO_DC, c.restartInterval, n);
            && Fold(c, ms, file, st, coefs).1 == Sent(c, img, Flat(ms), coefs) && Terminates(c, ms, file, st, coefs)
            && Orderly(c, ms, file, st, coefs, Moderate(img))
            && LastEnd(c, ms, file, st, coefs, EndOf(SegmentAt(file, pos))) == Ending(m, pos + |SegmentBytes(ws)| + 2)
            && (c.restartInterval > 0 && |ms| == c.restartInterval ==>
                  var end := Fold(c, ms, file, st, coefs).0;
                  && end.stream == Restarting(Resync(file, m, pos + |SegmentBytes(ws)| + 2, n % 8))
                  && end.nextRst == n && !end.starved)
  {
    hide Accepted, AllFit, HasAt, ListEncodes, Joined, Fold, Terminates, Orderly, LastEnd, Moderate, Sent, Standing, Resync, SegmentAt, SegmentBytes, AllReady, Flat;
    SegmentRead(c, img, ms, ws, file, SegmentAt(file, pos), 0, 0, NO_DC, c.restartInterval, n, coefs);
  }

  /** Whatever follows it, a scan read from its encoding sends its blocks. */
  lemma {:induction false} ScanRead(c: Scan, img: seq<Block>, ms: seq<seq<nat>>, ws: seq<Piece>, n: nat, pre: seq<Byte>, m: Marker, rest: seq<Byte>,
                                    coefs: seq<Block>)
    requires Accepted(c) && AllFit(c, ms, |img|) && ScanEncodes(c, img, ms, ws) && AllReady(c, img, coefs, Flat(ms))
    requires n < 8 && |coefs| == |img|
    ensures var file := pre + ScanBytes(c.restartInterval, ws, n) + [FILL, m] + rest;
            var st := Standing(SegmentAt(file, |pre|), 0, 0, NO_DC, c.restartInterval, n);
            && Fold(c, ms, file, st, coefs).1 == Sent(c, img, Flat(ms), coefs) && Terminates(c, ms, file, st, coefs)
            && Orderly(c, ms, file, st, coefs, Moderate(img))
            && LastEnd(c, ms, file, st, coefs, EndOf(SegmentAt(file, |pre|))) == Ending(m, |pre| + |ScanBytes(c.restartInterval, ws, n)| + 2)
    decreases |ms|
  {
    hide LastEnd, EndOf;
    hide Accepted, McuFits, ListEncodes, Fold, Terminates, Orderly, Moderate, Sent, Standing, Resync, SegmentAt, SegmentBytes, AllReady, Flat;
    hide AllFit, ScanEncodes;
    ScanParts(c, img, ms, ws);
    var r := c.restartInterval;
    var file := pre + ScanBytes(r, ws, n) + [FILL, m] + rest;
    if r == 0 || |ms| <= r {
      SegmentFound(ws, pre, m, rest, file);
      IntervalRead(c, img, ms, ws, n, |pre|, m, file, coefs);
    } else {
      var a, b := ms[..r], ms[r..];
      assert ms == a + b;
      FlatAppend(a, b);
      SentTwice(c, img, Flat(a), Flat(b), coefs);
      var tail := ScanBytes(r, ws[r..], (n + 1) % 8);
      var next := pre + SegmentBytes(ws[..r]) + RstMarker(n);
      assert file == pre + SegmentBytes(ws[..r]) + [FILL, M_RST0 + n] + (tail + [FILL, m] + rest);
      assert file == next + tail + [FILL, m] + rest;
      SegmentFound(ws[..r], pre, M_RST0 + n, tail + [FILL, m] + rest, file);
      IntervalRead(c, img, a, ws[..r], n, |pre|, M_RST0 + n, file, coefs);
      var st := Standing(SegmentAt(file, |pre|), 0, 0, NO_DC, r, n);
      var mid := Fold(c, a, file, st, coefs);
      RestartRead(c, b, file, mid.0, mid.1, |next|, n);
      ScanRead(c, img, b, ws[r..], (n + 1) % 8, next, m, rest, mid.1);
      FoldAppend(c, a, b, file, st, coefs);
      OrderlyAppend(c, a, b, file, st, coefs, Moderate(img));
      LastEndAppend(c, a, b, file, st, coefs, EndOf(SegmentAt(file, |pre|)));
    }
  }

  lemma PackHas(bits: seq<bool>)
    ensures HasAt(BitsOfBytes(Pack(bits)), 0, bits)
  {
    PackKeeps(bits);
  }

  lemma {:induction false} FlatAppend(a: seq<seq<nat>>, b: seq<seq<nat>>)
    ensures Flat(a + b) == Flat(a) + Flat(b)
  {
    if a == [] {
      assert a + b == b;
    } else {
      assert (a + b)[1..] == a[1..] + b;
      FlatAppend(a[1..], b);
    }
  }

  // ----- the scan of an image -----

  /** The MCUs of a scan from row r, column col on. */
  function Rest(im: Image, sc: seq<nat>, r: nat, col: nat): seq<seq<nat>>
    requires Selects(im, sc)
    decreases McuRows(im, sc) - r, McuCols(im, sc) - col
  {
    if r >= McuRows(im, sc) then []
    else if col >= McuCols(im, sc) then Rest(im, sc, r + 1, 0)
    else [Mcu(im, sc, r, col)] + Rest(im, sc, r, col + 1)
  }

  /** The MCUs of a scan come row by row from the top, each row from the left. */
  lemma {:induction false} RestAt(im: Image, sc: seq<nat>, r: nat, col: nat, row: nat, c: nat)
    requires Selects(im, sc) && r <= row < McuRows(im, sc) && col <= McuCols(im, sc) && c < McuCols(im, sc) && (row == r ==> col <= c)
    ensures var n := if row == r then c - col else McuCols(im, sc) - col + Times(row - r - 1, McuCols(im, sc)) + c;
            n < |Rest(im, sc, r, col)| && Rest(im, sc, r, col)[n] == Mcu(im, sc, row, c)
    decreases McuRows(im, sc) - r, McuCols(im, sc) - col
  {
    hide McuRows, McuCols, Mcu;
    if col == McuCols(im, sc) {
      RestAt(im, sc, r + 1, 0, row, c);
    } else if row > r || col < c {
      RestAt(im, sc, r, col + 1, row, c);
    }
  }

  /** The controller's traversal decodes that list. */
  lemma {:induction false} RunIsFold(c: Scan, im: Image, sc: seq<nat>, file: seq<Byte>, r: nat, col: nat, st: State, coefs: seq<Block>)
    requires RunFits(c, im, sc, |coefs|)
    ensures AllFit(c, Rest(im, sc, r, col), |coefs|)
    ensures Run(c, im, sc, file, r, col, st, coefs) == Fold(c, Rest(im, sc, r, col), file, st, coefs)
    ensures Complete(c, im, sc, file, r, col, st, coefs) == Terminates(c, Rest(im, sc, r, col), file, st, coefs)
    decreases McuRows(im, sc) - r, McuCols(im, sc) - col
  {
    hide Step, E.Terminated, McuRows, McuCols, Mcu;
    if r >= McuRows(im, sc) {
    } else if col >= McuCols(im, sc) {
      RunIsFold(c, im, sc, file, r + 1, 0, st, coefs);
    } else {
      McuIsFit(c, im, sc, r, col, |coefs|);
      var next := Step(c, Mcu(im, sc, r, col), file, st, coefs);
      RunIsFold(c, im, sc, file, r, col + 1, next.0, next.1);
      var list := Rest(im, sc, r, col);
      assert list[0] == Mcu(im, sc, r, col) && list[1..] == Rest(im, sc, r, col + 1);
    }
  }

  /** So what closes the scan is what closes its last MCU. */
  lemma {:induction false} ClosingIsFold(c: Scan, im: Image, sc: seq<nat>, file: seq<Byte>, r: nat, col: nat, st: State, coefs: seq<Block>, ahead: Ending)
    requires RunFits(c, im, sc, |coefs|)
    ensures AllFit(c, Rest(im, sc, r, col), |coefs|)
    ensures Closing(c, im, sc, file, r, col, st, coefs, ahead) == LastEnd(c, Rest(im, sc, r, col), file, st, coefs, ahead)
    decreases McuRows(im, sc) - r, McuCols(im, sc) - col
  {
    hide Step, E.ClosedBy, McuRows, McuCols, Mcu;
    if r >= McuRows(im, sc) {
    } else if col >= McuCols(im, sc) {
      ClosingIsFold(c, im, sc, file, r + 1, 0, st, coefs, ahead);
    } else {
      McuIsFit(c, im, sc, r, col, |coefs|);
      var next := Step(c, Mcu(im, sc, r, col), file, st, coefs);
      ClosingIsFold(c, im, sc, file, r, col + 1, next.0, next.1, E.ClosedBy(c, file, st));
      var list := Rest(im, sc, r, col);
      assert list[0] == Mcu(im, sc, r, col) && list[1..] == Rest(im, sc, r, col + 1);
    }
  }

  /** What is still to be visited and what has been visited make up the whole scan. */
  lemma {:induction false} VisitsAddUp(im: Image, sc: seq<nat>, r: nat, col: nat, i: nat)
    requires Selects(im, sc) && r <= McuRows(im, sc) && col <= McuCols(im, sc) && (r == McuRows(im, sc) ==> col == 0)
    ensures Visits(im, sc, r, col, i) + Count(Flat(Rest(im, sc, r, col)), i) == Visits(im, sc, McuRows(im, sc), 0, i)
    decreases McuRows(im, sc) - r, McuCols(im, sc) - col
  {
    hide McuRows, McuCols, Mcu, Count;
    if r == McuRows(im, sc) {
      CountNone(i);
    } else if col == McuCols(im, sc) {
      VisitsAddUp(im, sc, r + 1, 0, i);
      McuColsPositive(im, sc);
    } else {
      VisitsAddUp(im, sc, r, col + 1, i);
      var list := Rest(im, sc, r, col);
      assert list[1..] == Rest(im, sc, r, col + 1);
      CountAppend(Mcu(im, sc, r, col), Flat(list[1..]), i);
    }
  }

  lemma McuColsPositive(im: Image, sc: seq<nat>)
    requires Selects(im, sc)
    ensures McuCols(im, sc) > 0
  {
    ComponentsAgree(im, sc[0]);
  }

  /** The blocks a scan is about: the padded grid of its components when interleaved, else the unpadded one. */
  predicate InScan(im: Image, sc: seq<nat>, k: nat, y: nat, x: nat)
    requires Selects(im, sc)
  {
    InGrid(im, k, y, x) && k in sc && (|sc| > 1 || (y < HeightInBlocks(im, k) && x < WidthInBlocks(im, k)))
  }

  lemma ScanCovers(im: Image, sc: seq<nat>, k: nat, y: nat, x: nat)
    requires Selects(im, sc) && InGrid(im, k, y, x)
    ensures Index(im, k, y, x) in Flat(Rest(im, sc, 0, 0)) <==> InScan(im, sc, k, y, x)
  {
    hide Index, Rest, Flat, McuRows, McuCols, PaddedHeight, PaddedWidth, HeightInBlocks, WidthInBlocks;
    var i := Index(im, k, y, x);
    VisitsAddUp(im, sc, 0, 0, i);
    ScanVisitsOnce(im, sc, k, y, x);
    assert Visits(im, sc, 0, 0, i) == 0;
    assert i in Flat(Rest(im, sc, 0, 0)) <==> Count(Flat(Rest(im, sc, 0, 0)), i) > 0;
  }

  /** The MCUs of a single-component scan name each block once. */
  lemma {:induction false} RestAscends(im: Image, sc: seq<nat>, r: nat, col: nat)
    requires Selects(im, sc) && |sc| == 1 && col <= McuCols(im, sc)
    ensures NoRepeats(Flat(Rest(im, sc, r, col)))
    ensures forall i :: 0 <= i < |Flat(Rest(im, sc, r, col))| ==> Index(im, sc[0], r, col) <= Flat(Rest(im, sc, r, col))[i]
    decreases McuRows(im, sc) - r, McuCols(im, sc) - col
  {
    hide McuRows, McuCols, Index, PaddedWidth, Flat;
    NextBlock(im, sc, r, col);
    FlatStep(Rest(im, sc, r, col));
    if r >= McuRows(im, sc) {
    } else if col >= McuCols(im, sc) {
      RestAscends(im, sc, r + 1, 0);
    } else {
      RestAscends(im, sc, r, col + 1);
      var list := Rest(im, sc, r, col);
      assert list[0] == [Index(im, sc[0], r, col)] && list[1..] == Rest(im, sc, r, col + 1);
    }
  }

  lemma FlatStep(ms: seq<seq<nat>>)
    ensures Flat(ms) == if ms == [] then [] else ms[0] + Flat(ms[1..])
  {
  }

  /** The next block, in the row or below it, has a greater place. */
  lemma NextBlock(im: Image, sc: seq<nat>, r: nat, col: nat)
    requires Selects(im, sc) && |sc| == 1 && col <= McuCols(im, sc)
    ensures Index(im, sc[0], r, col) < Index(im, sc[0], r, col + 1)
    ensures Index(im, sc[0], r, col) <= Index(im, sc[0], r + 1, 0)
  {
    hide PaddedWidth, PaddedHeight, HeightInBlocks, WidthInBlocks, TotalImcuCols, TotalImcuRows;
    ComponentsAgree(im, sc[0]);
  }

  /** The pieces encode the scan of the image, with accepted tables. */
  ghost predicate Encoded(c: Scan, im: Image, sc: seq<nat>, img: seq<Block>, ws: seq<Piece>) {
    && Accepted(c) && RunFits(c, im, sc, |img|)
    && AllFit(c, Rest(im, sc, 0, 0), |img|) && ScanEncodes(c, img, Rest(im, sc, 0, 0), ws)
  }

  /** Before the scan, the coefficients it is about have the values they may have. */
  ghost predicate StartsReady(c: Scan, im: Image, sc: seq<nat>, img: seq<Block>, coefs: seq<Block>) {
    && Selects(im, sc) && |coefs| == |img|
    && forall b: nat :: b in Flat(Rest(im, sc, 0, 0)) ==> b < |img| && Ready(c, img[b], coefs[b])
  }

  /** These bytes stand in the file at byte pos. */
  predicate StandsIn(file: seq<Byte>, pos: nat, data: seq<Byte>) {
    pos + |data| <= |file| && file[pos..pos + |data|] == data
  }

  /** The state of a decoder whose scan starts at byte pos. */
  ghost function Opening(c: Scan, file: seq<Byte>, pos: nat): State {
    Standing(SegmentAt(file, pos), 0, 0, NO_DC, c.restartInterval, 0)
  }

  /** The marker that closes a scan whose data begin at byte pos, and the position after it. */
  ghost function ClosedAt(c: Scan, im: Image, sc: seq<nat>, file: seq<Byte>, pos: nat, coefs: seq<Block>): Ending
    requires RunFits(c, im, sc, |coefs|)
  {
    Closing(c, im, sc, file, 0, 0, Opening(c, file, pos), coefs, EndOf(SegmentAt(file, pos)))
  }

  /** It lies behind the scan header. */
  lemma ClosedLater(c: Scan, im: Image, sc: seq<nat>, file: seq<Byte>, pos: nat, coefs: seq<Block>)
    requires RunFits(c, im, sc, |coefs|)
    ensures Later(ClosedAt(c, im, sc, file, pos, coefs), pos, |file|)
  {
    hide Closing, SegmentAt;
    ClosingLater(c, im, sc, file, 0, 0, Opening(c, file, pos), coefs, EndOf(SegmentAt(file, pos)), pos);
  }

  /** The whole scan is orderly. */
  ghost predicate ScanOrderly(c: Scan, im: Image, sc: seq<nat>, file: seq<Byte>, st: State, coefs: seq<Block>, sized: bool)
    requires RunFits(c, im, sc, |coefs|)
  {
    RunIsFold(c, im, sc, file, 0, 0, st, coefs);
    Orderly(c, Rest(im, sc, 0, 0), file, st, coefs, sized)
  }

  /** The coefficients a controller will end with on an encoded scan, whatever bytes arrive when, are those of the
      encoded image to the accuracy of the scan, for the blocks and coefficients it is about, and all others as they
      were. The scan is also complete: nothing is waited for once the marker after it has arrived, and that marker is
      what the decoder has before it at the end. Its runs stay in the band and, unless the image holds the most negative
      number as an AC coefficient, the sizes of its values fit. */
  lemma EncodedScanComesBack(c: Scan, im: Image, sc: seq<nat>, img: seq<Block>, ws: seq<Piece>, coefs: seq<Block>,
                             pre: seq<Byte>, m: Marker, rest: seq<Byte>, file: seq<Byte>)
    requires Encoded(c, im, sc, img, ws) && StartsReady(c, im, sc, img, coefs)
    requires file == pre + ScanBytes(c.restartInterval, ws, 0) + [FILL, m] + rest
    ensures Complete(c, im, sc, file, 0, 0, Opening(c, file, |pre|), coefs)
    ensures Run(c, im, sc, file, 0, 0, Opening(c, file, |pre|), coefs).1 == Sent(c, img, Flat(Rest(im, sc, 0, 0)), coefs)
    ensures ScanOrderly(c, im, sc, file, Opening(c, file, |pre|), coefs, Moderate(img))
    ensures ClosedAt(c, im, sc, file, |pre|, coefs) == Ending(m, |pre| + |ScanBytes(c.restartInterval, ws, 0)| + 2)
  {
    hide Closing, LastEnd, EndOf;
    hide Run, Complete, Rest, Flat, Fold, Terminates, Orderly, Moderate, SegmentAt, ScanBytes, Standing, Accepted, AllFit, ScanEncodes, Sent, Ready;
    var list := Flat(Rest(im, sc, 0, 0));
    assert AllReady(c, img, coefs, list) by {
      if c.mode.ACRefine? {
        OneComponent(c, im, sc);
        RestAscends(im, sc, 0, 0);
      }
      assert forall i :: 0 <= i < |list| ==> list[i] in list;
    }
    hide RunFits, AllReady;
    RunIsFold(c, im, sc, file, 0, 0, Opening(c, file, |pre|), coefs);
    ClosingIsFold(c, im, sc, file, 0, 0, Opening(c, file, |pre|), coefs, EndOf(SegmentAt(file, |pre|)));
    ScanRead(c, img, Rest(im, sc, 0, 0), ws, 0, pre, m, rest, coefs);
  }

  /** An AC scan has one component. */
  lemma OneComponent(c: Scan, im: Image, sc: seq<nat>)
    requires RunFits(c, im, sc, TotalBlocks(im)) && (c.mode.ACFirst? || c.mode.ACRefine?)
    ensures |sc| == 1
  {
    hide McuWidth, McuHeight;
    if |sc| > 1 {
      MembershipGrows(im, sc, 2, |sc|);
      PartsCount(im, sc, 1);
      PartsCount(im, sc, 0);
    }
  }

  lemma PartsCount(im: Image, sc: seq<nat>, n: nat)
    requires Selects(im, sc) && n < |sc|
    ensures |Membership(im, sc, n + 1)| > |Membership(im, sc, n)|
  {
    var h, w := McuHeight(im, sc, sc[n]), McuWidth(im, sc, sc[n]);
    hide McuWidth, McuHeight;
    RowsApart(0, h, w);
  }

  /** Read block by block: those of the scan come back, the others stay. */
  lemma SentBlock(c: Scan, im: Image, sc: seq<nat>, img: seq<Block>, coefs: seq<Block>, k: nat, y: nat, x: nat)
    requires Selects(im, sc) && |coefs| == |img| == TotalBlocks(im) && InGrid(im, k, y, x)
    ensures var i := Index(im, k, y, x);
            && i < |img| && Sent(c, img, Flat(Rest(im, sc, 0, 0)), coefs)[i]
            == if InScan(im, sc, k, y, x) then Known(c, img[i], coefs[i]) else coefs[i]
  {
    hide Index, PaddedHeight, PaddedWidth, Rest, Flat, InScan, Known;
    IndexInside(im, k, y, x);
    ScanCovers(im, sc, k, y, x);
  }
}
