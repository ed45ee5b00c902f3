/** Reading a scan from behind its header to its end: start_input_pass, and consume_data as often as bytes arrive
    (jdinput.c, jdcoefct.c, jdhuff.c, jdphuff.c). */
module ScanReader {
  import opened HuffmanTable
  import opened ByteStream
  import opened Coefficients
  import opened EntropySpec
  import opened ScanEncoder
  import opened ScanGeometry
  import opened CoefController
  import opened RoundTrip
  import B = BitReader
  import E = EntropyDecoder

  /** A scan that the entropy decoder can hold is not refused by per_scan_setup. */
  lemma SetupAccepts(c: Scan, im: Image, sc: seq<nat>)
    requires RunFits(c, im, sc, TotalBlocks(im))
    ensures |sc| <= MAX_COMPS_IN_SCAN && |Membership(im, sc, |sc|)| <= D_MAX_BLOCKS_IN_MCU
  {
    hide McuWidth, McuHeight;
    var n := |sc| - 1;
    var size := Times(McuHeight(im, sc, sc[n]), McuWidth(im, sc, sc[n]));
    RowsApart(0, McuHeight(im, sc, sc[n]), McuWidth(im, sc, sc[n]));
    assert size > 0;
    assert c.membership[|Membership(im, sc, n)|] == n;
  }

  /** start_input_pass: per_scan_setup, start_pass of the entropy decoder and of the coefficient controller. */
  method StartInputPass(c: Scan, im: Image, sc: seq<nat>, br: B.BitReader, coefs: array<Block>)
    returns (ok: bool, ctl: CoefController?)
    requires RunFits(c, im, sc, coefs.Length) && br.AfterHeader(br.srcPos)
    modifies br
    ensures ok <==> E.TablesAccepted(c)
    ensures br.avail == old(br.avail)
    ensures ok ==>
              && ctl != null && fresh(ctl) && fresh(ctl.entropy) && ctl.Valid() && !ctl.finished && ctl.inputImcuRow == 0
              && ctl.im == im && ctl.sc == sc && ctl.entropy.scan == c && ctl.entropy.br == br && ctl.entropy.coefs == coefs
              && var st := Opening(c, br.file, old(br.srcPos));
                 && ctl.Final() == Run(c, im, sc, br.file, 0, 0, st, coefs[..])
                 && ctl.WellFormed() == Complete(c, im, sc, br.file, 0, 0, st, coefs[..])
                 && ctl.Close() == ClosedAt(c, im, sc, br.file, old(br.srcPos), coefs[..])
  {
    hide Closing, EndOf, CoefController.Close;
    hide SegmentAt, Run, Complete, CoefController.Valid, CoefController.Final, CoefController.WellFormed;
    ctl := null;
    var setUp, layout := PerScanSetup(im, sc);
    SetupAccepts(c, im, sc);
    var entropy: E.EntropyDecoder?;
    ok, entropy := E.StartPass(br, c, coefs);
    if !ok {
      return;
    }
    ctl := new CoefController(im, sc, layout, entropy);
  }

  /** Reads a scan from behind its header, its bytes arriving in the given pieces. A finished scan has the coefficients that
      decoding the whole file gives, and the marker reader before the marker that closes it; a terminated one is finished once
      all bytes have arrived. */
  method DecodeScan(c: Scan, im: Image, sc: seq<nat>, br: B.BitReader, coefs: array<Block>, arrivals: seq<nat>)
    returns (ok: bool, finished: bool)
    requires RunFits(c, im, sc, coefs.Length) && br.AfterHeader(br.srcPos)
    modifies br, coefs
    ensures ok <==> E.TablesAccepted(c)
    ensures finished ==> ok && coefs[..] == Run(c, im, sc, br.file, 0, 0, Opening(c, br.file, old(br.srcPos)), old(coefs[..])).1
    ensures finished ==> br.Ahead() == ClosedAt(c, im, sc, br.file, old(br.srcPos), old(coefs[..]))
    ensures ok && |br.file| <= old(br.avail) + Sum(arrivals) ==>
              Complete(c, im, sc, br.file, 0, 0, Opening(c, br.file, old(br.srcPos)), old(coefs[..])) ==> finished
  {
    hide Run, Complete, Opening, RunFits, CoefController.Valid, CoefController.Final, CoefController.WellFormed, Sum, E.EntropyDecoder.Current;
    hide ClosedAt, CoefController.Close, B.BitReader.Ahead;
    var ctl: CoefController?;
    finished := false;
    ok, ctl := StartInputPass(c, im, sc, br, coefs);
    if !ok {
      return;
    }
    ctl.ReadScan(arrivals);
    finished := ctl.finished;
  }

  /** Reading an encoded scan of any kind, in whatever pieces its bytes arrive: it finishes, and leaves the coefficients
      that it is about as they were encoded, to the accuracy of the scan, and all others as they were. What the marker
      reader meets next is the marker that closes the scan. */
  method DecodeEncodedScan(c: Scan, im: Image, sc: seq<nat>, br: B.BitReader, coefs: array<Block>, arrivals: seq<nat>,
                           ghost img: seq<Block>, ghost ws: seq<Piece>, ghost m: Marker) returns (finished: bool)
    requires RunFits(c, im, sc, coefs.Length) && br.AfterHeader(br.srcPos) && E.TablesAccepted(c)
    requires Encoded(c, im, sc, img, ws) && StartsReady(c, im, sc, img, coefs[..])
    requires StandsIn(br.file, br.srcPos, ScanBytes(c.restartInterval, ws, 0) + [FILL, m])
    requires |br.file| <= br.avail + Sum(arrivals)
    modifies br, coefs
    ensures finished && coefs[..] == Sent(c, img, Flat(Rest(im, sc, 0, 0)), old(coefs[..]))
    ensures br.Ahead() == Ending(m, old(br.srcPos) + |ScanBytes(c.restartInterval, ws, 0)| + 2)
    ensures forall k: nat, y: nat, x: nat {:trigger Index(im, k, y, x)} :: InGrid(im, k, y, x) ==>
              var i := Index(im, k, y, x);
              && i < coefs.Length == |img|
              && coefs[i] == if InScan(im, sc, k, y, x) then Known(c, img[i], old(coefs[..])[i]) else old(coefs[..])[i]
  {
    hide ClosedAt, B.BitReader.Ahead;
    hide Run, Complete, Opening, RunFits, Sum, Sent, Flat, Rest, Index, InScan, Known, ScanBytes, StartsReady, Encoded, PaddedHeight, PaddedWidth;
    EncodedFits(c, im, sc, img, ws, coefs.Length);
    ghost var file, pos, data := br.file, br.srcPos, ScanBytes(c.restartInterval, ws, 0);
    ghost var pre, rest := file[..pos], file[pos + |data| + 2..];
    assert file == pre + data + [FILL, m] + rest;
    EncodedScanComesBack(c, im, sc, img, ws, coefs[..], pre, m, rest, file);
    ghost var was := coefs[..];
    var ok;
    ok, finished := DecodeScan(c, im, sc, br, coefs, arrivals);
    forall k: nat, y: nat, x: nat | InGrid(im, k, y, x)
      ensures var i := Index(im, k, y, x);
              && i < coefs.Length == |img|
              && coefs[i] == if InScan(im, sc, k, y, x) then Known(c, img[i], was[i]) else was[i]
    {
      SentBlock(c, im, sc, img, was, k, y, x);
    }
  }

  lemma EncodedFits(c: Scan, im: Image, sc: seq<nat>, img: seq<Block>, ws: seq<Piece>, n: nat)
    requires Encoded(c, im, sc, img, ws) && RunFits(c, im, sc, n)
    ensures Selects(im, sc) && n == |img| == TotalBlocks(im)
  {
  }
}
