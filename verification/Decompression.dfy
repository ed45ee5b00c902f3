/** A whole multi-scan file, decoded from pieces by the controllers: what the scans of the file encode is what the
    coefficients end up as (jdapistd.c, jdinput.c, jdcoefct.c, jdhuff.c, jdphuff.c). */
module Decompression {
  import opened HuffmanTable
  import opened ByteStream
  import opened Coefficients
  import opened EntropySpec
  import opened ScanEncoder
  import opened ScanGeometry
  import opened CoefController
  import opened RoundTrip
  import opened ScanReader
  import opened Progression
  import opened Pacing
  import B = BitReader
  import E = EntropyDecoder

  ghost predicate AllTablesAccepted(passes: seq<Pass>) {
    forall i :: 0 <= i < |passes| ==> E.TablesAccepted(passes[i].c)
  }

  /** From the marker ahead on, possibly over tables, the header of the next scan is found; behind its data that of the one after
      it, and so on; behind the last, EOI. */
  ghost predicate Chained(headers: Headers, file: seq<Byte>, ahead: Ending, rest: seq<Pass>, data: seq<seq<Piece>>)
    requires |data| == |rest| && forall i :: 0 <= i < |rest| ==> Written(rest[i], data[i], file)
    decreases |rest|
  {
    var h := Found(headers, file, ahead).0;
    if rest == [] then h.Eoi?
    else
      h == Sos(rest[0].c, rest[0].sc, rest[0].pos) && Chained(headers, file, Behind(rest[0], data[0], file), rest[1..], data[1..])
  }

  /** The scans of the file encode the image, and their headers are where reading them comes by. */
  ghost predicate FileEncodes(passes: seq<Pass>, headers: Headers, data: seq<seq<Piece>>, im: Image, img: seq<Block>, file: seq<Byte>) {
    && passes != [] && AllEncoded(passes, data, im, img, file) && Legal(passes, im) && AllTablesAccepted(passes)
    && HeadersFit(headers, im, |img|, |file|)
    && Chained(headers, file, Behind(passes[0], data[0], file), passes[1..], data[1..])
  }

  lemma {:induction false} LegalPrefix(passes: seq<Pass>, n: nat, im: Image)
    requires Legal(passes, im) && n <= |passes|
    ensures Legal(passes[..n], im)
    decreases |passes|
  {
    hide Touches, Follows, After;
    if n < |passes| {
      LegalPrefix(passes[..|passes| - 1], n, im);
      assert passes[..|passes| - 1][..n] == passes[..n];
    } else {
      assert passes[..n] == passes;
    }
  }

  lemma FirstEncoded(passes: seq<Pass>, n: nat, data: seq<seq<Piece>>, im: Image, img: seq<Block>, file: seq<Byte>)
    requires AllEncoded(passes, data, im, img, file) && n <= |passes|
    ensures AllEncoded(passes[..n], data[..n], im, img, file)
    ensures |data| == |passes| && forall i :: n <= i < |passes| ==> Written(passes[i], data[i], file)
  {
    hide Encoded, Written;
  }

  /** The next scan of an encoded file, after the first n: what it makes of what they have made, where it ends, and that it is
      well terminated. */
  lemma NextScan(passes: seq<Pass>, n: nat, data: seq<seq<Piece>>, im: Image, img: seq<Block>, file: seq<Byte>, coefs: seq<Block>)
    requires |coefs| == |img| && n < |passes| && AllEncoded(passes, data, im, img, file) && Legal(passes, im)
    requires forall b :: 0 <= b < |coefs| ==> AllZero(coefs[b])
    ensures AllFitImage(passes[..n], im, |coefs|) && AllFitImage(passes[..n + 1], im, |coefs|)
    ensures var p, was := passes[n], Progression.Decoded(passes[..n], im, file, coefs);
            && Written(p, data[n], file) && RunFits(p.c, im, p.sc, |coefs|)
            && Complete(p.c, im, p.sc, file, 0, 0, Opening(p.c, file, p.pos), was)
            && Run(p.c, im, p.sc, file, 0, 0, Opening(p.c, file, p.pos), was).1 == Progression.Decoded(passes[..n + 1], im, file, coefs)
            && ClosedAt(p.c, im, p.sc, file, p.pos, was) == Behind(p, data[n], file)
  {
    hide RunFits, Run, Opening, Complete, Encoded, Written, Legal, KnownTo, ClosedAt, StartsReady, Behind, AllZero, Touches, Follows, After;
    var init, more := passes[..n], passes[..n + 1];
    assert more[..|more| - 1] == init && more[|more| - 1] == passes[n];
    LegalPrefix(passes, n, im);
    LegalPrefix(passes, n + 1, im);
    FirstEncoded(passes, n, data, im, img, file);
    FirstEncoded(passes, n + 1, data, im, img, file);
    FitsOf(init, data[..n], im, img, file);
    FitsOf(more, data[..n + 1], im, img, file);
    ProgressionComesBack(init, data[..n], im, img, file, coefs);
    LastFollows(more, im);
    PassReady(init, passes[n], data[n], im, img, Progression.Decoded(init, im, file, coefs));
    PassDecoded(passes[n], data[n], im, img, file, Progression.Decoded(init, im, file, coefs));
  }

  /** Reading on from the marker behind the first n scans is decoding the list of passes to its end. */
  lemma {:induction false} ScansArePasses(passes: seq<Pass>, n: nat, headers: Headers, ahead: Ending, data: seq<seq<Piece>>, im: Image,
                                          img: seq<Block>, file: seq<Byte>, coefs: seq<Block>)
    requires |coefs| == |img| && n <= |passes| && AllEncoded(passes, data, im, img, file) && Legal(passes, im) && AllTablesAccepted(passes)
    requires forall b :: 0 <= b < |coefs| ==> AllZero(coefs[b])
    requires HeadersFit(headers, im, |coefs|, |file|)
    requires forall i :: n <= i < |passes| ==> Written(passes[i], data[i], file)
    requires Chained(headers, file, ahead, passes[n..], data[n..])
    ensures AllFitImage(passes[..n], im, |coefs|) && AllFitImage(passes, im, |coefs|)
    ensures AllScans(headers, im, file, ahead, Progression.Decoded(passes[..n], im, file, coefs)) == Progression.Decoded(passes, im, file, coefs)
    ensures AllComplete(headers, true, im, file, ahead, Progression.Decoded(passes[..n], im, file, coefs))
    ensures n == |passes| ==> AllComplete(headers, false, im, file, ahead, Progression.Decoded(passes[..n], im, file, coefs))
    decreases |passes| - n
  {
    hide RunFits, Run, Opening, Complete, Encoded, Written, E.TablesAccepted, Legal, ClosedAt, Found, Left, AllScans, AllComplete;
    hide HeadersFit, Behind, Progression.Decoded, AllZero;
    FitsOf(passes, data, im, img, file);
    var was := Progression.Decoded(passes[..n], im, file, coefs);
    if n == |passes| {
      assert passes[..n] == passes;
      NoMoreScans(headers, true, im, file, ahead, was);
      NoMoreScans(headers, false, im, file, ahead, was);
    } else {
      var p := passes[n];
      var (h, at) := Found(headers, file, ahead);
      assert passes[n..][0] == p && data[n..][0] == data[n] && passes[n..][1..] == passes[n + 1..] && data[n..][1..] == data[n + 1..];
      NextScan(passes, n, data, im, img, file, coefs);
      OneScan(headers, true, im, file, ahead, was, h, at);
      ScansArePasses(passes, n + 1, headers, Behind(p, data[n], file), data, im, img, file, coefs);
    }
  }

  /** What the decompressor finds behind the first scan header. */
  lemma FirstScan(passes: seq<Pass>, headers: Headers, data: seq<seq<Piece>>, im: Image, img: seq<Block>, file: seq<Byte>, coefs: seq<Block>)
    requires |coefs| == |img| && FileEncodes(passes, headers, data, im, img, file)
    requires forall b :: 0 <= b < |coefs| ==> AllZero(coefs[b])
    ensures AllFitImage(passes, im, |coefs|) && KnownTo(passes, im, img, Progression.Decoded(passes, im, file, coefs))
    ensures var p := passes[0];
            && RunFits(p.c, im, p.sc, |coefs|) && E.TablesAccepted(p.c) && HeadersFit(headers, im, |coefs|, |file|)
            && var st, ahead := Opening(p.c, file, p.pos), ClosedAt(p.c, im, p.sc, file, p.pos, coefs);
               var next := Run(p.c, im, p.sc, file, 0, 0, st, coefs).1;
               && Complete(p.c, im, p.sc, file, 0, 0, st, coefs)
               && AllComplete(headers, |passes| > 1, im, file, ahead, next)
               && AllScans(headers, im, file, ahead, next) == Progression.Decoded(passes, im, file, coefs)
  {
    hide RunFits, Run, Opening, Complete, Encoded, Written, E.TablesAccepted, Legal, KnownTo, AllZero, ClosedAt, Behind;
    hide AllScans, AllComplete, HeadersFit, Chained, AllFitImage;
    ProgressionComesBack(passes, data, im, img, file, coefs);
    NextScan(passes, 0, data, im, img, file, coefs);
    FirstEncoded(passes, 1, data, im, img, file);
    assert passes[..0] == [];
    ScansArePasses(passes, 1, headers, Behind(passes[0], data[0], file), data, im, img, file, coefs);
  }

  /** The decompressor once the first scan header has been read. */
  method Open(first: Pass, multiple: bool, headers: Headers, im: Image, br: B.BitReader, coefs: array<Block>,
              ghost passes: seq<Pass>, ghost data: seq<seq<Piece>>, ghost img: seq<Block>)
    returns (d: Decompressor)
    requires FileEncodes(passes, headers, data, im, img, br.file) && br.AfterHeader(first.pos) && coefs.Length == |img|
    requires first == passes[0] && multiple == (|passes| > 1)
    requires forall b :: 0 <= b < coefs.Length ==> AllZero(coefs[b])
    modifies br
    ensures fresh(d) && fresh(d.ctl) && fresh(d.ctl.entropy) && d.br == br && d.coefs == coefs && d.Valid() && br.avail == old(br.avail)
    ensures d.im == im && AllFitImage(passes, im, coefs.Length)
    ensures d.Outcome() == Progression.Decoded(passes, im, br.file, coefs[..]) && d.Readable()
  {
    hide RunFits, Run, Opening, Complete, E.TablesAccepted, AllEncoded, Legal, AllScans, AllComplete, HeadersFit, AllZero, KnownTo, ClosedAt, FileEncodes;
    hide CoefController.Valid, CoefController.Final, CoefController.WellFormed, CoefController.Close, TotalImcuRows, B.BitReader.Ahead;
    FirstScan(passes, headers, data, im, img, br.file, coefs[..]);
    var ok: bool, ctl: CoefController?;
    ok, ctl := StartInputPass(first.c, im, first.sc, br, coefs);
    d := new Decompressor(im, multiple, ctl, headers);
  }

  /** Decodes a file of encoded scans that arrives in the given pieces, from zeroed coefficients: each scan header is found by the
      marker reader from where the scan before it stopped, it finishes, and every coefficient is known to the accuracy that the
      progression has sent; if it has sent everything, the image is restored. */
  method DecompressEncoded(first: Pass, multiple: bool, headers: Headers, im: Image, br: B.BitReader, coefs: array<Block>, arrivals: seq<nat>,
                           ghost passes: seq<Pass>, ghost data: seq<seq<Piece>>, ghost img: seq<Block>) returns (finished: bool)
    requires FileEncodes(passes, headers, data, im, img, br.file) && br.AfterHeader(first.pos) && coefs.Length == |img|
    requires first == passes[0] && multiple == (|passes| > 1)
    requires forall b :: 0 <= b < coefs.Length ==> AllZero(coefs[b])
    requires |br.file| <= br.avail + Sum(arrivals)
    modifies br, coefs
    ensures finished && KnownTo(passes, im, img, coefs[..])
    ensures (forall b: nat, i: nat :: b < |img| && i < 64 ==> After(passes, im, b, i) == AllBut(0)) ==> coefs[..] == img
  {
    hide AllEncoded, Legal, After, AllScans, AllComplete, HeadersFit, KnownTo, AllZero, Progression.Decoded, AllTablesAccepted, FileEncodes;
    hide Decompressor.Valid, Decompressor.Outcome, Decompressor.Readable, AllFitImage, ClosedAt, Run, Complete, Opening, RunFits;
    ghost var was, file, before := coefs[..], br.file, br.avail;
    FirstScan(passes, headers, data, im, img, file, was);
    var d := Open(first, multiple, headers, im, br, coefs, passes, data, img);
    ghost var result := Progression.Decoded(passes, im, file, was);
    var c := d.StartDecompress();
    var i := 0;
    assert arrivals[..0] == [];
    while c.Suspended? && i < |arrivals|
      invariant 0 <= i <= |arrivals| && d.Valid() && d.Outcome() == result && d.Readable()
      invariant d.br == br && d.coefs == coefs && fresh(d) && fresh(d.ctl) && fresh(d.ctl.entropy) && br.file == file
      invariant br.avail <= |file| && (br.avail == |file| || br.avail == before + Sum(arrivals[..i]))
      invariant c.Suspended? ==> !d.AllDelivered()
      invariant c.Suspended? || (c.ScanCompleted? && coefs[..] == result)
    {
      assert arrivals[..i + 1][..i] == arrivals[..i];
      d.Deliver(arrivals[i]);
      c := d.StartDecompress();
      i := i + 1;
    }
    assert i == |arrivals| ==> arrivals[..i] == arrivals;
    finished := c.ScanCompleted?;
    KnownAll(passes, im, img, coefs[..]);
  }

  lemma KnownAll(passes: seq<Pass>, im: Image, img: seq<Block>, coefs: seq<Block>)
    requires KnownTo(passes, im, img, coefs)
    ensures (forall b: nat, i: nat :: b < |img| && i < 64 ==> After(passes, im, b, i) == AllBut(0)) ==> coefs == img
  {
    hide After;
    if forall b: nat, i: nat :: b < |img| && i < 64 ==> After(passes, im, b, i) == AllBut(0) {
      forall b: nat, i: nat | b < |img| && i < 64
        ensures coefs[b][i] == img[b][i]
      {
        PointTransform.Whole(img[b][i]);
      }
      SameCells(coefs, img);
    }
  }
}
