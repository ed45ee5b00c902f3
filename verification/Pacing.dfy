/** Pacing of input and output for multi-scan files: the input controller as a state machine over the scans of a file
    that arrives in pieces, and the loops of the output side that drive it (jdinput.c, jdcoefct.c, jdapistd.c, jdmarker.c). */
module Pacing {
  import opened HuffmanTable
  import opened ByteStream
  import opened Coefficients
  import opened EntropySpec
  import opened ScanGeometry
  import opened CoefController
  import opened RoundTrip
  import opened ScanReader
  import opened Progression
  import B = BitReader
  import E = EntropyDecoder

  /** What stands behind a marker: the header of a scan, tables or the like, which end at byte next; the end of the image; or
      what the decoder does not accept. */
  datatype Header = Sos(c: Scan, sc: seq<nat>, next: nat) | Tables(next: nat) | Eoi | Unknown

  /** The headers of a file, by the position behind their marker. */
  type Headers = map<nat, Header>

  /** Return codes; Failed is an error exit, which ends the run. */
  datatype Code = Suspended | ReachedSos | ReachedEoi | RowCompleted | ScanCompleted | Failed

  const M_SOS: Byte := 0xDA
  const M_EOI: Byte := 0xD9

  const NOWHERE := Ending(0, 0)

  /** EOI has no parameters, and SOS is what begins a scan. */
  function HeaderAt(headers: Headers, e: Ending): Header {
    if e.marker == M_EOI then Eoi
    else if e.after !in headers then Unknown
    else
      var h := headers[e.after];
      if (h.Sos? && e.marker == M_SOS) || (h.Tables? && e.marker != M_SOS) then h else Unknown
  }

  /** In numbers: FF D9 is the end of the image and nothing else is; a scan begins at FF DA only, and nothing else begins there. */
  lemma MarkersMean(headers: Headers, e: Ending)
    requires e.after in headers ==> !headers[e.after].Eoi?
    ensures HeaderAt(headers, e) == Eoi <==> e.marker == 0xD9
    ensures HeaderAt(headers, e).Sos? <==> e.marker == 0xDA && e.after in headers && headers[e.after].Sos?
    ensures HeaderAt(headers, e).Tables? ==> e.marker != 0xDA && e.after in headers && headers[e.after] == HeaderAt(headers, e)
  {
  }

  ghost predicate HeadersFit(headers: Headers, im: Image, n: nat, size: nat) {
    forall at :: at in headers ==>
      && (headers[at].Sos? || headers[at].Tables? ==> at <= headers[at].next <= size)
      && (headers[at].Sos? ==> RunFits(headers[at].c, im, headers[at].sc, n))
  }

  /** How much of the file lies behind a marker. */
  function Left(file: seq<Byte>, ahead: Ending): nat {
    if ahead.marker == 0 || ahead.after > |file| then 0 else 1 + |file| - ahead.after
  }

  /** read_markers over the whole file: the first scan header or EOI that is met when this marker is ahead, and where; Unknown if
      there is none. */
  ghost function Found(headers: Headers, file: seq<Byte>, ahead: Ending): (r: (Header, Ending))
    ensures !r.0.Tables?
    ensures !r.0.Unknown? ==> HeaderAt(headers, r.1) == r.0 && ahead.marker != 0 && ahead.after <= r.1.after <= |file|
    decreases Left(file, ahead)
  {
    if Left(file, ahead) == 0 then (Unknown, NOWHERE)
    else
      var h := HeaderAt(headers, ahead);
      if h.Tables? then if ahead.after <= h.next then Found(headers, file, EndOf(SegmentAt(file, h.next))) else (Unknown, NOWHERE)
      else (h, ahead)
  }

  /** What the scans up to EOI, or up to where no further one is found, make of the coefficients. */
  ghost function AllScans(headers: Headers, im: Image, file: seq<Byte>, ahead: Ending, coefs: seq<Block>): seq<Block>
    requires HeadersFit(headers, im, |coefs|, |file|)
    decreases Left(file, ahead)
  {
    var (h, at) := Found(headers, file, ahead);
    if !h.Sos? then coefs
    else
      ClosedLater(h.c, im, h.sc, file, h.next, coefs);
      AllScans(headers, im, file, ClosedAt(h.c, im, h.sc, file, h.next, coefs), Run(h.c, im, h.sc, file, 0, 0, Opening(h.c, file, h.next), coefs).1)
  }

  /** EOI comes, and every scan before it is terminated, has acceptable tables and may come. */
  ghost predicate AllComplete(headers: Headers, multiple: bool, im: Image, file: seq<Byte>, ahead: Ending, coefs: seq<Block>)
    requires HeadersFit(headers, im, |coefs|, |file|)
    decreases Left(file, ahead)
  {
    var (h, at) := Found(headers, file, ahead);
    if !h.Sos? then h.Eoi?
    else
      ClosedLater(h.c, im, h.sc, file, h.next, coefs);
      var st := Opening(h.c, file, h.next);
      && multiple && E.TablesAccepted(h.c) && Complete(h.c, im, h.sc, file, 0, 0, st, coefs)
      && AllComplete(headers, multiple, im, file, ClosedAt(h.c, im, h.sc, file, h.next, coefs), Run(h.c, im, h.sc, file, 0, 0, st, coefs).1)
  }

  /** One scan of these. */
  lemma OneScan(headers: Headers, multiple: bool, im: Image, file: seq<Byte>, ahead: Ending, coefs: seq<Block>, h: Header, at: Ending)
    requires HeadersFit(headers, im, |coefs|, |file|) && Found(headers, file, ahead) == (h, at) && h.Sos?
    ensures RunFits(h.c, im, h.sc, |coefs|) && at.after <= h.next <= |file|
    ensures var st, next := Opening(h.c, file, h.next), ClosedAt(h.c, im, h.sc, file, h.next, coefs);
            var now := Run(h.c, im, h.sc, file, 0, 0, st, coefs).1;
            && Left(file, next) < Left(file, ahead)
            && AllScans(headers, im, file, ahead, coefs) == AllScans(headers, im, file, next, now)
            && AllComplete(headers, multiple, im, file, ahead, coefs)
            == (multiple && E.TablesAccepted(h.c) && Complete(h.c, im, h.sc, file, 0, 0, st, coefs)
                && AllComplete(headers, multiple, im, file, next, now))
  {
    hide Found, RunFits, Run, Opening, Complete, ClosedAt, E.TablesAccepted;
    ClosedLater(h.c, im, h.sc, file, h.next, coefs);
  }

  /** Only the first scan header or EOI that is found matters. */
  lemma SameFound(headers: Headers, multiple: bool, im: Image, file: seq<Byte>, a: Ending, b: Ending, coefs: seq<Block>)
    requires HeadersFit(headers, im, |coefs|, |file|) && Found(headers, file, a) == Found(headers, file, b)
    ensures AllScans(headers, im, file, a, coefs) == AllScans(headers, im, file, b, coefs)
    ensures AllComplete(headers, multiple, im, file, a, coefs) == AllComplete(headers, multiple, im, file, b, coefs)
  {
    hide Found, RunFits, Run, Opening, Complete, ClosedAt, E.TablesAccepted;
  }

  lemma NoMoreScans(headers: Headers, multiple: bool, im: Image, file: seq<Byte>, ahead: Ending, coefs: seq<Block>)
    requires HeadersFit(headers, im, |coefs|, |file|) && !Found(headers, file, ahead).0.Sos?
    ensures AllScans(headers, im, file, ahead, coefs) == coefs
    ensures AllComplete(headers, multiple, im, file, ahead, coefs) == Found(headers, file, ahead).0.Eoi?
  {
    hide Found, RunFits, Run, Opening, Complete, ClosedAt, E.TablesAccepted;
  }

  /** A header at the marker ahead is the one that is found; tables are passed over. */
  lemma FoundAt(headers: Headers, file: seq<Byte>, marker: Byte, at: nat)
    requires marker != 0 && at <= |file|
    ensures var h := HeaderAt(headers, Ending(marker, at));
            Found(headers, file, Ending(marker, at))
            == if h.Tables? then if at <= h.next then Found(headers, file, EndOf(SegmentAt(file, h.next))) else (Unknown, NOWHERE) else (h, Ending(marker, at))
  {
    hide SegmentAt;
  }

  lemma HeaderFits(headers: Headers, e: Ending, im: Image, n: nat, size: nat)
    requires HeadersFit(headers, im, n, size)
    ensures var h := HeaderAt(headers, e); h.Sos? || h.Tables? ==> e.after <= h.next <= size
  {
    hide RunFits;
  }

  lemma NothingAhead(headers: Headers, file: seq<Byte>, ahead: Ending)
    requires ahead.marker == 0
    ensures Found(headers, file, ahead) == (Unknown, NOWHERE)
  {
  }

  class Decompressor {
    const im: Image
    const hasMultipleScans: bool
    const br: B.BitReader
    const coefs: array<Block>

    /** What the marker reader makes of the markers outside the scans. */
    const headers: Headers

    // input side
    var inputScanNumber: nat
    /** The controller of the present scan; consume_input points to consume_data until it is finished, then to consume_markers. */
    var ctl: CoefController
    var eoiReached: bool

    // output side
    var outputScanNumber: nat
    var outputImcuRow: nat

    /** The first scan header has been read: start_input_pass succeeded. */
    constructor (im: Image, hasMultipleScans: bool, ctl: CoefController, headers: Headers)
      requires ctl.Valid() && !ctl.finished && ctl.im == im
      requires HeadersFit(headers, im, ctl.entropy.coefs.Length, |ctl.entropy.br.file|)
      ensures Valid() && this.im == im && this.ctl == ctl && this.br == ctl.entropy.br && this.coefs == ctl.entropy.coefs
      ensures this.hasMultipleScans == hasMultipleScans && this.headers == headers && !eoiReached && outputImcuRow == 0
    {
      this.im, this.hasMultipleScans, this.ctl, this.headers := im, hasMultipleScans, ctl, headers;
      br, coefs := ctl.entropy.br, ctl.entropy.coefs;
      inputScanNumber, eoiReached, outputScanNumber, outputImcuRow := 1, false, 1, 0;
    }

    predicate ReadingData()
      reads this, ctl
    {
      !ctl.finished
    }

    /** The controller works on this image; after the last row of a scan it is finished with it, and the marker reader goes on. */
    ghost predicate ControlledBy()
      reads this, ctl, ctl.entropy, br
    {
      && ctl.im == im && ctl.entropy.br == br && ctl.entropy.coefs == coefs && (ReadingData() ==> ctl.Valid())
      && ctl.inputImcuRow <= TotalImcuRows(im) && (ReadingData() <==> ctl.inputImcuRow < TotalImcuRows(im))
      && br.srcPos <= br.avail <= |br.file|
    }

    /** Between scans, and after EOI, the current scan has been read completely; and EOI leaves no output scan to wait for. */
    ghost predicate Valid()
      reads this, ctl, ctl.entropy, br
    {
      && ControlledBy() && inputScanNumber > 0 && HeadersFit(headers, im, coefs.Length, |br.file|)
      && (eoiReached ==> !ReadingData() && outputScanNumber <= inputScanNumber)
    }

    /** The marker that is met first after the present scan, or now. */
    ghost function Ahead(): Ending
      requires Valid()
      reads this, ctl, ctl.entropy, br, coefs
    {
      if ReadingData() then ctl.Close() else br.Ahead()
    }

    /** The coefficients as the present scan will leave them. */
    ghost function Present(): (r: seq<Block>)
      requires Valid()
      reads this, ctl, ctl.entropy, br, coefs
      ensures |r| == coefs.Length
    {
      if ReadingData() then ctl.Final().1 else coefs[..]
    }

    /** What the coefficients will finally be, however the rest of the file arrives. */
    ghost function Outcome(): seq<Block>
      requires Valid()
      reads this, ctl, ctl.entropy, br, coefs
    {
      if eoiReached then coefs[..] else AllScans(headers, im, br.file, Ahead(), Present())
    }

    /** All that is still to be read is there to be read. */
    ghost predicate Readable()
      requires Valid()
      reads this, ctl, ctl.entropy, br, coefs
    {
      || eoiReached
      || ((ReadingData() ==> ctl.WellFormed()) && AllComplete(headers, hasMultipleScans, im, br.file, Ahead(), Present()))
    }

    /** What of the file is still to be read after the present scan. */
    ghost function Todo(): nat
      requires Valid()
      reads this, ctl, ctl.entropy, br, coefs
    {
      if eoiReached then 0 else 1 + Left(br.file, Ahead())
    }

    predicate AllDelivered()
      reads br
    {
      br.avail == |br.file|
    }

    /** The controller is the same object as before or a new one. */
    twostate predicate SameOrNew()
      reads this
    {
      (ctl == old(ctl) && ctl.entropy == old(ctl.entropy)) || (fresh(ctl) && fresh(ctl.entropy))
    }

    /** Reading on, without suspension, failure or hitting the end again, uses up the file or rows of the scan. */
    twostate predicate Progress()
      requires Valid() && old(Valid())
      reads this, ctl, ctl.entropy, br, coefs
    {
      || Todo() < old(Todo())
      || (Todo() == old(Todo()) && ctl.inputImcuRow > old(ctl.inputImcuRow))
    }

    twostate predicate OutputKept()
      reads this
    {
      && outputImcuRow == old(outputImcuRow)
      && (outputScanNumber == old(outputScanNumber) || (eoiReached && outputScanNumber == inputScanNumber < old(outputScanNumber)))
    }

    /** Whatever was read does not change what will come of it. */
    twostate predicate SameOutcome()
      requires Valid() && old(Valid())
      reads this, ctl, ctl.entropy, br, coefs
    {
      && Outcome() == old(Outcome()) && (old(Readable()) ==> Readable()) && br.avail == old(br.avail)
    }

    /** consume_data, an iMCU row at a time */
    method ConsumeData() returns (c: Code)
      requires Valid() && ReadingData()
      modifies ctl, ctl.entropy, br, coefs
      ensures Valid() && SameOutcome() && Todo() == old(Todo())
      ensures if c.Suspended? then ctl.inputImcuRow == old(ctl.inputImcuRow) && (old(Readable()) ==> !AllDelivered())
              else (c.RowCompleted? || c.ScanCompleted?) && ctl.inputImcuRow == old(ctl.inputImcuRow) + 1
    {
      hide CoefController.Valid, CoefController.Final, CoefController.WellFormed, CoefController.Close, AllScans, AllComplete, HeadersFit, TotalImcuRows;
      hide B.BitReader.Ahead, Left;
      RowsBounded();
      var p := ctl.ConsumeData();
      SourceThere();
      match p {
        case Suspended => c := Code.Suspended;
        case RowCompleted => c := Code.RowCompleted; RowsBounded();
        case ScanCompleted => c := Code.ScanCompleted; ScanRead();
      }
    }

    /** A scan that is being read has rows left. */
    lemma RowsBounded()
      requires ctl.im == im && ctl.Valid() && ReadingData()
      ensures ctl.inputImcuRow < TotalImcuRows(im)
    {
      hide TotalImcuRows, RunFits, LayoutFits, RowsIn;
    }

    lemma SourceThere()
      requires ctl.entropy.br == br && ctl.Valid()
      ensures br.srcPos <= br.avail <= |br.file|
    {
    }

    /** What the controller of a finished scan leaves. */
    lemma ScanRead()
      requires ctl.entropy.coefs == coefs && ctl.entropy.br == br && ctl.Valid() && !ReadingData()
      ensures ctl.Final().1 == coefs[..] && ctl.Close() == br.Ahead() && ctl.WellFormed()
    {
    }

    /** read_markers: from the marker ahead to the next scan header or EOI, passing over tables. However often it is interrupted,
        it finds what is to be found. */
    method ReadMarkers() returns (c: Code, h: Header, ghost at: Ending)
      requires br.srcPos <= br.avail <= |br.file| && HeadersFit(headers, im, coefs.Length, |br.file|)
      modifies br`srcPos, br`unreadMarker, br`nextRestartNum
      ensures br.srcPos <= br.avail
      ensures c.ReachedSos? || c.ReachedEoi? ==> (h, at) == old(Found(headers, br.file, br.Ahead()))
      ensures c.ReachedSos? ==> h.Sos? && br.AfterHeader(h.next)
      ensures c.ReachedEoi? ==> h.Eoi?
      ensures c.Failed? ==> old(Found(headers, br.file, br.Ahead())).0.Unknown?
      ensures c.Suspended? ==>
                && Found(headers, br.file, br.Ahead()) == old(Found(headers, br.file, br.Ahead()))
                && (AllDelivered() ==> Found(headers, br.file, br.Ahead()).0.Unknown?)
      ensures !c.RowCompleted? && !c.ScanCompleted?
    {
      hide Found, SegmentAt, HeaderAt, HeadersFit;
      ghost var goal := Found(headers, br.file, br.Ahead());
      while true
        invariant br.srcPos <= br.avail && Found(headers, br.file, br.Ahead()) == goal
        decreases |br.file| - br.srcPos, br.unreadMarker != 0
      {
        h, at := Unknown, NOWHERE;
        if br.unreadMarker == 0 {
          ghost var ahead := br.Ahead();
          var ok := br.NextMarker();
          assert br.Ahead() == ahead;
          if !ok {
            if AllDelivered() {
              NothingAhead(headers, br.file, br.Ahead());
            }
            return Code.Suspended, h, at;
          }
        }
        FoundAt(headers, br.file, br.unreadMarker, br.srcPos);
        HeaderFits(headers, Ending(br.unreadMarker, br.srcPos), im, coefs.Length, |br.file|);
        at := Ending(br.unreadMarker, br.srcPos);
        h := HeaderAt(headers, Ending(br.unreadMarker, br.srcPos));
        match h {
          case Sos(_, _, next) =>
            if next > br.avail {
              return Code.Suspended, h, at;
            }
            br.TakeHeader(next);
            return ReachedSos, h, at;
          case Tables(next) =>
            if next > br.avail {
              return Code.Suspended, h, at;
            }
            br.SkipTo(next);
          case Eoi =>
            br.SkipTo(br.srcPos);
            return ReachedEoi, h, at;
          case Unknown =>
            return Failed, h, at;
        }
      }
    }

    /** start_input_pass for a new scan, from behind its header. */
    method StartScan(h: Header) returns (ok: bool)
      requires h.Sos? && br.AfterHeader(h.next) && RunFits(h.c, im, h.sc, coefs.Length) && HeadersFit(headers, im, coefs.Length, |br.file|)
      requires !eoiReached
      modifies this`ctl, this`inputScanNumber, br
      ensures br.avail == old(br.avail) && (ok <==> E.TablesAccepted(h.c))
      ensures if ok then fresh(ctl) && fresh(ctl.entropy) && ctl.inputImcuRow == 0 && inputScanNumber == old(inputScanNumber) + 1
              else ctl == old(ctl) && inputScanNumber == old(inputScanNumber)
      ensures ok ==>
                && Valid() && ReadingData()
                && var st := Opening(h.c, br.file, h.next);
                   && Ahead() == ClosedAt(h.c, im, h.sc, br.file, h.next, coefs[..])
                   && Present() == Run(h.c, im, h.sc, br.file, 0, 0, st, coefs[..]).1
                   && ctl.WellFormed() == Complete(h.c, im, h.sc, br.file, 0, 0, st, coefs[..])
    {
      hide CoefController.Valid, CoefController.Final, CoefController.WellFormed, CoefController.Close, TotalImcuRows, Run, Complete, Opening, RunFits;
      hide ClosedAt, B.BitReader.Ahead, HeadersFit;
      var next: CoefController?;
      ok, next := StartInputPass(h.c, im, h.sc, br, coefs);
      if ok {
        ctl := next;
        inputScanNumber := inputScanNumber + 1;
        RowsBounded();
        SourceThere();
      }
    }

    /** consume_markers, after the first header */
    method ConsumeMarkers() returns (c: Code)
      requires Valid() && !ReadingData()
      modifies this`ctl, this`inputScanNumber, this`eoiReached, this`outputScanNumber, br
      ensures c.Failed? || (Valid() && SameOutcome())
      ensures SameOrNew() && OutputKept() && inputScanNumber >= old(inputScanNumber)
      ensures c.Suspended? ==> eoiReached == old(eoiReached) && (old(Readable()) ==> !AllDelivered())
      ensures c.ReachedSos? ==> ReadingData() && inputScanNumber == old(inputScanNumber) + 1 && ctl.inputImcuRow == 0 && Progress()
      ensures c.ReachedEoi? ==> eoiReached && (old(eoiReached) || Progress())
      ensures c.Failed? ==> !old(Readable()) && !old(eoiReached)
      ensures !c.RowCompleted? && !c.ScanCompleted?
      ensures old(eoiReached) ==> c.ReachedEoi? && ctl == old(ctl)
    {
      hide CoefController.Valid, CoefController.Final, CoefController.WellFormed, CoefController.Close, TotalImcuRows, Run, Complete, Opening, RunFits;
      hide Found, Left, AllScans, AllComplete, ClosedAt, B.BitReader.Ahead;
      if eoiReached {
        return ReachedEoi;
      }
      ghost var ahead, was := br.Ahead(), coefs[..];
      var h;
      ghost var at;
      c, h, at := ReadMarkers();
      if c.ReachedSos? {
        OneScan(headers, hasMultipleScans, im, br.file, ahead, was, h, at);
        if !hasMultipleScans {
          return Failed;
        }
        var ok := StartScan(h);
        if !ok {
          return Failed;
        }
      } else if c.ReachedEoi? {
        NoMoreScans(headers, hasMultipleScans, im, br.file, ahead, was);
        eoiReached := true;
        if outputScanNumber > inputScanNumber {
          outputScanNumber := inputScanNumber;
        }
      } else {
        StillSought(ahead, was, c);
      }
    }

    /** Suspended, the same is to be found as before; when all has been delivered, or after an error, nothing is. */
    lemma StillSought(ahead: Ending, was: seq<Block>, c: Code)
      requires HeadersFit(headers, im, |was|, |br.file|) && (c.Suspended? || c.Failed?)
      requires c.Suspended? ==> Found(headers, br.file, br.Ahead()) == Found(headers, br.file, ahead)
      requires c.Failed? || AllDelivered() ==> Found(headers, br.file, ahead).0.Unknown?
      ensures c.Suspended? ==>
                && AllScans(headers, im, br.file, br.Ahead(), was) == AllScans(headers, im, br.file, ahead, was)
                && AllComplete(headers, hasMultipleScans, im, br.file, br.Ahead(), was)
                == AllComplete(headers, hasMultipleScans, im, br.file, ahead, was)
      ensures c.Failed? || AllDelivered() ==> !AllComplete(headers, hasMultipleScans, im, br.file, ahead, was)
    {
      hide Found, AllScans, AllComplete, HeadersFit, B.BitReader.Ahead;
      if c.Suspended? {
        SameFound(headers, hasMultipleScans, im, br.file, ahead, br.Ahead(), was);
      }
      if c.Failed? || AllDelivered() {
        NoMoreScans(headers, hasMultipleScans, im, br.file, ahead, was);
      }
    }

    /** consume_input */
    method ConsumeInput() returns (c: Code)
      requires Valid()
      modifies this`ctl, this`inputScanNumber, this`eoiReached, this`outputScanNumber, ctl, ctl.entropy, br, coefs
      ensures c.Failed? || (Valid() && SameOutcome())
      ensures SameOrNew() && OutputKept() && inputScanNumber >= old(inputScanNumber)
      ensures c.Suspended? || c.Failed? || (c.ReachedEoi? && old(eoiReached)) || Progress()
      ensures c.ReachedEoi? ==> eoiReached
      ensures old(eoiReached) ==> c.ReachedEoi? && ctl == old(ctl) && ctl.inputImcuRow == old(ctl.inputImcuRow)
      ensures old(Readable()) ==> !c.Failed? && (c.Suspended? ==> !AllDelivered())
    {
      hide CoefController.Valid, CoefController.Final, CoefController.WellFormed, CoefController.Close, AllScans, AllComplete, HeadersFit, Left, B.BitReader.Ahead, TotalImcuRows, ControlledBy;
      if ReadingData() {
        c := ConsumeData();
      } else {
        c := ConsumeMarkers();
      }
    }

    /** decompress_data: forces input until it is ahead of the row to be output. The loop ends for any finite
        input, whatever output scan was asked for; without suspension or error the row has been read. If all that
        is to be read is there and has been delivered, it does not suspend. */
    method DecompressData() returns (c: Code)
      requires Valid() && outputImcuRow < TotalImcuRows(im)
      modifies this, ctl, ctl.entropy, br, coefs
      ensures SameOrNew() && (c.Failed? || (Valid() && SameOutcome()))
      ensures c.Suspended? || c.Failed? || (old(outputImcuRow) + 1 == outputImcuRow <= TotalImcuRows(im)
                && if outputImcuRow < TotalImcuRows(im) then c.RowCompleted? else c.ScanCompleted?)
      ensures c.RowCompleted? || c.ScanCompleted? ==>
                inputScanNumber > outputScanNumber || (inputScanNumber == outputScanNumber && ctl.inputImcuRow >= outputImcuRow)
      ensures old(eoiReached) ==> !c.Suspended? && !c.Failed?
      ensures old(Readable()) ==> !c.Failed? && (c.Suspended? ==> !AllDelivered())
    {
      hide CoefController.Valid, CoefController.Final, CoefController.WellFormed, CoefController.Close, AllScans, AllComplete, HeadersFit, Left, B.BitReader.Ahead, TotalImcuRows;
      while inputScanNumber < outputScanNumber || (inputScanNumber == outputScanNumber && ctl.inputImcuRow <= outputImcuRow)
        invariant Valid() && SameOutcome() && SameOrNew() && outputImcuRow == old(outputImcuRow)
        invariant old(eoiReached) ==> eoiReached
        decreases Todo(), TotalImcuRows(im) - ctl.inputImcuRow
      {
        c := ConsumeInput();
        if c.Suspended? || c.Failed? {
          return;
        }
      }
      outputImcuRow := outputImcuRow + 1;
      c := if outputImcuRow < TotalImcuRows(im) then Code.RowCompleted else Code.ScanCompleted;
    }

    /** jm_jpeg_start_output, in buffered-image mode: an output scan not beyond what can still come. */
    method StartOutput(scanNumber: int)
      requires Valid()
      modifies this`outputScanNumber, this`outputImcuRow
      ensures Valid() && SameOutcome() && outputImcuRow == 0
      ensures var wanted := if scanNumber <= 0 then 1 else scanNumber;
              outputScanNumber == if eoiReached && wanted > inputScanNumber then inputScanNumber else wanted
    {
      hide CoefController.Valid, CoefController.Final, CoefController.WellFormed, CoefController.Close, AllScans, AllComplete, HeadersFit, Left, B.BitReader.Ahead, TotalImcuRows;
      var n := if scanNumber <= 0 then 1 else scanNumber;
      if eoiReached && n > inputScanNumber {
        n := inputScanNumber;
      }
      outputScanNumber := n;
      outputImcuRow := 0;
    }

    /** jm_jpeg_finish_output: on to the next scan, or to EOI. */
    method FinishOutput() returns (c: Code)
      requires Valid()
      modifies this, ctl, ctl.entropy, br, coefs
      ensures SameOrNew() && (c.Failed? || (Valid() && SameOutcome()))
      ensures c.ScanCompleted? || c.Suspended? || c.Failed?
      ensures c.ScanCompleted? ==> eoiReached || inputScanNumber > outputScanNumber
      ensures old(Readable()) ==> !c.Failed? && (c.Suspended? ==> !AllDelivered())
    {
      hide CoefController.Valid, CoefController.Final, CoefController.WellFormed, CoefController.Close, AllScans, AllComplete, HeadersFit, Left, B.BitReader.Ahead, TotalImcuRows;
      while inputScanNumber <= outputScanNumber && !eoiReached
        invariant Valid() && SameOutcome() && SameOrNew()
        decreases Todo(), TotalImcuRows(im) - ctl.inputImcuRow
      {
        c := ConsumeInput();
        if c.Suspended? || c.Failed? {
          return;
        }
      }
      c := Code.ScanCompleted;
    }

    /** The preload loop of jm_jpeg_start_decompress: absorbs all scans. The coefficients are then what all scans together
        make of them, however their bytes came; and from then on output never waits. */
    method StartDecompress() returns (c: Code)
      requires Valid()
      modifies this, ctl, ctl.entropy, br, coefs
      ensures SameOrNew() && (c.Failed? || (Valid() && SameOutcome()))
      ensures c.ScanCompleted? || c.Suspended? || c.Failed?
      ensures c.ScanCompleted? ==> eoiReached && outputScanNumber == inputScanNumber && outputImcuRow == 0 && coefs[..] == old(Outcome())
      ensures old(Readable()) ==> !c.Failed? && (c.Suspended? ==> !AllDelivered())
    {
      hide CoefController.Valid, CoefController.Final, CoefController.WellFormed, CoefController.Close, AllScans, AllComplete, HeadersFit, Left, B.BitReader.Ahead, TotalImcuRows;
      c := Code.RowCompleted;
      while !c.ReachedEoi?
        invariant Valid() && SameOutcome() && SameOrNew() && (c.ReachedEoi? ==> eoiReached)
        decreases Todo(), TotalImcuRows(im) - ctl.inputImcuRow, !c.ReachedEoi?
      {
        c := ConsumeInput();
        if c.Suspended? || c.Failed? {
          return;
        }
      }
      outputScanNumber := inputScanNumber;
      outputImcuRow := 0;
      c := Code.ScanCompleted;
    }

    /** More bytes arrive. */
    method Deliver(n: nat)
      requires Valid()
      modifies br`avail
      ensures Valid() && Outcome() == old(Outcome()) && Readable() == old(Readable())
      ensures br.avail == if old(br.avail) + n < |br.file| then old(br.avail) + n else |br.file|
    {
      hide CoefController.Valid, CoefController.Final, CoefController.WellFormed, CoefController.Close, AllScans, AllComplete, HeadersFit, Left, B.BitReader.Ahead, TotalImcuRows;
      if ReadingData() {
        ctl.Deliver(n);
        SourceThere();
      } else {
        br.avail := if br.avail + n < |br.file| then br.avail + n else |br.file|;
      }
    }
  }
}
