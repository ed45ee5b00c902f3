/** What one MCU of a Huffman-coded scan means: the edits it makes to the coefficients and
    the decoder state after it, as functions of the segment and the state before
    (jdhuff.c, jdphuff.c; sections F.2.2, G.1.2 and G.2 of ITU-T T.81). */
module EntropySpec {
  import opened Bits
  import opened HuffmanTable
  import opened ByteStream
  import opened Coefficients

  datatype Mode = Baseline | DCFirst | ACFirst | DCRefine | ACRefine

  datatype ScanRaw = Scan(
    mode: Mode, ss: nat, se: nat, al: nat, restartInterval: nat,
    membership: seq<nat>, dcTbl: seq<JHuffTbl>, acTbl: seq<JHuffTbl>, dcNeeded: seq<bool>, acNeeded: seq<bool>)

  /** Scan parameters and, for each block of an MCU, its component and tables, as start_pass accepts them. */
  type Scan = c: ScanRaw |
      && |c.dcTbl| == |c.acTbl| == |c.dcNeeded| == |c.acNeeded| == |c.membership| <= 10
      && (forall i :: 0 <= i < |c.membership| ==> c.membership[i] < 4)
      && c.al <= 13
      && (c.mode.ACFirst? || c.mode.ACRefine? ==> |c.membership| == 1 && 1 <= c.ss <= c.se <= 63)
    witness ScanRaw.Scan(Baseline, 0, 63, 0, 0, [], [], [], [], [])

  /** HUFF_EXTEND */
  function Extend(x: nat, s: nat): int
    requires s >= 1
  {
    if x < Shl(1, s - 1) then x - Shl(1, s) + 1 else x
  }

  /** The value of s bits at p, sign-extended; no bits spell 0. */
  function Receive(s: seq<bool>, p: nat, n: nat): int {
    if n == 0 then 0 else Extend(Peek(s, p, n), n)
  }

  /** The result of decoding part of an MCU. */
  datatype Outcome = Outcome(edits: seq<Edit>, at: nat, eobrun: nat, dc: Predictions)

  /** The DC predictions of the up to four components of a scan. */
  type Predictions = d: seq<int> | |d| == 4 witness [0, 0, 0, 0]

  // ----- sequential and first passes -----

  /** Section F.2.2.1: position after the DC difference at p. */
  function AfterDc(t: JHuffTbl, s: seq<bool>, p: nat): nat {
    p + SymbolLength(t, s, p) + NextSymbol(t, s, p)
  }

  function DcDiff(t: JHuffTbl, s: seq<bool>, p: nat): int {
    Receive(s, p + SymbolLength(t, s, p), NextSymbol(t, s, p))
  }

  /** Section F.2.2.2: the AC coefficients of a block from zigzag index k on. */
  function AcEdits(t: JHuffTbl, s: seq<bool>, p: nat, k: nat, b: nat): (r: (seq<Edit>, nat))
    decreases 64 - k
  {
    if k >= 64 then ([], p)
    else
      var p1, rs := p + SymbolLength(t, s, p), NextSymbol(t, s, p);
      var run, size := rs / 16, rs % 16;
      if size != 0 then
        var rest := AcEdits(t, s, p1 + size, k + run + 1, b);
        ([Put(b, NaturalOrder(k + run), Wrap16(Receive(s, p1, size)))] + rest.0, rest.1)
      else if run == 15 then AcEdits(t, s, p1, k + 16, b)
      else ([], p1)
  }

  /** One block of an MCU: DC coefficient by prediction, then the AC coefficients, stored where needed. */
  function BlockEdits(c: Scan, mcu: seq<nat>, s: seq<bool>, p: nat, dc: Predictions, i: nat): Outcome
    requires i < |mcu| == |c.membership|
  {
    var v := DcDiff(c.dcTbl[i], s, p) + dc[c.membership[i]];
    var ac := AcEdits(c.acTbl[i], s, AfterDc(c.dcTbl[i], s, p), 1, mcu[i]);
    Outcome((if c.dcNeeded[i] then [Put(mcu[i], 0, Wrap16(v))] else []) + (if c.acNeeded[i] then ac.0 else []),
            ac.1, 0, if c.dcNeeded[i] then dc[c.membership[i] := v] else dc)
  }

  function BaselineEdits(c: Scan, mcu: seq<nat>, s: seq<bool>, p: nat, eobrun: nat, dc: Predictions, i: nat): Outcome
    requires |mcu| == |c.membership| && i <= |mcu|
    decreases |mcu| - i
  {
    if i == |mcu| then Outcome([], p, eobrun, dc)
    else
      var block := BlockEdits(c, mcu, s, p, dc, i);
      var rest := BaselineEdits(c, mcu, s, block.at, eobrun, block.dc, i + 1);
      rest.(edits := block.edits + rest.edits)
  }

  /** One block of a DC first pass: the coefficient by prediction, scaled by the point transform. */
  function DcEdit(c: Scan, mcu: seq<nat>, s: seq<bool>, p: nat, dc: Predictions, i: nat): Outcome
    requires i < |mcu| == |c.membership|
  {
    var v := DcDiff(c.dcTbl[i], s, p) + dc[c.membership[i]];
    Outcome([Put(mcu[i], 0, Wrap16(Shl(v, c.al)))], AfterDc(c.dcTbl[i], s, p), 0, dc[c.membership[i] := v])
  }

  function DcFirstEdits(c: Scan, mcu: seq<nat>, s: seq<bool>, p: nat, eobrun: nat, dc: Predictions, i: nat): Outcome
    requires |mcu| == |c.membership| && i <= |mcu|
    decreases |mcu| - i
  {
    if i == |mcu| then Outcome([], p, eobrun, dc)
    else
      var block := DcEdit(c, mcu, s, p, dc, i);
      var rest := DcFirstEdits(c, mcu, s, block.at, eobrun, block.dc, i + 1);
      rest.(edits := block.edits + rest.edits)
  }

  /** The length of an EOB run: 2^r plus r appended bits (section G.1.2.2). */
  function EobRun(s: seq<bool>, p: nat, r: nat): (n: nat)
    ensures n >= 1
  {
    ShlPositive(r);
    Shl(1, r) + Peek(s, p, r)
  }

  function AcFirstEdits(t: JHuffTbl, s: seq<bool>, p: nat, k: nat, se: nat, al: nat, b: nat, dc: Predictions): Outcome
    requires se <= 63
    decreases 64 - k
  {
    if k > se then Outcome([], p, 0, dc)
    else
      var p1, rs := p + SymbolLength(t, s, p), NextSymbol(t, s, p);
      var run, size := rs / 16, rs % 16;
      if size != 0 then
        var rest := AcFirstEdits(t, s, p1 + size, k + run + 1, se, al, b, dc);
        rest.(edits := [Put(b, NaturalOrder(k + run), Wrap16(Shl(Receive(s, p1, size), al)))] + rest.edits)
      else if run == 15 then AcFirstEdits(t, s, p1, k + 16, se, al, b, dc)
      else Outcome([], p1 + run, EobRun(s, p1, run) - 1, dc)
  }

  // ----- refinement passes -----

  function DcRefineEdits(al: nat, mcu: seq<nat>, s: seq<bool>, p: nat, i: nat): seq<Edit>
    requires i <= |mcu|
    decreases |mcu| - i
  {
    if i == |mcu| then []
    else (if Peek(s, p, 1) == 1 then [SetBit(mcu[i], 0, al)] else []) + DcRefineEdits(al, mcu, s, p + 1, i + 1)
  }

  type Pattern = nz: seq<bool> | |nz| == 64 witness seq(64, _ => false)

  /** Which coefficients of a block are nonzero. */
  function NonZero(b: Block): Pattern {
    seq(64, i requires 0 <= i < 64 => b[i] != 0)
  }

  function Correction(s: seq<bool>, p: nat, k: nat, al: nat, b: nat): seq<Edit>
    requires k <= 63
  {
    if Peek(s, p, 1) == 1 then [Raise(b, NaturalOrder(k), al)] else []
  }

  datatype Refined = Refined(edits: seq<Edit>, at: nat, k: nat, eobrun: nat)

  /** Section G.1.2.3: correct the nonzero history and skip r zeros, up to the next zero or past the band. */
  function Advance(s: seq<bool>, p: nat, k: nat, se: nat, r: nat, al: nat, b: nat, nz: Pattern): (o: Refined)
    requires se <= 63
    ensures k <= o.k && (k <= se + 1 ==> o.k <= se + 1)
    decreases se + 1 - k
  {
    if k > se then Refined([], p, k, 0)
    else if nz[NaturalOrder(k)] then
      var rest := Advance(s, p + 1, k + 1, se, r, al, b, nz);
      rest.(edits := Correction(s, p, k, al, b) + rest.edits)
    else if r == 0 then Refined([], p, k, 0)
    else Advance(s, p, k + 1, se, r - 1, al, b, nz)
  }

  /** The coefficients of a band up to an end-of-band code or the end of the band. */
  function BandEdits(t: JHuffTbl, s: seq<bool>, p: nat, k: nat, se: nat, al: nat, b: nat, nz: Pattern): Refined
    requires se <= 63
    decreases se + 1 - k
  {
    if k > se then Refined([], p, k, 0)
    else
      var p1, rs := p + SymbolLength(t, s, p), NextSymbol(t, s, p);
      var run, size := rs / 16, rs % 16;
      if size == 0 && run != 15 then Refined([], p1 + run, k, EobRun(s, p1, run))
      else
        var o := Advance(s, if size != 0 then p1 + 1 else p1, k, se, run, al, b, nz);
        var added := if size != 0 then [Put(b, NaturalOrder(o.k), NewCoef(s, p1, al))] else [];
        var rest := BandEdits(t, s, o.at, o.k + 1, se, al, b, nz);
        rest.(edits := o.edits + added + rest.edits)
  }

  /** A newly nonzero coefficient: 1 or -1 in the bit position being coded. */
  function NewCoef(s: seq<bool>, p: nat, al: nat): Coef {
    Wrap16(if Peek(s, p, 1) == 1 then Shl(1, al) else Shl(-1, al))
  }

  /** Inside an EOB run: correct all that is nonzero in the rest of the band. */
  function RunEdits(s: seq<bool>, p: nat, k: nat, se: nat, al: nat, b: nat, nz: Pattern): (seq<Edit>, nat)
    requires se <= 63
    decreases se + 1 - k
  {
    if k > se then ([], p)
    else if nz[NaturalOrder(k)] then
      var rest := RunEdits(s, p + 1, k + 1, se, al, b, nz);
      (Correction(s, p, k, al, b) + rest.0, rest.1)
    else RunEdits(s, p, k + 1, se, al, b, nz)
  }

  function AcRefineEdits(t: JHuffTbl, s: seq<bool>, p: nat, ss: nat, se: nat, al: nat, b: nat, nz: Pattern,
                         eobrun: nat, dc: Predictions): Outcome
    requires se <= 63
  {
    var o := if eobrun == 0 then BandEdits(t, s, p, ss, se, al, b, nz) else Refined([], p, ss, eobrun);
    if o.eobrun > 0 then
      var tail := RunEdits(s, o.at, o.k, se, al, b, nz);
      Outcome(o.edits + tail.0, tail.1, o.eobrun - 1, dc)
    else Outcome(o.edits, o.at, 0, dc)
  }

  // ----- one MCU -----

  /** Where the decoder stands: inside a segment, or about to resume after a restart marker. */
  datatype Stream = Running(seg: Segment, at: nat) | Restarting(next: Resumed)

  datatype State = State(stream: Stream, starved: bool, eobrun: nat, dc: Predictions, toGo: nat, nextRst: nat)

  ghost predicate McuFits(c: Scan, mcu: seq<nat>, n: nat) {
    |mcu| == |c.membership| && forall i :: 0 <= i < |mcu| ==> mcu[i] < n
  }

  function McuOutcome(c: Scan, mcu: seq<nat>, coefs: seq<Block>, s: seq<bool>, p: nat, eobrun: nat, dc: Predictions): Outcome
    requires McuFits(c, mcu, |coefs|)
  {
    match c.mode
    case Baseline => BaselineEdits(c, mcu, s, p, eobrun, dc, 0)
    case DCFirst => DcFirstEdits(c, mcu, s, p, eobrun, dc, 0)
    case ACFirst =>
      if eobrun > 0 then Outcome([], p, eobrun - 1, dc)
      else AcFirstEdits(c.acTbl[0], s, p, c.ss, c.se, c.al, mcu[0], dc)
    case DCRefine => Outcome(DcRefineEdits(c.al, mcu, s, p, 0), p + |mcu|, eobrun, dc)
    case ACRefine =>
      AcRefineEdits(c.acTbl[0], s, p, c.ss, c.se, c.al, mcu[0], NonZero(coefs[mcu[0]]), eobrun, dc)
  }

  /** Restart processing, if one is due: a fresh segment, predictions and run count. */
  function Begin(c: Scan, file: seq<Byte>, st: State): State {
    if st.stream.Restarting? && st.stream.next.At? then
      var next := st.stream.next;
      State(Running(SegmentFrom(file, next.unread, next.pos), 0), st.starved && next.unread != 0,
            0, [0, 0, 0, 0], c.restartInterval, (st.nextRst + 1) % 8)
    else st
  }

  /** Restart accounting after an MCU; the count is a 32-bit unsigned. */
  function End(c: Scan, file: seq<Byte>, st: State): State {
    var toGo := if st.toGo == 0 then 0xFFFF_FFFF else st.toGo - 1;
    State(if c.restartInterval > 0 && toGo == 0 && st.stream.Running?
          then Restarting(Resync(file, st.stream.seg.marker, st.stream.seg.after, st.nextRst % 8)) else st.stream,
          st.starved, st.eobrun, st.dc, toGo, st.nextRst)
  }

  /** Decoding proper: nothing once the segment has run dry, except in DC refinement, which never checks. */
  function Decoded(c: Scan, mcu: seq<nat>, st: State, coefs: seq<Block>): Outcome
    requires st.stream.Running? && McuFits(c, mcu, |coefs|)
  {
    if st.starved && !c.mode.DCRefine? then Outcome([], st.stream.at, st.eobrun, st.dc)
    else McuOutcome(c, mcu, coefs, st.stream.seg.bits, st.stream.at, st.eobrun, st.dc)
  }

  // ----- the edits of an MCU are of one kind and stay in its blocks -----

  ghost predicate Fine(es: seq<Edit>, n: nat, raising: bool, al: nat) {
    AllInRange(es, n) && Uniform(es, raising, al)
  }

  lemma {:induction false} AcEditsFine(t: JHuffTbl, s: seq<bool>, p: nat, k: nat, b: nat, n: nat, raising: bool, al: nat)
    requires b < n
    ensures Fine(AcEdits(t, s, p, k, b).0, n, raising, al)
    decreases 64 - k
  {
    hide NextSymbol, SymbolLength, NaturalOrder, Wrap16, Receive;
    if k < 64 {
      var p1, rs := p + SymbolLength(t, s, p), NextSymbol(t, s, p);
      if rs % 16 != 0 {
        AcEditsFine(t, s, p1 + rs % 16, k + rs / 16 + 1, b, n, raising, al);
      } else {
        AcEditsFine(t, s, p1, k + 16, b, n, raising, al);
      }
    }
  }

  lemma {:induction false} BaselineFine(c: Scan, mcu: seq<nat>, s: seq<bool>, p: nat, eobrun: nat, dc: Predictions, i: nat, n: nat)
    requires McuFits(c, mcu, n) && i <= |mcu|
    ensures Fine(BaselineEdits(c, mcu, s, p, eobrun, dc, i).edits, n, false, c.al)
    decreases |mcu| - i
  {
    hide AcEdits, DcDiff, NextSymbol, SymbolLength;
    if i < |mcu| {
      AcEditsFine(c.acTbl[i], s, AfterDc(c.dcTbl[i], s, p), 1, mcu[i], n, false, c.al);
      var block := BlockEdits(c, mcu, s, p, dc, i);
      BaselineFine(c, mcu, s, block.at, eobrun, block.dc, i + 1, n);
    }
  }

  lemma {:induction false} DcFirstFine(c: Scan, mcu: seq<nat>, s: seq<bool>, p: nat, eobrun: nat, dc: Predictions, i: nat, n: nat)
    requires McuFits(c, mcu, n) && i <= |mcu|
    ensures Fine(DcFirstEdits(c, mcu, s, p, eobrun, dc, i).edits, n, false, c.al)
    decreases |mcu| - i
  {
    hide DcDiff, NextSymbol, SymbolLength;
    if i < |mcu| {
      var block := DcEdit(c, mcu, s, p, dc, i);
      DcFirstFine(c, mcu, s, block.at, eobrun, block.dc, i + 1, n);
    }
  }

  lemma {:induction false} AcFirstFine(t: JHuffTbl, s: seq<bool>, p: nat, k: nat, se: nat, al: nat, b: nat, dc: Predictions, n: nat)
    requires b < n && se <= 63
    ensures Fine(AcFirstEdits(t, s, p, k, se, al, b, dc).edits, n, false, al)
    decreases 64 - k
  {
    hide NextSymbol, SymbolLength, NaturalOrder, Wrap16, Receive, Shl, EobRun;
    if k <= se {
      var p1, rs := p + SymbolLength(t, s, p), NextSymbol(t, s, p);
      if rs % 16 != 0 {
        AcFirstFine(t, s, p1 + rs % 16, k + rs / 16 + 1, se, al, b, dc, n);
      } else {
        AcFirstFine(t, s, p1, k + 16, se, al, b, dc, n);
      }
    }
  }

  lemma {:induction false} DcRefineFine(al: nat, mcu: seq<nat>, s: seq<bool>, p: nat, i: nat, n: nat)
    requires i <= |mcu| && forall j :: 0 <= j < |mcu| ==> mcu[j] < n
    ensures Fine(DcRefineEdits(al, mcu, s, p, i), n, false, al)
    decreases |mcu| - i
  {
    if i < |mcu| {
      DcRefineFine(al, mcu, s, p + 1, i + 1, n);
    }
  }

  lemma {:induction false} AdvanceFine(s: seq<bool>, p: nat, k: nat, se: nat, r: nat, al: nat, b: nat, nz: Pattern, n: nat)
    requires b < n && se <= 63
    ensures Fine(Advance(s, p, k, se, r, al, b, nz).edits, n, true, al)
    decreases se + 1 - k
  {
    hide NaturalOrder, Peek;
    if k <= se {
      if nz[NaturalOrder(k)] {
        AdvanceFine(s, p + 1, k + 1, se, r, al, b, nz, n);
      } else if r > 0 {
        AdvanceFine(s, p, k + 1, se, r - 1, al, b, nz, n);
      }
    }
  }

  lemma {:induction false} RunFine(s: seq<bool>, p: nat, k: nat, se: nat, al: nat, b: nat, nz: Pattern, n: nat)
    requires b < n && se <= 63
    ensures Fine(RunEdits(s, p, k, se, al, b, nz).0, n, true, al)
    decreases se + 1 - k
  {
    hide NaturalOrder, Peek;
    if k <= se {
      RunFine(s, if nz[NaturalOrder(k)] then p + 1 else p, k + 1, se, al, b, nz, n);
    }
  }

  lemma {:induction false} BandFine(t: JHuffTbl, s: seq<bool>, p: nat, k: nat, se: nat, al: nat, b: nat, nz: Pattern, n: nat)
    requires b < n && se <= 63
    ensures Fine(BandEdits(t, s, p, k, se, al, b, nz).edits, n, true, al)
    decreases se + 1 - k
  {
    hide Advance, NextSymbol, SymbolLength, NaturalOrder;
    if k <= se {
      var p1, rs := p + SymbolLength(t, s, p), NextSymbol(t, s, p);
      if rs % 16 != 0 || rs / 16 == 15 {
        var q := if rs % 16 != 0 then p1 + 1 else p1;
        AdvanceFine(s, q, k, se, rs / 16, al, b, nz, n);
        var o := Advance(s, q, k, se, rs / 16, al, b, nz);
        BandFine(t, s, o.at, o.k + 1, se, al, b, nz, n);
      }
    }
  }

  lemma OutcomeFine(c: Scan, mcu: seq<nat>, coefs: seq<Block>, s: seq<bool>, p: nat, eobrun: nat, dc: Predictions)
    requires McuFits(c, mcu, |coefs|)
    ensures Fine(McuOutcome(c, mcu, coefs, s, p, eobrun, dc).edits, |coefs|, c.mode.ACRefine?, c.al)
  {
    hide BaselineEdits, DcFirstEdits, AcFirstEdits, DcRefineEdits, BandEdits, RunEdits;
    var n := |coefs|;
    match c.mode
    case Baseline => BaselineFine(c, mcu, s, p, eobrun, dc, 0, n);
    case DCFirst => DcFirstFine(c, mcu, s, p, eobrun, dc, 0, n);
    case ACFirst => AcFirstFine(c.acTbl[0], s, p, c.ss, c.se, c.al, mcu[0], dc, n);
    case DCRefine => DcRefineFine(c.al, mcu, s, p, 0, n);
    case ACRefine =>
      var nz := NonZero(coefs[mcu[0]]);
      BandFine(c.acTbl[0], s, p, c.ss, c.se, c.al, mcu[0], nz, n);
      var o := if eobrun == 0 then BandEdits(c.acTbl[0], s, p, c.ss, c.se, c.al, mcu[0], nz) else Refined([], p, c.ss, eobrun);
      RunFine(s, o.at, o.k, c.se, c.al, mcu[0], nz, n);
  }

  /** One MCU: restart processing, decoding, restart accounting. A restart that never comes changes nothing. */
  function Step(c: Scan, mcu: seq<nat>, file: seq<Byte>, st: State, coefs: seq<Block>): (r: (State, seq<Block>))
    requires McuFits(c, mcu, |coefs|)
    ensures |r.1| == |coefs|
  {
    var b := Begin(c, file, st);
    if !b.stream.Running? then (st, coefs)
    else
      var o := Decoded(c, mcu, b, coefs);
      OutcomeFine(c, mcu, coefs, b.stream.seg.bits, b.stream.at, b.eobrun, b.dc);
      (End(c, file, State(Running(b.stream.seg, o.at), b.starved || o.at > |b.stream.seg.bits|,
                          o.eobrun, o.dc, b.toGo, b.nextRst)),
       Apply(o.edits, coefs))
  }
}
