/** The Huffman entropy decoders for sequential and progressive scans (jdhuff.c, jdphuff.c),
    editing coefficient blocks in place and giving up an MCU whenever the bytes run out. */
module EntropyDecoder {
  import opened Bits
  import opened HuffmanTable
  import opened ByteStream
  import opened Coefficients
  import opened EntropySpec
  import opened Refinement
  import B = BitReader

  /** A symbol of an accepted DC table is a category 0..15. */
  lemma DcSymbolSmall(t: JHuffTbl, d: DerivedTbl, s: seq<bool>, p: nat)
    requires Derives(d, t) && forall i :: 0 <= i < Offset(t, 17) ==> t.huffval[i] <= 15
    ensures NextSymbol(t, s, p) <= 15
  {
    var l := SymbolLength(t, s, p);
    if l <= 16 {
      OffsetMonotone(t, l + 1, 17);
    }
  }

  class EntropyDecoder {
    const br: B.BitReader
    const scan: Scan
    const dcDerived: seq<DerivedTbl>
    const acDerived: seq<DerivedTbl>
    /** The coefficient blocks of the image; an MCU is a list of indexes into it. */
    const coefs: array<Block>

    var eobrun: nat
    var lastDc: Predictions
    var restartsToGo: nat

    /** start_pass, once the tables have been derived: the decoder stands at the start of a segment. */
    constructor (br: B.BitReader, scan: Scan, dcDerived: seq<DerivedTbl>, acDerived: seq<DerivedTbl>, coefs: array<Block>)
      requires br.srcPos <= br.avail <= |br.file| && br.nextRestartNum < 8
      modifies br`permBuffer, br`permBits, br`permAt, br`seg, br`insufficientData
      ensures this.br == br && this.scan == scan && this.coefs == coefs
      ensures this.dcDerived == dcDerived && this.acDerived == acDerived
      ensures Ready() ==> Valid()
      ensures Current() == State(Running(SegmentFrom(br.file, br.unreadMarker, br.srcPos), 0), false, 0, [0, 0, 0, 0],
                                 scan.restartInterval, br.nextRestartNum)
    {
      this.br, this.scan, this.coefs := br, scan, coefs;
      this.dcDerived, this.acDerived := dcDerived, acDerived;
      eobrun, lastDc, restartsToGo := 0, [0, 0, 0, 0], scan.restartInterval;
      new;
      br.Reset();
    }

    /** The derived tables start_pass makes for this kind of scan. */
    ghost predicate DcReady(i: nat) {
      && i < |scan.membership| == |dcDerived|
      && Derives(dcDerived[i], scan.dcTbl[i])
      && forall k :: 0 <= k < Offset(scan.dcTbl[i], 17) ==> scan.dcTbl[i].huffval[k] <= 15
    }

    ghost predicate AcReady(i: nat) {
      i < |scan.membership| == |acDerived| && Derives(acDerived[i], scan.acTbl[i])
    }

    ghost predicate Ready() {
      && (scan.mode.Baseline? || scan.mode.DCFirst? ==> forall i :: 0 <= i < |scan.membership| ==> DcReady(i))
      && (scan.mode.Baseline? ==> forall i :: 0 <= i < |scan.membership| ==> AcReady(i))
      && (scan.mode.ACFirst? || scan.mode.ACRefine? ==> AcReady(0))
    }

    /** The coefficients are those of the old state with these edits made. */
    twostate predicate Made(es: seq<Edit>)
      reads coefs
    {
      Makes(es, old(coefs[..]), coefs[..])
    }

    /** One assignment to a coefficient, and the edit it amounts to. */
    method Store(b: nat, pos: nat, v: Coef, ghost e: Edit)
      requires b < coefs.Length && pos < 64
      requires e.block == b && e.pos == pos && Edited(e, coefs[b][pos]) == v
      modifies coefs
      ensures coefs[..] == ApplyOne(e, old(coefs[..]))
    {
      coefs[b] := coefs[b][pos := v];
    }

    method DecodeDcDiff(i: nat) returns (ok: bool, diff: int)
      requires br.Working() && DcReady(i)
      modifies br
      ensures ok ==> br.Advanced() && br.at == AfterDc(scan.dcTbl[i], br.seg.bits, old(br.at))
      ensures ok ==> diff == DcDiff(scan.dcTbl[i], br.seg.bits, old(br.at))
      ensures !ok ==> br.Abandoned()
    {
      hide B.StandsAt, Derives, NextSymbol, SymbolLength, Peek, Shl;
      diff := 0;
      var s: nat;
      ok, s := br.HuffDecode(dcDerived[i], scan.dcTbl[i]);
      if ok && s != 0 {
        DcSymbolSmall(scan.dcTbl[i], dcDerived[i], br.seg.bits, old(br.at));
        var r: nat;
        ok, r := br.TakeBits(s);
        diff := Extend(r, s);
      }
    }

    /** Receives an s-bit coefficient and stores it, scaled by the point transform, at zigzag index k. */
    method ReceiveCoef(b: nat, k: nat, s: nat, al: nat) returns (ok: bool, ghost e: Edit)
      requires br.Working() && b < coefs.Length && k < 80 && 0 < s <= 15
      modifies br, coefs
      ensures e == Put(b, NaturalOrder(k), Wrap16(Shl(Receive(br.seg.bits, old(br.at), s), al)))
      ensures ok ==> br.Advanced() && br.at == old(br.at) + s && coefs[..] == ApplyOne(e, old(coefs[..]))
      ensures !ok ==> br.Abandoned() && coefs[..] == old(coefs[..])
    {
      hide B.StandsAt, Peek, Extend, Wrap16, Shl, NaturalOrder;
      e := Put(b, NaturalOrder(k), Wrap16(Shl(Receive(br.seg.bits, br.at, s), al)));
      var v;
      ok, v := br.TakeBits(s);
      if ok {
        Store(b, NaturalOrder(k), Wrap16(Shl(Extend(v, s), al)), e);
      }
    }

    /** The AC part of a block of a sequential scan, stored coefficient by coefficient. */
    method DecodeAc(i: nat, b: nat) returns (ok: bool, ghost done: seq<Edit>)
      requires br.Working() && AcReady(i) && b < coefs.Length
      modifies br, coefs
      ensures Made(done)
      ensures ok ==> br.Advanced() && (done, br.at) == AcEdits(scan.acTbl[i], br.seg.bits, old(br.at), 1, b)
      ensures !ok ==> br.Abandoned() && done <= AcEdits(scan.acTbl[i], br.seg.bits, old(br.at), 1, b).0
    {
      hide B.StandsAt, Derives, AcEdits, NextSymbol, SymbolLength, Peek, Receive, NaturalOrder, Wrap16, Shl, Makes, ApplyOne;
      ghost var t, bits := scan.acTbl[i], br.seg.bits;
      ghost var all := AcEdits(t, bits, br.at, 1, b);
      assert [] + all.0 == all.0;
      done := [];
      MakesNothing(coefs[..]);
      var k: nat, eob := 1, false;
      while k < 64 && !eob
        invariant br.Advanced() && k <= 79 && br.seg.bits == bits
        invariant Makes(done, old(coefs[..]), coefs[..])
        invariant !eob ==> all == (done + AcEdits(t, bits, br.at, k, b).0, AcEdits(t, bits, br.at, k, b).1)
        invariant eob ==> all == (done, br.at)
        decreases 64 - k, !eob
      {
        AcStep(t, bits, br.at, k, b, done);
        var sym: nat;
        ok, sym := br.HuffDecode(acDerived[i], t);
        if !ok {
          return;
        }
        var r, s := sym / 16, sym % 16;
        if s != 0 {
          k := k + r;
          ghost var e, mid := Put(0, 0, 0), coefs[..];
          ok, e := ReceiveCoef(b, k, s, 0);
          if !ok {
            return;
          }
          OneMore(done, e, old(coefs[..]), mid);
          k := k + 1;
          done := done + [e];
        } else if r == 15 {
          k := k + 16;
        } else {
          eob := true;
        }
      }
      AcStep(t, bits, br.at, k, b, done);
      ok := true;
    }

    /** The AC part of a block whose values nobody wants: the same bits, no stores. */
    method SkipAc(i: nat, ghost b: nat) returns (ok: bool)
      requires br.Working() && AcReady(i)
      modifies br
      ensures ok ==> br.Advanced() && br.at == AcEdits(scan.acTbl[i], br.seg.bits, old(br.at), 1, b).1
      ensures !ok ==> br.Abandoned()
    {
      hide B.StandsAt, Derives, NextSymbol, SymbolLength, Peek, Shl, NaturalOrder, Wrap16, Receive;
      ghost var t, bits := scan.acTbl[i], br.seg.bits;
      ghost var end := AcEdits(t, bits, br.at, 1, b).1;
      var k: nat, eob := 1, false;
      while k < 64 && !eob
        invariant br.Advanced() && k <= 79 && br.seg.bits == bits
        invariant !eob ==> end == AcEdits(t, bits, br.at, k, b).1
        invariant eob ==> end == br.at
        decreases 64 - k, !eob
      {
        var sym: nat;
        ok, sym := br.HuffDecode(acDerived[i], t);
        if !ok {
          return;
        }
        var r, s := sym / 16, sym % 16;
        if s != 0 {
          k := k + r;
          var dropped: nat;
          ok, dropped := br.TakeBits(s);
          if !ok {
            return;
          }
          k := k + 1;
        } else if r == 15 {
          k := k + 16;
        } else {
          eob := true;
        }
      }
      ok := true;
    }

    /** One block of a sequential MCU: DC difference, prediction, AC coefficients. */
    method DecodeBlock(mcu: seq<nat>, blkn: nat, state: Predictions) returns (ok: bool, state': Predictions, ghost done: seq<Edit>)
      requires br.Working() && McuFits(scan, mcu, coefs.Length) && blkn < |mcu| && DcReady(blkn) && AcReady(blkn)
      modifies br, coefs
      ensures Made(done)
      ensures var o := BlockEdits(scan, mcu, br.seg.bits, old(br.at), state, blkn);
              if ok then br.Advanced() && br.at == o.at && state' == o.dc && done == o.edits
              else br.Abandoned() && done <= o.edits
    {
      hide B.StandsAt, DcDiff, AfterDc, AcEdits, Wrap16, Makes;
      done, state' := [], state;
      MakesNothing(coefs[..]);
      var s;
      ok, s := DecodeDcDiff(blkn);
      if !ok {
        return;
      }
      if scan.dcNeeded[blkn] {
        var ci := scan.membership[blkn];
        s := s + state[ci];
        state' := state[ci := s];
        done := [Put(mcu[blkn], 0, Wrap16(s))];
        OneMore([], done[0], coefs[..], coefs[..]);
        assert [] + done == done;
        Store(mcu[blkn], 0, Wrap16(s), done[0]);
      }
      if scan.acNeeded[blkn] {
        ghost var acDone, mid := [], coefs[..];
        ok, acDone := DecodeAc(blkn, mcu[blkn]);
        MakesMore(done, acDone, old(coefs[..]), mid, coefs[..]);
        done := done + acDone;
      } else {
        ok := SkipAc(blkn, mcu[blkn]);
        assert done + [] == done;
      }
    }

    // ----- whole MCUs -----

    /** The MCU was completed: the permanent state is that of the outcome. */
    twostate predicate Completed(o: Outcome)
      reads this, br
    {
      && br.AtRest() && br.permAt == o.at && eobrun == o.eobrun && lastDc == o.dc
      && br.insufficientData == (old(br.insufficientData) || o.at > |br.seg.bits|)
      && br.seg == old(br.seg) && br.avail == old(br.avail) && br.nextRestartNum == old(br.nextRestartNum)
      && restartsToGo == old(restartsToGo)
    }

    /** The MCU was abandoned: no permanent state has changed. */
    twostate predicate GaveUp()
      reads this, br
    {
      && br.AtRest() && br.Abandoned() && br.unreadMarker == old(br.unreadMarker)
      && unchanged(this)
    }

    ghost function Expected(mcu: seq<nat>): Outcome
      requires McuFits(scan, mcu, coefs.Length)
      reads this, br, coefs
    {
      McuOutcome(scan, mcu, coefs[..], br.seg.bits, br.permAt, eobrun, lastDc)
    }

    /** decode_mcu of a sequential scan */
    method DecodeBaseline(mcu: seq<nat>) returns (ok: bool, ghost done: seq<Edit>)
      requires scan.mode.Baseline? && Ready() && br.AtRest() && McuFits(scan, mcu, coefs.Length)
      modifies this`lastDc, br, coefs
      ensures Made(done)
      ensures if ok then Completed(old(Expected(mcu))) && done == old(Expected(mcu)).edits
              else GaveUp() && done <= old(Expected(mcu)).edits
    {
      hide B.StandsAt, BlockEdits, Makes;
      br.Load();
      label Loaded:
      var state := lastDc;
      ghost var o := Expected(mcu);
      ghost var bits := br.seg.bits;
      done := [];
      MakesNothing(coefs[..]);
      assert [] + o.edits == o.edits;
      var blkn := 0;
      while blkn < |mcu|
        invariant 0 <= blkn <= |mcu| && br.Advanced@Loaded() && unchanged(this) && br.seg.bits == bits
        invariant Makes(done, old(coefs[..]), coefs[..])
        invariant var rest := BaselineEdits(scan, mcu, bits, br.at, eobrun, state, blkn);
                  o == rest.(edits := done + rest.edits)
      {
        assert DcReady(blkn) && AcReady(blkn);
        ghost var block := BlockEdits(scan, mcu, bits, br.at, state, blkn);
        ghost var rest := BaselineEdits(scan, mcu, bits, block.at, eobrun, block.dc, blkn + 1);
        assert done + (block.edits + rest.edits) == (done + block.edits) + rest.edits;
        ghost var made, mid := [], coefs[..];
        ok, state, made := DecodeBlock(mcu, blkn, state);
        MakesMore(done, made, old(coefs[..]), mid, coefs[..]);
        done := done + made;
        if !ok {
          return;
        }
        blkn := blkn + 1;
      }
      assert done + [] == done;
      br.Save();
      lastDc := state;
      ok := true;
    }

    /** One DC coefficient of a first pass, scaled by the point transform. */
    method DecodeDc(mcu: seq<nat>, blkn: nat, state: Predictions) returns (ok: bool, state': Predictions, ghost done: seq<Edit>)
      requires br.Working() && McuFits(scan, mcu, coefs.Length) && blkn < |mcu| && DcReady(blkn)
      modifies br, coefs
      ensures Made(done)
      ensures var o := DcEdit(scan, mcu, br.seg.bits, old(br.at), state, blkn);
              if ok then br.Advanced() && br.at == o.at && state' == o.dc && done == o.edits
              else br.Abandoned() && done == []
    {
      hide B.StandsAt, DcDiff, AfterDc, Wrap16, Shl, Makes;
      done, state' := [], state;
      MakesNothing(coefs[..]);
      var ci := scan.membership[blkn];
      var s;
      ok, s := DecodeDcDiff(blkn);
      if !ok {
        return;
      }
      s := s + state[ci];
      state' := state[ci := s];
      done := [Put(mcu[blkn], 0, Wrap16(Shl(s, scan.al)))];
      OneMore([], done[0], coefs[..], coefs[..]);
      assert [] + done == done;
      Store(mcu[blkn], 0, Wrap16(Shl(s, scan.al)), done[0]);
    }

    /** decode_mcu_DC_first */
    method DecodeDcFirst(mcu: seq<nat>) returns (ok: bool, ghost done: seq<Edit>)
      requires scan.mode.DCFirst? && Ready() && br.AtRest() && McuFits(scan, mcu, coefs.Length)
      modifies this`lastDc, br, coefs
      ensures Made(done)
      ensures if ok then Completed(old(Expected(mcu))) && done == old(Expected(mcu)).edits
              else GaveUp() && done <= old(Expected(mcu)).edits
    {
      hide B.StandsAt, DcEdit, Makes;
      br.Load();
      label Loaded:
      var state := lastDc;
      ghost var o := Expected(mcu);
      ghost var bits := br.seg.bits;
      done := [];
      MakesNothing(coefs[..]);
      assert [] + o.edits == o.edits;
      var blkn := 0;
      while blkn < |mcu|
        invariant 0 <= blkn <= |mcu| && br.Advanced@Loaded() && unchanged(this) && br.seg.bits == bits
        invariant Makes(done, old(coefs[..]), coefs[..])
        invariant var rest := DcFirstEdits(scan, mcu, bits, br.at, eobrun, state, blkn);
                  o == rest.(edits := done + rest.edits)
      {
        assert DcReady(blkn);
        ghost var block := DcEdit(scan, mcu, bits, br.at, state, blkn);
        ghost var rest := DcFirstEdits(scan, mcu, bits, block.at, eobrun, block.dc, blkn + 1);
        assert done + (block.edits + rest.edits) == (done + block.edits) + rest.edits;
        ghost var made, mid := [], coefs[..];
        ok, state, made := DecodeDc(mcu, blkn, state);
        MakesMore(done, made, old(coefs[..]), mid, coefs[..]);
        done := done + made;
        if !ok {
          return;
        }
        blkn := blkn + 1;
      }
      assert done + [] == done;
      br.Save();
      lastDc := state;
      ok := true;
    }

    /** The length of an EOB run: 2^r, plus r appended bits. */
    method ReceiveEobRun(r: nat) returns (ok: bool, n: nat)
      requires br.Working() && r < 15
      modifies br
      ensures ok ==> br.Advanced() && br.at == old(br.at) + r && n == EobRun(br.seg.bits, old(br.at), r)
      ensures !ok ==> br.Abandoned()
    {
      hide B.StandsAt, Peek, Shl;
      ShlPositive(r);
      PeekNothing(br.seg.bits, br.at);
      ok, n := true, Shl(1, r);
      if r > 0 {
        var more;
        ok, more := br.TakeBits(r);
        n := n + more;
      }
    }

    /** The first-pass coefficients of a band, up to its end or the start of an EOB run. */
    method DecodeBand(b: nat) returns (ok: bool, run: nat, ghost done: seq<Edit>)
      requires br.Working() && AcReady(0) && scan.mode.ACFirst? && b < coefs.Length
      modifies br, coefs
      ensures Made(done)
      ensures var o := AcFirstEdits(scan.acTbl[0], br.seg.bits, old(br.at), scan.ss, scan.se, scan.al, b, lastDc);
              if ok then br.Advanced() && o == Outcome(done, br.at, run, lastDc)
              else br.Abandoned() && done <= o.edits
    {
      hide B.StandsAt, Derives, AcFirstEdits, NextSymbol, SymbolLength, Peek, Receive, NaturalOrder, Wrap16, Shl, Makes, ApplyOne, EobRun;
      ghost var t, bits := scan.acTbl[0], br.seg.bits;
      ghost var o := AcFirstEdits(t, bits, br.at, scan.ss, scan.se, scan.al, b, lastDc);
      assert [] + o.edits == o.edits;
      MakesNothing(coefs[..]);
      var k: nat, eob := scan.ss, false;
      run, done := 0, [];
      while k <= scan.se && !eob
        invariant br.Advanced() && br.seg.bits == bits
        invariant Makes(done, old(coefs[..]), coefs[..])
        invariant eob ==> o == Outcome(done, br.at, run, lastDc)
        invariant !eob ==> run == 0 && var rest := AcFirstEdits(t, bits, br.at, k, scan.se, scan.al, b, lastDc);
                                       o == rest.(edits := done + rest.edits)
        decreases 64 - k, !eob
      {
        BandStep(t, bits, br.at, k, scan.se, scan.al, b, lastDc, done);
        var sym: nat;
        ok, sym := br.HuffDecode(acDerived[0], t);
        if !ok {
          return;
        }
        var r, s := sym / 16, sym % 16;
        if s != 0 {
          k := k + r;
          ghost var e, mid := Put(0, 0, 0), coefs[..];
          ok, e := ReceiveCoef(b, k, s, scan.al);
          if !ok {
            return;
          }
          OneMore(done, e, old(coefs[..]), mid);
          k := k + 1;
          done := done + [e];
        } else if r == 15 {
          k := k + 16;
        } else {
          ok, run := ReceiveEobRun(r);
          if !ok {
            return;
          }
          assert done + [] == done;
          run, eob := run - 1, true;
        }
      }
      if !eob {
        BandStep(t, bits, br.at, k, scan.se, scan.al, b, lastDc, done);
      }
      assert done + [] == done;
      ok := true;
    }

    /** decode_mcu_AC_first; inside an EOB run not even the bit state is loaded. */
    method DecodeAcFirst(mcu: seq<nat>) returns (ok: bool, ghost done: seq<Edit>)
      requires scan.mode.ACFirst? && Ready() && br.AtRest() && McuFits(scan, mcu, coefs.Length)
      modifies this`eobrun, br, coefs
      ensures Made(done)
      ensures if ok then Completed(old(Expected(mcu))) && done == old(Expected(mcu)).edits
              else GaveUp() && done <= old(Expected(mcu)).edits
    {
      hide B.StandsAt, AcFirstEdits, Makes;
      if eobrun > 0 {
        MakesNothing(coefs[..]);
        eobrun := eobrun - 1;
        return true, [];
      }
      br.Load();
      var run;
      ok, run, done := DecodeBand(mcu[0]);
      if ok {
        br.Save();
        eobrun := run;
      }
    }

    /** The next bit of each DC coefficient of an MCU. */
    method RefineDcs(mcu: seq<nat>) returns (ok: bool, ghost done: seq<Edit>)
      requires br.Working() && McuFits(scan, mcu, coefs.Length)
      modifies br, coefs
      ensures Made(done)
      ensures var es := DcRefineEdits(scan.al, mcu, br.seg.bits, old(br.at), 0);
              if ok then br.Advanced() && br.at == old(br.at) + |mcu| && done == es
              else br.Abandoned() && done <= es
    {
      hide B.StandsAt, Peek, Makes, WithBit, DcRefineEdits;
      done := [];
      MakesNothing(coefs[..]);
      ghost var bits, es := br.seg.bits, DcRefineEdits(scan.al, mcu, br.seg.bits, br.at, 0);
      assert [] + es == es;
      var blkn := 0;
      while blkn < |mcu|
        invariant 0 <= blkn <= |mcu| && br.Advanced() && br.seg.bits == bits && br.at == old(br.at) + blkn
        invariant Makes(done, old(coefs[..]), coefs[..])
        invariant es == done + DcRefineEdits(scan.al, mcu, bits, br.at, blkn)
      {
        DcRefineStep(scan.al, mcu, bits, br.at, blkn, done);
        var bit;
        ok, bit := br.TakeBits(1);
        if !ok {
          return;
        }
        var b := mcu[blkn];
        blkn := blkn + 1;
        if bit == 1 {
          ghost var e := SetBit(b, 0, scan.al);
          OneMore(done, e, old(coefs[..]), coefs[..]);
          Store(b, 0, WithBit(coefs[b][0], scan.al), e);
          done := done + [e];
        }
      }
      DcRefineStep(scan.al, mcu, bits, br.at, blkn, done);
      assert done + [] == done;
      ok := true;
    }

    /** decode_mcu_DC_refine */
    method DecodeDcRefine(mcu: seq<nat>) returns (ok: bool, ghost done: seq<Edit>)
      requires scan.mode.DCRefine? && br.AtRest() && McuFits(scan, mcu, coefs.Length)
      modifies br, coefs
      ensures Made(done)
      ensures if ok then Completed(old(Expected(mcu))) && done == old(Expected(mcu)).edits
              else GaveUp() && done <= old(Expected(mcu)).edits
    {
      hide B.StandsAt, DcRefineEdits, Makes;
      br.Load();
      ok, done := RefineDcs(mcu);
      if ok {
        br.Save();
      }
    }

    // ----- AC refinement -----

    /** From zigzag index k on, block b still is nonzero exactly where it was. */
    ghost predicate HistoryFrom(b: nat, k: nat, nz: Pattern)
      requires b < coefs.Length
      reads coefs
    {
      forall j :: k <= j < 64 ==> (coefs[b][NaturalOrder(j)] != 0 <==> nz[NaturalOrder(j)])
    }

    /** Reads a correction bit and applies it, unless an earlier attempt at this MCU already did. */
    method CorrectCoef(b: nat, k: nat, ghost nz: Pattern) returns (ok: bool, ghost done: seq<Edit>)
      requires br.Working() && b < coefs.Length && k < 64 && HistoryFrom(b, k, nz)
      modifies br, coefs
      ensures Made(done)
      ensures ok ==> br.Advanced() && br.at == old(br.at) + 1 && HistoryFrom(b, k + 1, nz)
      ensures ok ==> done == Correction(br.seg.bits, old(br.at), k, scan.al, b)
      ensures !ok ==> br.Abandoned() && done == []
    {
      hide B.StandsAt, Peek, NaturalOrder, Wrap16, Shl, BitSet, Makes;
      done := [];
      MakesNothing(coefs[..]);
      var bit;
      ok, bit := br.TakeBits(1);
      if ok && bit == 1 {
        var pos := NaturalOrder(k);
        var v := coefs[b][pos];
        ghost var e := Raise(b, pos, scan.al);
        OneMore([], e, coefs[..], coefs[..]);
        assert [] + [e] == [e];
        done := [e];
        if !BitSet(v, scan.al) {
          v := if v >= 0 then Wrap16(v + Shl(1, scan.al)) else Wrap16(v - Shl(1, scan.al));
        }
        StoreKeepsHistory(b, k, nz, pos, v);
        Store(b, pos, v, e);
      }
    }

    lemma StoreKeepsHistory(b: nat, k: nat, nz: Pattern, pos: nat, v: Coef)
      requires b < coefs.Length && k < 64 && pos == NaturalOrder(k) && HistoryFrom(b, k, nz)
      ensures forall j :: k < j < 64 ==> (coefs[b][pos := v][NaturalOrder(j)] != 0 <==> nz[NaturalOrder(j)])
    {
      hide NaturalOrder, ZigzagOrder;
      forall j | k < j < 64
        ensures coefs[b][pos := v][NaturalOrder(j)] != 0 <==> nz[NaturalOrder(j)]
      {
        ZigzagOfNatural(j);
        ZigzagOfNatural(k);
      }
    }

    /** Over nonzero coefficients, correcting them, and r zeros, to the target zero or past the band. */
    method AdvanceOver(b: nat, k0: nat, r0: nat, ghost nz: Pattern) returns (ok: bool, k: nat, ghost done: seq<Edit>)
      requires br.Working() && b < coefs.Length && k0 <= scan.se <= 63 && HistoryFrom(b, k0, nz)
      modifies br, coefs
      ensures Made(done)
      ensures ok ==> br.Advanced() && HistoryFrom(b, k, nz)
      ensures var o := Advance(br.seg.bits, old(br.at), k0, scan.se, r0, scan.al, b, nz);
              if ok then o == Refined(done, br.at, k, 0) else br.Abandoned() && done <= o.edits
    {
      hide B.StandsAt, Advance, Correction, NaturalOrder, Makes;
      ghost var bits := br.seg.bits;
      ghost var o := Advance(bits, br.at, k0, scan.se, r0, scan.al, b, nz);
      assert [] + o.edits == o.edits;
      done, k := [], k0;
      MakesNothing(coefs[..]);
      var r: int, atTarget := r0, false;
      while k <= scan.se && !atTarget
        invariant br.Advanced() && br.seg.bits == bits && HistoryFrom(b, k, nz) && r >= (if atTarget then -1 else 0)
        invariant Makes(done, old(coefs[..]), coefs[..])
        invariant if atTarget then o == Refined(done, br.at, k, 0)
                  else var rest := Advance(bits, br.at, k, scan.se, r, scan.al, b, nz);
                       o == rest.(edits := done + rest.edits)
        decreases scan.se + 1 - k, !atTarget
      {
        AdvanceStep(bits, br.at, k, scan.se, r, scan.al, b, nz, done);
        if coefs[b][NaturalOrder(k)] != 0 {
          ghost var made, mid := [], coefs[..];
          ok, made := CorrectCoef(b, k, nz);
          MakesMore(done, made, old(coefs[..]), mid, coefs[..]);
          if !ok {
            assert done + [] == done;
            return;
          }
          done := done + made;
          k := k + 1;
        } else {
          r := r - 1;
          if r < 0 {
            assert done + [] == done;
            atTarget := true;
          } else {
            k := k + 1;
          }
        }
      }
      if !atTarget {
        AdvanceStep(bits, br.at, k, scan.se, r, scan.al, b, nz, done);
      }
      assert done + [] == done;
      ok := true;
    }

    /** Inside an EOB run: all the nonzero history in the rest of the band. */
    method CorrectRest(b: nat, k0: nat, ghost nz: Pattern) returns (ok: bool, ghost done: seq<Edit>)
      requires br.Working() && b < coefs.Length && scan.se <= 63 && HistoryFrom(b, k0, nz)
      modifies br, coefs
      ensures Made(done)
      ensures var o := RunEdits(br.seg.bits, old(br.at), k0, scan.se, scan.al, b, nz);
              if ok then br.Advanced() && o == (done, br.at) else br.Abandoned() && done <= o.0
    {
      hide B.StandsAt, RunEdits, Correction, NaturalOrder, Makes;
      ghost var bits := br.seg.bits;
      ghost var o := RunEdits(bits, br.at, k0, scan.se, scan.al, b, nz);
      assert [] + o.0 == o.0;
      done := [];
      MakesNothing(coefs[..]);
      var k := k0;
      while k <= scan.se
        invariant br.Advanced() && br.seg.bits == bits && HistoryFrom(b, k, nz)
        invariant Makes(done, old(coefs[..]), coefs[..])
        invariant var rest := RunEdits(bits, br.at, k, scan.se, scan.al, b, nz);
                  o == (done + rest.0, rest.1)
        decreases scan.se + 1 - k
      {
        RunStep(bits, br.at, k, scan.se, scan.al, b, nz, done);
        if coefs[b][NaturalOrder(k)] != 0 {
          ghost var made, mid := [], coefs[..];
          ok, made := CorrectCoef(b, k, nz);
          MakesMore(done, made, old(coefs[..]), mid, coefs[..]);
          if !ok {
            assert done + [] == done;
            return;
          }
          done := done + made;
        }
        k := k + 1;
      }
      RunStep(bits, br.at, k, scan.se, scan.al, b, nz, done);
      assert done + [] == done;
      ok := true;
    }

    /** What is known while an MCU can still be abandoned: the list names the new coefficients. */
    ghost predicate CanUndo(b: nat, k: nat, nz: Pattern, done: seq<Edit>, newnzPos: array<nat>, num: nat)
      requires b < coefs.Length && num <= newnzPos.Length
      reads coefs, newnzPos
    {
      HistoryFrom(b, k, nz) && Tidy(done, b, nz) && Listed(done, b, newnzPos[..num])
    }

    /** A coefficient code of a band (or ZRL): its sign bit, the history before it, the coefficient itself. */
    method RefineCoef(b: nat, k0: nat, run: nat, size: nat, newnzPos: array<nat>, num0: nat, ghost nz: Pattern, ghost prior: seq<Edit>)
      returns (ok: bool, k: nat, num: nat, ghost done: seq<Edit>)
      requires br.Working() && b < coefs.Length && k0 <= scan.se <= 63
      requires num0 < newnzPos.Length && newnzPos.Length == 64 && CanUndo(b, k0, nz, prior, newnzPos, num0)
      modifies br, coefs, newnzPos
      ensures Made(done) && num0 <= num <= num0 + 1 && k0 <= k <= scan.se + 1
      ensures var p1 := old(br.at);
              var o := Advance(br.seg.bits, if size != 0 then p1 + 1 else p1, k0, scan.se, run, scan.al, b, nz);
              var made := o.edits + (if size != 0 then [Put(b, NaturalOrder(o.k), NewCoef(br.seg.bits, p1, scan.al))] else []);
              if ok then br.Advanced() && br.at == o.at && k == o.k && done == made else br.Abandoned() && done <= made
      ensures if ok then k <= scan.se ==> CanUndo(b, k + 1, nz, prior + done, newnzPos, num)
              else num == num0 && Tidy(prior + done, b, nz) && Listed(prior + done, b, newnzPos[..num])
    {
      hide B.StandsAt, Peek, Advance, NaturalOrder, Wrap16, Shl, Makes, Tidy, Listed, PutAt, Corrects;
      ghost var bits, p1 := br.seg.bits, br.at;
      ghost var o := Advance(bits, if size != 0 then p1 + 1 else p1, k0, scan.se, run, scan.al, b, nz);
      AdvanceCorrects(bits, if size != 0 then p1 + 1 else p1, k0, scan.se, run, scan.al, b, nz);
      k, num, done := k0, num0, [];
      MakesNothing(coefs[..]);
      assert prior + [] == prior;
      var sign: nat := 0;
      if size != 0 {
        ok, sign := br.TakeBits(1);
        if !ok {
          return;
        }
      }
      ok, k, done := AdvanceOver(b, k0, run, nz);
      CorrectionsKeepTidy(prior, o.edits, done, b, nz, newnzPos[..num]);
      if !ok {
        k := k0;
        return;
      }
      if size != 0 {
        var pos := NaturalOrder(k);
        var v := Wrap16(if sign == 1 then Shl(1, scan.al) else Shl(-1, scan.al));
        ghost var e := Put(b, pos, v);
        OneMore(done, e, old(coefs[..]), coefs[..]);
        if k <= scan.se {
          StoreKeepsHistory(b, k, nz, pos, v);
          NewKeepsTidy(prior + done, b, nz, pos, v, newnzPos[..num]);
          assert (prior + done) + [e] == prior + (done + [e]);
        }
        Store(b, pos, v, e);
        done := done + [e];
        ghost var list := newnzPos[..num];
        newnzPos[num] := pos;
        num := num + 1;
        assert newnzPos[..num] == list + [pos];
      } else {
        assert done + [] == done;
      }
    }

    /** One code of the band: an EOB run of known length, or coefficients up to the next zigzag index. */
    method RefineCode(b: nat, k0: nat, newnzPos: array<nat>, num0: nat, ghost nz: Pattern, ghost prior: seq<Edit>)
      returns (ok: bool, k: nat, run: nat, num: nat, ghost done: seq<Edit>)
      requires br.Working() && AcReady(0) && scan.mode.ACRefine? && b < coefs.Length && k0 <= scan.se
      requires num0 <= k0 && newnzPos.Length == 64 && CanUndo(b, k0, nz, prior, newnzPos, num0)
      modifies br, coefs, newnzPos
      ensures Made(done) && num <= 64
      ensures var now := BandEdits(scan.acTbl[0], br.seg.bits, old(br.at), k0, scan.se, scan.al, b, nz);
              var rest := BandEdits(scan.acTbl[0], br.seg.bits, br.at, k, scan.se, scan.al, b, nz);
              if !ok then br.Abandoned() && done <= now.edits
              else br.Advanced() && if run > 0 then now == Refined(done, br.at, k, run) else now == rest.(edits := done + rest.edits)
      ensures if ok then if run > 0 then k == k0 && num == num0 else k0 < k && num <= num0 + 1
              else Tidy(prior + done, b, nz) && Listed(prior + done, b, newnzPos[..num])
      ensures ok && k <= scan.se + 1 ==> CanUndo(b, k, nz, prior + done, newnzPos, num)
    {
      hide B.StandsAt, Derives, BandEdits, NextSymbol, SymbolLength, Peek, Advance, NaturalOrder, Shl, Makes, Tidy, Listed, PutAt, EobRun;
      ghost var t, bits := scan.acTbl[0], br.seg.bits;
      RefineStep(t, bits, br.at, k0, scan.se, scan.al, b, nz, []);
      ghost var now := BandEdits(t, bits, br.at, k0, scan.se, scan.al, b, nz);
      assert [] + now.edits == now.edits;
      k, run, num, done := k0, 0, num0, [];
      MakesNothing(coefs[..]);
      assert prior + [] == prior;
      var sym: nat;
      ok, sym := br.HuffDecode(acDerived[0], t);
      if !ok {
        return;
      }
      var r, s := sym / 16, sym % 16;
      if s == 0 && r != 15 {
        ok, run := ReceiveEobRun(r);
      } else {
        ghost var o := Advance(bits, if s != 0 then br.at + 1 else br.at, k0, scan.se, r, scan.al, b, nz);
        assert [] + o.edits == o.edits;
        ok, k, num, done := RefineCoef(b, k0, r, s, newnzPos, num0, nz, prior);
        if ok {
          k := k + 1;
        }
      }
    }

    /** The rest of the band up to an EOB code or its end; on giving up, all that is needed to undo. */
    method RefineBand(b: nat, newnzPos: array<nat>, ghost nz: Pattern)
      returns (ok: bool, k: nat, run: nat, num: nat, ghost done: seq<Edit>)
      requires br.Working() && AcReady(0) && scan.mode.ACRefine? && b < coefs.Length && newnzPos.Length == 64
      requires HistoryFrom(b, scan.ss, nz)
      modifies br, coefs, newnzPos
      ensures Made(done) && num <= 64
      ensures var o := BandEdits(scan.acTbl[0], br.seg.bits, old(br.at), scan.ss, scan.se, scan.al, b, nz);
              if ok then br.Advanced() && o == Refined(done, br.at, k, run) else br.Abandoned() && done <= o.edits
      ensures if ok then run > 0 ==> CanUndo(b, k, nz, done, newnzPos, num)
              else Tidy(done, b, nz) && Listed(done, b, newnzPos[..num])
    {
      hide B.StandsAt, Derives, BandEdits, NaturalOrder, Makes, Tidy, Listed, PutAt;
      ghost var t, bits := scan.acTbl[0], br.seg.bits;
      ghost var o := BandEdits(t, bits, br.at, scan.ss, scan.se, scan.al, b, nz);
      assert [] + o.edits == o.edits;
      k, run, num, done := scan.ss, 0, 0, [];
      MakesNothing(coefs[..]);
      NothingListed(b, nz, newnzPos[..0]);
      while k <= scan.se && run == 0
        invariant br.Advanced() && br.seg.bits == bits
        invariant Makes(done, old(coefs[..]), coefs[..])
        invariant num <= k && num <= 64
        invariant k <= scan.se + 1 ==> CanUndo(b, k, nz, done, newnzPos, num)
        invariant run > 0 ==> k <= scan.se && o == Refined(done, br.at, k, run)
        invariant run == 0 ==> var rest := BandEdits(t, bits, br.at, k, scan.se, scan.al, b, nz);
                               o == rest.(edits := done + rest.edits)
        decreases scan.se + 2 - k, run == 0
      {
        ghost var now, made, mid := BandEdits(t, bits, br.at, k, scan.se, scan.al, b, nz), [], coefs[..];
        ok, k, run, num, made := RefineCode(b, k, newnzPos, num, nz, done);
        MakesMore(done, made, old(coefs[..]), mid, coefs[..]);
        if !ok {
          done := done + made;
          return;
        }
        FrontMore(done, made, now, BandEdits(t, bits, br.at, k, scan.se, scan.al, b, nz));
        done := done + made;
      }
      if run == 0 {
        RefineStep(t, bits, br.at, k, scan.se, scan.al, b, nz, done);
      }
      assert done + [] == done;
      ok := true;
    }

    /** Re-zeroes the newly nonzero coefficients: only the corrections remain. */
    method Undo(b: nat, newnzPos: array<nat>, num0: nat, ghost done: seq<Edit>, ghost before: seq<Block>)
      requires |before| == coefs.Length && b < coefs.Length && num0 <= newnzPos.Length
      requires Makes(done, before, coefs[..])
      requires Tidy(done, b, NonZero(before[b])) && Listed(done, b, newnzPos[..num0])
      modifies coefs
      ensures Makes(Touches(done), before, coefs[..])
    {
      hide Tidy, PutAt, Apply, Touches;
      var num: nat := num0;
      ghost var list := newnzPos[..num0];
      ghost var was := coefs[..];
      while num > 0
        invariant num <= num0 && newnzPos[..num0] == list
        invariant forall c: nat :: c < coefs.Length && c != b ==> coefs[c] == was[c]
        invariant forall pos: nat :: pos < 64 && pos in list[num..] ==> coefs[b][pos] == 0
        invariant forall pos: nat :: pos < 64 && pos !in list[num..] ==> coefs[b][pos] == was[b][pos]
      {
        num := num - 1;
        assert list[num..] == [list[num]] + list[num + 1..];
        assert newnzPos[num] == list[num];
        coefs[b] := coefs[b][newnzPos[num] := 0];
      }
      assert list[0..] == list;
      UndoneIsCorrected(done, before, b, list, coefs[..]);
    }

    /** A block: the codes of its band, unless it lies inside an EOB run, and the corrections of the rest. */
    method RefineBlock(b: nat, newnzPos: array<nat>, ghost nz: Pattern) returns (ok: bool, run: nat, num: nat, ghost done: seq<Edit>)
      requires br.Working() && AcReady(0) && scan.mode.ACRefine? && b < coefs.Length && newnzPos.Length == 64
      requires HistoryFrom(b, scan.ss, nz)
      modifies br, coefs, newnzPos
      ensures Made(done) && num <= 64
      ensures var o := AcRefineEdits(scan.acTbl[0], br.seg.bits, old(br.at), scan.ss, scan.se, scan.al, b, nz, eobrun, lastDc);
              if ok then br.Advanced() && done == o.edits && br.at == o.at && run == o.eobrun else br.Abandoned() && done <= o.edits
      ensures !ok ==> Tidy(done, b, nz) && Listed(done, b, newnzPos[..num])
    {
      hide B.StandsAt, BandEdits, RunEdits, NaturalOrder, Makes, Tidy, Listed, PutAt, Corrects, Derives;
      var k := scan.ss;
      ok, run, num, done := true, eobrun, 0, [];
      MakesNothing(coefs[..]);
      NothingListed(b, nz, newnzPos[..0]);
      if eobrun == 0 {
        ok, k, run, num, done := RefineBand(b, newnzPos, nz);
      }
      if ok && run > 0 {
        ghost var made, mid := [], coefs[..];
        RunCorrects(br.seg.bits, br.at, k, scan.se, scan.al, b, nz);
        ghost var all := RunEdits(br.seg.bits, br.at, k, scan.se, scan.al, b, nz).0;
        ok, made := CorrectRest(b, k, nz);
        CorrectionsKeepTidy(done, all, made, b, nz, newnzPos[..num]);
        MakesMore(done, made, old(coefs[..]), mid, coefs[..]);
        done := done + made;
        run := run - 1;
      }
    }

    /** decode_mcu_AC_refine: on suspension the corrections made so far stay, the new coefficients go. */
    method DecodeAcRefine(mcu: seq<nat>) returns (ok: bool, ghost done: seq<Edit>)
      requires scan.mode.ACRefine? && Ready() && br.AtRest() && McuFits(scan, mcu, coefs.Length)
      modifies this`eobrun, br, coefs
      ensures Made(done)
      ensures ok ==> Completed(old(Expected(mcu))) && done == old(Expected(mcu)).edits
      ensures !ok ==> GaveUp() && PartlyMade(scan, mcu, old(coefs[..]), coefs[..], old(Expected(mcu)).edits, done)
    {
      hide B.StandsAt, BandEdits, RunEdits, Makes, Tidy, Listed, Touches, Derives, NaturalOrder;
      var newnzPos := new nat[64];
      var b := mcu[0];
      ghost var nz := NonZero(coefs[b]);
      br.Load();
      var run, num;
      ok, run, num, done := RefineBlock(b, newnzPos, nz);
      if ok {
        br.Save();
        eobrun := run;
      } else {
        Undo(b, newnzPos, num, done, old(coefs[..]));
        UndoneIsPartlyMade(scan, mcu, old(coefs[..]), coefs[..], done, br.seg.bits, br.permAt, eobrun, lastDc);
        done := Touches(done);
      }
    }

    // ----- restarts and whole MCUs -----

    /** More bytes arrive; the decoder stands where it stood. */
    method Deliver(n: nat)
      requires Valid()
      modifies br`avail
      ensures Valid() && Current() == old(Current())
      ensures br.avail == if old(br.avail) + n < |br.file| then old(br.avail) + n else |br.file|
    {
      hide B.StandsAt, SegmentAt, Resync, Ready;
      br.avail := if br.avail + n < |br.file| then br.avail + n else |br.file|;
    }

    predicate RestartDue()
      reads this
    {
      scan.restartInterval > 0 && restartsToGo == 0
    }

    ghost predicate Valid()
      reads this, br
      ensures Valid() ==> br.nextRestartNum < 8 && br.avail <= |br.file|
    {
      && Ready() && br.nextRestartNum < 8
      && (if RestartDue() then br.srcPos <= br.avail <= |br.file| && -0x8000_0000 <= br.permBuffer < 0x8000_0000
          else br.AtRest())
    }

    /** The decoder state between MCUs. Bits that a due restart will throw away are no part of it. */
    ghost function Current(): State
      requires br.nextRestartNum < 8
      reads this, br
    {
      State(if RestartDue() then Restarting(br.Pending(br.nextRestartNum)) else Running(br.seg, br.permAt),
                  br.insufficientData, eobrun, lastDc, restartsToGo, br.nextRestartNum)
    }

    /** process_restart */
    method ProcessRestart() returns (ok: bool)
      requires Valid() && RestartDue()
      modifies this, br
      ensures Valid() && br.avail == old(br.avail)
      ensures ok ==> Current() == Begin(scan, br.file, old(Current())) && Current().stream.Running?
      ensures !ok ==> Current() == old(Current()) && (br.avail == |br.file| ==> Current().stream.next == Never)
    {
      hide Resync, SegmentAt, LowBits, Ready;
      br.permBits := 0;
      ok := br.ReadRestartMarker();
      if !ok {
        return;
      }
      lastDc, eobrun := [0, 0, 0, 0], 0;
      restartsToGo := scan.restartInterval;
      if br.unreadMarker == 0 {
        br.insufficientData := false;
      }
      br.seg, br.permAt := SegmentFrom(br.file, br.unreadMarker, br.srcPos), 0;
      B.FreshSegment(br.file, br.unreadMarker, br.srcPos, br.permBuffer);
    }

    /** decode_mcu of any scan: on success one step of the specification; on suspension whatever has
        changed makes no difference to that step. It succeeds when all bytes are there and a marker follows. */
    method DecodeMcu(mcu: seq<nat>) returns (ok: bool)
      requires Valid() && McuFits(scan, mcu, coefs.Length)
      modifies this, br, coefs
      ensures Valid() && br.avail == old(br.avail)
      ensures ok ==> (Current(), coefs[..]) == Step(scan, mcu, br.file, old(Current()), old(coefs[..]))
      ensures !ok ==> Step(scan, mcu, br.file, Current(), coefs[..]) == Step(scan, mcu, br.file, old(Current()), old(coefs[..]))
      ensures !ok ==> Terminated(scan, br.file, Current()) == Terminated(scan, br.file, old(Current()))
      ensures ok ==> br.Ahead() == ClosedBy(scan, br.file, old(Current()))
      ensures !ok ==> ClosedBy(scan, br.file, Current()) == ClosedBy(scan, br.file, old(Current()))
      ensures br.avail == |br.file| && Terminated(scan, br.file, old(Current())) ==> ok
    {
      hide McuOutcome, B.StandsAt, Resync, SegmentAt, Ready;
      if RestartDue() {
        ok := ProcessRestart();
        if !ok {
          return;
        }
      }
      ghost var st := Current();
      assert st == Begin(scan, br.file, old(Current()));
      ok := true;
      if !br.insufficientData || scan.mode.DCRefine? {
        ok := DecodeBlocks(mcu);
      }
      assert ok ==> coefs[..] == Apply(Decoded(scan, mcu, st, old(coefs[..])).edits, old(coefs[..]));
      if ok {
        CountMcu();
      }
    }

    /** Restart accounting after an MCU. */
    method CountMcu()
      requires Ready() && br.nextRestartNum < 8 && br.AtRest() && !RestartDue()
      modifies this`restartsToGo
      ensures Valid() && Current() == End(scan, br.file, old(Current()))
      ensures br.Ahead() == EndOf(br.seg)
    {
      hide B.StandsAt, Resync, SegmentAt, Ready;
      restartsToGo := if restartsToGo == 0 then 0xFFFF_FFFF else restartsToGo - 1;
      RestSeesEnd(br.file, br.seg, br.unreadMarker, br.srcPos, br.permBuffer, br.permBits, br.permAt);
    }

    /** The decoding routine start_pass selected, applied to one MCU. */
    method DecodeBlocks(mcu: seq<nat>) returns (ok: bool)
      requires Valid() && !RestartDue() && McuFits(scan, mcu, coefs.Length)
      modifies this`lastDc, this`eobrun, br, coefs
      ensures ok ==> Completed(old(Expected(mcu))) && Makes(old(Expected(mcu)).edits, old(coefs[..]), coefs[..])
      ensures !ok ==> GaveUp() && Expected(mcu) == old(Expected(mcu))
      ensures AllInRange(old(Expected(mcu)).edits, coefs.Length)
      ensures !ok ==> Apply(old(Expected(mcu)).edits, coefs[..]) == Apply(old(Expected(mcu)).edits, old(coefs[..]))
    {
      hide McuOutcome, B.StandsAt, Apply, Covers;
      ghost var done;
      match scan.mode {
        case Baseline => ok, done := DecodeBaseline(mcu);
        case DCFirst => ok, done := DecodeDcFirst(mcu);
        case ACFirst => ok, done := DecodeAcFirst(mcu);
        case DCRefine => ok, done := DecodeDcRefine(mcu);
        case ACRefine => ok, done := DecodeAcRefine(mcu);
      }
      if !ok {
        if !scan.mode.ACRefine? {
          PrefixIsPartlyMade(scan, mcu, old(coefs[..]), coefs[..], done, br.seg.bits, br.permAt, eobrun, lastDc);
        }
        RetryIsInvisible(scan, mcu, old(coefs[..]), coefs[..], done, br.seg.bits, br.permAt, eobrun, lastDc);
      }
    }
  }

  /** The tables that start_pass derives for a scan are acceptable. */
  ghost predicate TablesAccepted(c: Scan) {
    match c.mode
    case Baseline => forall i :: 0 <= i < |c.membership| ==> Acceptable(c.dcTbl[i], true) && Acceptable(c.acTbl[i], false)
    case DCFirst => forall i :: 0 <= i < |c.membership| ==> Acceptable(c.dcTbl[i], true)
    case DCRefine => true
    case ACFirst => Acceptable(c.acTbl[0], false)
    case ACRefine => Acceptable(c.acTbl[0], false)
  }

  /** Derives the tables of a list; an unacceptable one is an error. */
  method DeriveTables(tbls: seq<JHuffTbl>, isDC: bool) returns (ok: bool, ds: seq<DerivedTbl>)
    ensures ok <==> forall i :: 0 <= i < |tbls| ==> Acceptable(tbls[i], isDC)
    ensures ok ==> |ds| == |tbls| && forall i :: 0 <= i < |tbls| ==> Derives(ds[i], tbls[i])
  {
    hide Acceptable, Derives;
    ds := [];
    while |ds| < |tbls|
      invariant |ds| <= |tbls|
      invariant forall i :: 0 <= i < |ds| ==> Acceptable(tbls[i], isDC) && Derives(ds[i], tbls[i])
    {
      var d;
      ok, d := MakeDerivedTbl(tbls[|ds|], isDC);
      if !ok {
        return;
      }
      ds := ds + [d];
    }
    ok := true;
  }

  /** start_pass: derives the tables that this kind of scan uses, and sets the decoder up. */
  method StartPass(br: B.BitReader, scan: Scan, coefs: array<Block>) returns (ok: bool, d: EntropyDecoder?)
    requires br.srcPos <= br.avail <= |br.file| && br.nextRestartNum < 8
    modifies br`permBuffer, br`permBits, br`permAt, br`seg, br`insufficientData
    ensures ok <==> TablesAccepted(scan)
    ensures ok ==> d != null && fresh(d) && d.br == br && d.scan == scan && d.coefs == coefs && d.Valid()
    ensures ok ==> d.Current() == State(Running(SegmentFrom(br.file, br.unreadMarker, br.srcPos), 0), false, 0, [0, 0, 0, 0],
                                        scan.restartInterval, br.nextRestartNum)
  {
    hide Derives, SegmentFrom, EntropyDecoder.Valid, EntropyDecoder.Current, Kraft;
    ok, d := true, null;
    var dc, ac: seq<DerivedTbl> := [], [];
    if scan.mode.Baseline? || scan.mode.DCFirst? {
      ok, dc := DeriveTables(scan.dcTbl, true);
      if !ok {
        return;
      }
    }
    if !scan.mode.DCFirst? && !scan.mode.DCRefine? {
      ok, ac := DeriveTables(scan.acTbl, false);
      if !ok {
        return;
      }
    }
    d := new EntropyDecoder(br, scan, dc, ac, coefs);
  }

  /** The segment the decoder is in, or about to start, is closed by a marker. */
  ghost predicate Terminated(c: Scan, file: seq<Byte>, st: State) {
    var b := Begin(c, file, st);
    b.stream.Running? && b.stream.seg.marker != 0
  }

  /** The end of the segment that the next MCU is in; no marker if its restart never comes. */
  ghost function ClosedBy(c: Scan, file: seq<Byte>, st: State): Ending {
    var b := Begin(c, file, st);
    if b.stream.Running? then EndOf(b.stream.seg) else Ending(0, 0)
  }

  lemma RestSeesEnd(file: seq<Byte>, seg: Segment, unread: Byte, pos: nat, buffer: int, bits: nat, p: nat)
    requires B.StandsAt(file, seg, unread, pos, buffer, bits, p)
    ensures SegmentFrom(file, unread, pos).marker == seg.marker && SegmentFrom(file, unread, pos).after == seg.after
    ensures -0x8000_0000 <= buffer < 0x8000_0000
  {
  }

  /** One step of the AC decoding loop, with the edits made so far in front. */
  lemma AcStep(t: JHuffTbl, s: seq<bool>, p: nat, k: nat, b: nat, done: seq<Edit>)
    ensures k >= 64 ==> done + AcEdits(t, s, p, k, b).0 == done && AcEdits(t, s, p, k, b).1 == p
    ensures k < 64 ==>
              var p1, run, size := p + SymbolLength(t, s, p), NextSymbol(t, s, p) / 16, NextSymbol(t, s, p) % 16;
              var now := AcEdits(t, s, p, k, b);
              if size != 0 then
                var e, rest := Put(b, NaturalOrder(k + run), Wrap16(Shl(Receive(s, p1, size), 0))), AcEdits(t, s, p1 + size, k + run + 1, b);
                done + now.0 == (done + [e]) + rest.0 && now.1 == rest.1
              else if run == 15 then now == AcEdits(t, s, p1, k + 16, b)
              else done + now.0 == done && now.1 == p1
  {
    hide SymbolLength, NextSymbol, NaturalOrder, Receive, Wrap16;
    if k < 64 {
      var p1, run, size := p + SymbolLength(t, s, p), NextSymbol(t, s, p) / 16, NextSymbol(t, s, p) % 16;
      if size != 0 {
        var e, rest := Put(b, NaturalOrder(k + run), Wrap16(Shl(Receive(s, p1, size), 0))), AcEdits(t, s, p1 + size, k + run + 1, b);
        assert done + ([e] + rest.0) == (done + [e]) + rest.0;
      }
    }
  }

  /** The same for the bits of a DC refinement. */
  lemma DcRefineStep(al: nat, mcu: seq<nat>, s: seq<bool>, p: nat, i: nat, done: seq<Edit>)
    requires i <= |mcu|
    ensures done + DcRefineEdits(al, mcu, s, p, i)
         == if i == |mcu| then done
            else (if Peek(s, p, 1) == 1 then done + [SetBit(mcu[i], 0, al)] else done) + DcRefineEdits(al, mcu, s, p + 1, i + 1)
  {
    hide Peek;
    if i < |mcu| {
      var rest := DcRefineEdits(al, mcu, s, p + 1, i + 1);
      assert done + ([SetBit(mcu[i], 0, al)] + rest) == (done + [SetBit(mcu[i], 0, al)]) + rest;
      assert [] + rest == rest;
    }
  }

  /** The same for the first pass over a band. */
  lemma BandStep(t: JHuffTbl, s: seq<bool>, p: nat, k: nat, se: nat, al: nat, b: nat, dc: Predictions, done: seq<Edit>)
    requires se <= 63
    ensures k > se ==> AcFirstEdits(t, s, p, k, se, al, b, dc) == Outcome([], p, 0, dc)
    ensures k <= se ==>
              var p1, run, size := p + SymbolLength(t, s, p), NextSymbol(t, s, p) / 16, NextSymbol(t, s, p) % 16;
              var now := AcFirstEdits(t, s, p, k, se, al, b, dc);
              if size != 0 then
                var e := Put(b, NaturalOrder(k + run), Wrap16(Shl(Receive(s, p1, size), al)));
                var rest := AcFirstEdits(t, s, p1 + size, k + run + 1, se, al, b, dc);
                now.(edits := done + now.edits) == rest.(edits := (done + [e]) + rest.edits)
              else if run == 15 then now == AcFirstEdits(t, s, p1, k + 16, se, al, b, dc)
              else now == Outcome([], p1 + run, EobRun(s, p1, run) - 1, dc)
  {
    hide SymbolLength, NextSymbol, NaturalOrder, Receive, Wrap16, Shl, EobRun;
    if k <= se {
      var p1, run, size := p + SymbolLength(t, s, p), NextSymbol(t, s, p) / 16, NextSymbol(t, s, p) % 16;
      if size != 0 {
        var e := Put(b, NaturalOrder(k + run), Wrap16(Shl(Receive(s, p1, size), al)));
        var rest := AcFirstEdits(t, s, p1 + size, k + run + 1, se, al, b, dc);
        assert done + ([e] + rest.edits) == (done + [e]) + rest.edits;
      }
    }
  }

  /** Making the edits turns one state of the coefficients into the other. */
  ghost predicate Makes(es: seq<Edit>, before: seq<Block>, now: seq<Block>) {
    AllInRange(es, |before|) && now == Apply(es, before)
  }

  lemma MakesNothing(now: seq<Block>)
    ensures Makes([], now, now)
  {
  }

  lemma OneMore(es: seq<Edit>, e: Edit, before: seq<Block>, now: seq<Block>)
    requires Makes(es, before, now) && InRange(e, |now|)
    ensures Makes(es + [e], before, ApplyOne(e, now))
  {
    assert (es + [e])[..|es|] == es;
  }

  lemma MakesMore(es: seq<Edit>, fs: seq<Edit>, before: seq<Block>, mid: seq<Block>, now: seq<Block>)
    requires Makes(es, before, mid) && Makes(fs, mid, now)
    ensures Makes(es + fs, before, now)
  {
    ApplyAppend(es, fs, before);
  }

  lemma FrontMore(done: seq<Edit>, made: seq<Edit>, now: Refined, rest: Refined)
    ensures now == rest.(edits := made + rest.edits) ==> now.(edits := done + now.edits) == rest.(edits := (done + made) + rest.edits)
  {
    assert done + (made + rest.edits) == (done + made) + rest.edits;
  }

  lemma PeekNothing(s: seq<bool>, p: nat)
    ensures Peek(s, p, 0) == 0
  {
  }

  lemma CorrectionsKeepTidy(prior: seq<Edit>, all: seq<Edit>, fs: seq<Edit>, b: nat, nz: Pattern, list: seq<nat>)
    requires Tidy(prior, b, nz) && Listed(prior, b, list) && Corrects(all, b, nz) && fs <= all
    ensures Tidy(prior + fs, b, nz) && Listed(prior + fs, b, list)
  {
    assert forall i :: 0 <= i < |fs| ==> fs[i] == all[i];
    TidyAppend(prior, fs, b, nz);
    ListedCorrections(prior, fs, b, list);
  }

  lemma NewKeepsTidy(es: seq<Edit>, b: nat, nz: Pattern, pos: nat, v: Coef, list: seq<nat>)
    requires Tidy(es, b, nz) && Listed(es, b, list) && pos < 64 && !nz[pos]
    ensures Tidy(es + [Put(b, pos, v)], b, nz) && Listed(es + [Put(b, pos, v)], b, list + [pos])
  {
    ListedPut(es, b, pos, v, list);
  }

  lemma NothingListed(b: nat, nz: Pattern, list: seq<nat>)
    requires list == []
    ensures Tidy([], b, nz) && Listed([], b, list)
  {
  }

  lemma UndoneIsPartlyMade(c: Scan, mcu: seq<nat>, before: seq<Block>, now: seq<Block>, done: seq<Edit>,
                           s: seq<bool>, p: nat, eobrun: nat, dc: Predictions)
    requires McuFits(c, mcu, |before|) && c.mode.ACRefine?
    requires Tidy(done, mcu[0], NonZero(before[mcu[0]])) && Makes(Touches(done), before, now)
    requires done <= McuOutcome(c, mcu, before, s, p, eobrun, dc).edits
    ensures PartlyMade(c, mcu, before, now, McuOutcome(c, mcu, before, s, p, eobrun, dc).edits, Touches(done))
  {
    hide Tidy, Touches, Apply, Covers, McuOutcome, NonZero;
    var all := McuOutcome(c, mcu, before, s, p, eobrun, dc).edits;
    OutcomeFine(c, mcu, before, s, p, eobrun, dc);
    UniformPrefix(all, done, true, c.al);
    assert forall i :: 0 <= i < |done| ==> done[i] == all[i];
    TouchesCovered(all, done);
    TouchesOf(done, |before|, true, c.al);
    CorrectionsKeepPattern(done, before, mcu[0], c.al);
  }

  lemma PrefixIsPartlyMade(c: Scan, mcu: seq<nat>, before: seq<Block>, now: seq<Block>, done: seq<Edit>,
                           s: seq<bool>, p: nat, eobrun: nat, dc: Predictions)
    requires McuFits(c, mcu, |before|) && !c.mode.ACRefine?
    requires Makes(done, before, now)
    requires done <= McuOutcome(c, mcu, before, s, p, eobrun, dc).edits
    ensures PartlyMade(c, mcu, before, now, McuOutcome(c, mcu, before, s, p, eobrun, dc).edits, done)
  {
    hide Apply, Covers, McuOutcome;
    var all := McuOutcome(c, mcu, before, s, p, eobrun, dc).edits;
    OutcomeFine(c, mcu, before, s, p, eobrun, dc);
    UniformPrefix(all, done, false, c.al);
    PrefixCovered(all, |done|);
    assert all[..|done|] == done;
  }
}
