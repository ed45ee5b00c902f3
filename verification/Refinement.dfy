/** Steps of the AC refinement pass and the effect of its undo list (jdphuff.c). */
module Refinement {
  import opened Bits
  import opened HuffmanTable
  import opened Coefficients
  import opened EntropySpec

  /** Edits of block b that correct only nonzero history and create only where there was none. */
  ghost predicate Tidy(es: seq<Edit>, b: nat, nz: Pattern) {
    forall i :: 0 <= i < |es| ==>
      es[i].block == b && es[i].pos < 64 && !es[i].SetBit? && (es[i].Put? <==> !nz[es[i].pos])
  }

  /** The positions of newly nonzero coefficients are exactly those listed. */
  ghost predicate Listed(es: seq<Edit>, b: nat, list: seq<nat>) {
    && (forall i :: 0 <= i < |list| ==> list[i] < 64)
    && forall pos: nat :: PutAt(es, b, pos) <==> pos in list
  }

  lemma PutAtAppend(es: seq<Edit>, fs: seq<Edit>, b: nat, pos: nat)
    ensures PutAt(es + fs, b, pos) <==> PutAt(es, b, pos) || PutAt(fs, b, pos)
  {
    if PutAt(es, b, pos) {
      var i :| 0 <= i < |es| && es[i].Put? && es[i].block == b && es[i].pos == pos;
      assert (es + fs)[i] == es[i];
    }
    if PutAt(fs, b, pos) {
      var i :| 0 <= i < |fs| && fs[i].Put? && fs[i].block == b && fs[i].pos == pos;
      assert (es + fs)[|es| + i] == fs[i];
    }
  }

  lemma TidyAppend(es: seq<Edit>, fs: seq<Edit>, b: nat, nz: Pattern)
    requires Tidy(es, b, nz) && Tidy(fs, b, nz)
    ensures Tidy(es + fs, b, nz)
  {
  }

  /** Corrections add nothing to the list. */
  lemma ListedCorrections(es: seq<Edit>, fs: seq<Edit>, b: nat, list: seq<nat>)
    requires Listed(es, b, list) && forall i :: 0 <= i < |fs| ==> fs[i].Raise?
    ensures Listed(es + fs, b, list)
  {
    forall pos: nat
      ensures PutAt(es + fs, b, pos) <==> pos in list
    {
      PutAtAppend(es, fs, b, pos);
    }
  }

  lemma ListedPut(es: seq<Edit>, b: nat, pos: nat, v: Coef, list: seq<nat>)
    requires Listed(es, b, list) && pos < 64
    ensures Listed(es + [Put(b, pos, v)], b, list + [pos])
  {
    forall q: nat
      ensures PutAt(es + [Put(b, pos, v)], b, q) <==> q in list + [pos]
    {
      PutAtAppend(es, [Put(b, pos, v)], b, q);
      assert PutAt([Put(b, pos, v)], b, q) <==> q == pos by {
        if q == pos {
          assert [Put(b, pos, v)][0].pos == pos;
        }
      }
    }
  }

  /** All edits are corrections of nonzero history in block b. */
  ghost predicate Corrects(es: seq<Edit>, b: nat, nz: Pattern) {
    forall i :: 0 <= i < |es| ==> es[i].Raise? && es[i].block == b && es[i].pos < 64 && nz[es[i].pos]
  }

  lemma {:induction false} AdvanceCorrects(s: seq<bool>, p: nat, k: nat, se: nat, r: nat, al: nat, b: nat, nz: Pattern)
    requires se <= 63
    ensures Corrects(Advance(s, p, k, se, r, al, b, nz).edits, b, nz)
    ensures var o := Advance(s, p, k, se, r, al, b, nz); o.k <= se ==> !nz[NaturalOrder(o.k)]
    decreases se + 1 - k
  {
    hide NaturalOrder, Peek;
    if k <= se {
      if nz[NaturalOrder(k)] {
        AdvanceCorrects(s, p + 1, k + 1, se, r, al, b, nz);
      } else if r > 0 {
        AdvanceCorrects(s, p, k + 1, se, r - 1, al, b, nz);
      }
    }
  }

  lemma {:induction false} RunCorrects(s: seq<bool>, p: nat, k: nat, se: nat, al: nat, b: nat, nz: Pattern)
    requires se <= 63
    ensures Corrects(RunEdits(s, p, k, se, al, b, nz).0, b, nz)
    decreases se + 1 - k
  {
    hide NaturalOrder, Peek;
    if k <= se {
      RunCorrects(s, if nz[NaturalOrder(k)] then p + 1 else p, k + 1, se, al, b, nz);
    }
  }

  // ----- one step of each loop, with the edits made so far in front -----

  lemma AdvanceStep(s: seq<bool>, p: nat, k: nat, se: nat, r: nat, al: nat, b: nat, nz: Pattern, done: seq<Edit>)
    requires se <= 63
    ensures var now := Advance(s, p, k, se, r, al, b, nz);
            if k > se then now == Refined([], p, k, 0)
            else if nz[NaturalOrder(k)] then
              var rest := Advance(s, p + 1, k + 1, se, r, al, b, nz);
              now.(edits := done + now.edits) == rest.(edits := (done + Correction(s, p, k, al, b)) + rest.edits)
            else if r == 0 then now == Refined([], p, k, 0)
            else now == Advance(s, p, k + 1, se, r - 1, al, b, nz)
  {
    hide NaturalOrder, Correction;
    if k <= se && nz[NaturalOrder(k)] {
      var c, rest := Correction(s, p, k, al, b), Advance(s, p + 1, k + 1, se, r, al, b, nz);
      assert done + (c + rest.edits) == (done + c) + rest.edits;
    }
  }

  lemma RunStep(s: seq<bool>, p: nat, k: nat, se: nat, al: nat, b: nat, nz: Pattern, done: seq<Edit>)
    requires se <= 63
    ensures var now := RunEdits(s, p, k, se, al, b, nz);
            if k > se then now == ([], p)
            else if nz[NaturalOrder(k)] then
              var rest := RunEdits(s, p + 1, k + 1, se, al, b, nz);
              done + now.0 == (done + Correction(s, p, k, al, b)) + rest.0 && now.1 == rest.1
            else now == RunEdits(s, p, k + 1, se, al, b, nz)
  {
    hide NaturalOrder, Correction;
    if k <= se && nz[NaturalOrder(k)] {
      var c, rest := Correction(s, p, k, al, b), RunEdits(s, p + 1, k + 1, se, al, b, nz);
      assert done + (c + rest.0) == (done + c) + rest.0;
    }
  }

  lemma RefineStep(t: JHuffTbl, s: seq<bool>, p: nat, k: nat, se: nat, al: nat, b: nat, nz: Pattern, done: seq<Edit>)
    requires se <= 63
    ensures k > se ==> BandEdits(t, s, p, k, se, al, b, nz) == Refined([], p, k, 0)
    ensures k <= se ==>
              var p1, run, size := p + SymbolLength(t, s, p), NextSymbol(t, s, p) / 16, NextSymbol(t, s, p) % 16;
              var now := BandEdits(t, s, p, k, se, al, b, nz);
              if size == 0 && run != 15 then now == Refined([], p1 + run, k, EobRun(s, p1, run))
              else
                var o := Advance(s, if size != 0 then p1 + 1 else p1, k, se, run, al, b, nz);
                var made := done + o.edits + (if size != 0 then [Put(b, NaturalOrder(o.k), NewCoef(s, p1, al))] else []);
                var rest := BandEdits(t, s, o.at, o.k + 1, se, al, b, nz);
                now.(edits := done + now.edits) == rest.(edits := made + rest.edits)
  {
    hide SymbolLength, NextSymbol, NaturalOrder, NewCoef, EobRun, Advance;
    if k <= se {
      var p1, run, size := p + SymbolLength(t, s, p), NextSymbol(t, s, p) / 16, NextSymbol(t, s, p) % 16;
      if size != 0 || run == 15 {
        var o := Advance(s, if size != 0 then p1 + 1 else p1, k, se, run, al, b, nz);
        var added := if size != 0 then [Put(b, NaturalOrder(o.k), NewCoef(s, p1, al))] else [];
        var rest := BandEdits(t, s, o.at, o.k + 1, se, al, b, nz);
        assert done + (o.edits + added + rest.edits) == (done + o.edits + added) + rest.edits;
      }
    }
  }

  // ----- undoing -----

  /** The corrections among the edits: what is left once the new coefficients are zeroed again. */
  function Touches(es: seq<Edit>): seq<Edit> {
    if es == [] then []
    else
      var init, e := Touches(es[..|es| - 1]), es[|es| - 1];
      if e.Put? then init else init + [e]
  }

  /** Outside the new coefficients, the edits and the corrections alone agree. */
  lemma {:induction false} TouchesCell(es: seq<Edit>, b: nat, pos: nat, v: Coef)
    ensures !PutAt(es, b, pos) ==> Cell(Touches(es), b, pos, v) == Cell(es, b, pos, v)
    ensures (forall i :: 0 <= i < |es| ==> es[i].Put? || es[i].block != b || es[i].pos != pos) ==>
              Cell(Touches(es), b, pos, v) == v
  {
    if es != [] {
      var init, e := es[..|es| - 1], es[|es| - 1];
      TouchesCell(init, b, pos, v);
      assert init + [e] == es;
      PutAtAppend(init, [e], b, pos);
      assert e.Put? && e.block == b && e.pos == pos ==> PutAt([e], b, pos) by {
        assert [e][0] == e;
      }
      assert !e.Put? ==> (Touches(init) + [e])[..|Touches(init)|] == Touches(init);
    }
  }

  lemma {:induction false} TouchesOf(es: seq<Edit>, n: nat, raising: bool, al: nat)
    ensures AllInRange(es, n) ==> AllInRange(Touches(es), n)
    ensures Uniform(es, raising, al) ==> Uniform(Touches(es), raising, al)
    ensures forall i :: 0 <= i < |Touches(es)| ==> !Touches(es)[i].Put? && Touches(es)[i] in es
  {
    if es != [] {
      TouchesOf(es[..|es| - 1], n, raising, al);
    }
  }

  /** Corrections of a prefix are covered by the whole. */
  lemma TouchesCovered(es: seq<Edit>, fs: seq<Edit>)
    requires fs <= es
    ensures Covers(es, Touches(fs))
  {
    TouchesOf(fs, 0, true, 0);
    forall block: nat, pos: nat
      ensures AnyAt(Touches(fs), block, pos) ==> AnyAt(es, block, pos)
      ensures !PutAt(Touches(fs), block, pos)
    {
      if i :| 0 <= i < |Touches(fs)| && Touches(fs)[i].block == block && Touches(fs)[i].pos == pos {
        var j :| 0 <= j < |fs| && fs[j] == Touches(fs)[i];
        assert es[j] == fs[j];
      }
    }
  }

  lemma TidyCell(es: seq<Edit>, b: nat, block: Block, pos: nat)
    requires Tidy(es, b, NonZero(block)) && pos < 64 && PutAt(es, b, pos)
    ensures Cell(Touches(es), b, pos, block[pos]) == 0
  {
    var i :| 0 <= i < |es| && es[i].Put? && es[i].block == b && es[i].pos == pos;
    assert !NonZero(block)[es[i].pos];
    TouchesCell(es, b, pos, block[pos]);
  }

  lemma TidyElsewhere(es: seq<Edit>, b: nat, nz: Pattern, c: nat, pos: nat)
    requires Tidy(es, b, nz) && c != b
    ensures !PutAt(es, c, pos)
  {
  }

  lemma UndoneCell(es: seq<Edit>, before: seq<Block>, b: nat, list: seq<nat>, c: nat, pos: nat)
    requires AllInRange(es, |before|) && AllInRange(Touches(es), |before|) && b < |before| && c < |before| && pos < 64
    requires Tidy(es, b, NonZero(before[b])) && Listed(es, b, list)
    ensures Apply(Touches(es), before)[c][pos] == if c == b && pos in list then 0 else Apply(es, before)[c][pos]
  {
    hide Tidy, Touches, Cell, Apply;
    ApplyIsCellwise(es, before, c, pos);
    ApplyIsCellwise(Touches(es), before, c, pos);
    TouchesCell(es, c, pos, before[c][pos]);
    assert PutAt(es, b, pos) <==> pos in list;
    if c != b {
      TidyElsewhere(es, b, NonZero(before[b]), c, pos);
    } else if pos in list {
      TidyCell(es, b, before[b], pos);
    }
  }

  /** Zeroing the listed positions leaves the block as if only the corrections had been made. */
  lemma UndoneIsCorrected(es: seq<Edit>, before: seq<Block>, b: nat, list: seq<nat>, fin: seq<Block>)
    requires AllInRange(es, |before|) && b < |before| == |fin|
    requires Tidy(es, b, NonZero(before[b])) && Listed(es, b, list)
    requires forall c: nat :: c < |fin| && c != b ==> fin[c] == Apply(es, before)[c]
    requires forall pos: nat :: pos < 64 && pos in list ==> fin[b][pos] == 0
    requires forall pos: nat :: pos < 64 && pos !in list ==> fin[b][pos] == Apply(es, before)[b][pos]
    ensures AllInRange(Touches(es), |before|) && fin == Apply(Touches(es), before)
  {
    hide Tidy, Listed, Touches, Apply;
    TouchesOf(es, |before|, true, 0);
    forall c: nat, pos: nat | c < |fin| && pos < 64
      ensures fin[c][pos] == Apply(Touches(es), before)[c][pos]
    {
      UndoneCell(es, before, b, list, c, pos);
    }
    SameCells(fin, Apply(Touches(es), before));
  }

  /** Corrections leave a block nonzero exactly where it was. */
  lemma CorrectionsKeepPattern(es: seq<Edit>, before: seq<Block>, b: nat, al: nat)
    requires AllInRange(es, |before|) && AllInRange(Touches(es), |before|) && b < |before| && al < 16
    requires Tidy(es, b, NonZero(before[b])) && Uniform(es, true, al)
    ensures NonZero(Apply(Touches(es), before)[b]) == NonZero(before[b])
  {
    TouchesOf(es, |before|, true, al);
    var nz, fs := NonZero(before[b]), Touches(es);
    forall pos: nat | pos < 64
      ensures Apply(fs, before)[b][pos] != 0 <==> before[b][pos] != 0
    {
      var v := before[b][pos];
      ApplyIsCellwise(fs, before, b, pos);
      CellForm(fs, true, al, b, pos, v, v);
      TouchUpOnce(v, al);
      if AnyAt(fs, b, pos) {
        var i :| 0 <= i < |fs| && fs[i].block == b && fs[i].pos == pos;
        var j :| 0 <= j < |es| && es[j] == fs[i];
        assert nz[es[j].pos];
      }
    }
    var after := Apply(fs, before)[b];
    assert forall i :: 0 <= i < 64 ==> NonZero(after)[i] == nz[i];
  }

  // ----- resuming an abandoned MCU -----

  /** Part of an MCU's edits has been made, and the history its refinement reads is intact. */
  ghost predicate PartlyMade(c: Scan, mcu: seq<nat>, before: seq<Block>, now: seq<Block>, all: seq<Edit>, done: seq<Edit>)
    requires McuFits(c, mcu, |before|)
  {
    && AllInRange(done, |before|) && now == Apply(done, before)
    && Covers(all, done) && Uniform(done, c.mode.ACRefine?, c.al)
    && (c.mode.ACRefine? ==> NonZero(now[mcu[0]]) == NonZero(before[mcu[0]]))
  }

  lemma UniformPrefix(es: seq<Edit>, fs: seq<Edit>, raising: bool, al: nat)
    requires Uniform(es, raising, al) && fs <= es
    ensures Uniform(fs, raising, al)
  {
    assert forall i :: 0 <= i < |fs| ==> fs[i] == es[i];
  }

  /** Decoding the MCU again after part of it was stored gives what one uninterrupted decoding gives. */
  lemma RetryIsInvisible(c: Scan, mcu: seq<nat>, before: seq<Block>, now: seq<Block>, done: seq<Edit>,
                         s: seq<bool>, p: nat, eobrun: nat, dc: Predictions)
    requires McuFits(c, mcu, |before|) && |now| == |before|
    requires PartlyMade(c, mcu, before, now, McuOutcome(c, mcu, before, s, p, eobrun, dc).edits, done)
    ensures McuOutcome(c, mcu, now, s, p, eobrun, dc) == McuOutcome(c, mcu, before, s, p, eobrun, dc)
    ensures var es := McuOutcome(c, mcu, before, s, p, eobrun, dc).edits;
            AllInRange(es, |before|) && Apply(es, now) == Apply(es, before)
  {
    hide BaselineEdits, DcFirstEdits, AcFirstEdits, DcRefineEdits, AcRefineEdits, Apply, Covers;
    OutcomeFine(c, mcu, before, s, p, eobrun, dc);
    Absorb(McuOutcome(c, mcu, before, s, p, eobrun, dc).edits, done, c.mode.ACRefine?, c.al, before);
  }
}
