/** Input side of the coefficient controller: the MCUs of a scan, read in whatever pieces
    the bytes arrive (jdcoefct.c). */
module CoefController {
  import opened HuffmanTable
  import opened ByteStream
  import opened Coefficients
  import opened EntropySpec
  import opened ScanGeometry
  import B = BitReader
  import E = EntropyDecoder

  /** The entropy decoder's view of an MCU agrees with the scan's geometry. */
  ghost predicate RunFits(c: Scan, im: Image, sc: seq<nat>, n: nat) {
    Selects(im, sc) && c.membership == Membership(im, sc, |sc|) && n == TotalBlocks(im)
  }

  lemma McuIsFit(c: Scan, im: Image, sc: seq<nat>, r: nat, col: nat, n: nat)
    requires RunFits(c, im, sc, n) && r < McuRows(im, sc) && col < McuCols(im, sc)
    ensures McuFits(c, Mcu(im, sc, r, col), n)
  {
    McuInside(im, sc, r, col);
  }

  /** The MCUs of a scan from row r, column col on, decoded one after another. */
  ghost function Run(c: Scan, im: Image, sc: seq<nat>, file: seq<Byte>, r: nat, col: nat, st: State, coefs: seq<Block>): (end: (State, seq<Block>))
    requires RunFits(c, im, sc, |coefs|)
    ensures |end.1| == |coefs|
    decreases McuRows(im, sc) - r, McuCols(im, sc) - col
  {
    if r >= McuRows(im, sc) then (st, coefs)
    else if col >= McuCols(im, sc) then Run(c, im, sc, file, r + 1, 0, st, coefs)
    else
      McuIsFit(c, im, sc, r, col, |coefs|);
      var next := Step(c, Mcu(im, sc, r, col), file, st, coefs);
      Run(c, im, sc, file, r, col + 1, next.0, next.1)
  }

  /** Every segment that decoding the scan enters is closed by a marker. */
  ghost predicate Complete(c: Scan, im: Image, sc: seq<nat>, file: seq<Byte>, r: nat, col: nat, st: State, coefs: seq<Block>)
    requires RunFits(c, im, sc, |coefs|)
    decreases McuRows(im, sc) - r, McuCols(im, sc) - col
  {
    if r >= McuRows(im, sc) then true
    else if col >= McuCols(im, sc) then Complete(c, im, sc, file, r + 1, 0, st, coefs)
    else
      McuIsFit(c, im, sc, r, col, |coefs|);
      var next := Step(c, Mcu(im, sc, r, col), file, st, coefs);
      E.Terminated(c, file, st) && Complete(c, im, sc, file, r, col + 1, next.0, next.1)
  }

  /** The marker that closes the last segment which decoding the scan enters, and the position after it; ahead if no MCU is left. */
  ghost function Closing(c: Scan, im: Image, sc: seq<nat>, file: seq<Byte>, r: nat, col: nat, st: State, coefs: seq<Block>, ahead: Ending): Ending
    requires RunFits(c, im, sc, |coefs|)
    decreases McuRows(im, sc) - r, McuCols(im, sc) - col
  {
    if r >= McuRows(im, sc) then ahead
    else if col >= McuCols(im, sc) then Closing(c, im, sc, file, r + 1, 0, st, coefs, ahead)
    else
      McuIsFit(c, im, sc, r, col, |coefs|);
      var next := Step(c, Mcu(im, sc, r, col), file, st, coefs);
      Closing(c, im, sc, file, r, col + 1, next.0, next.1, E.ClosedBy(c, file, st))
  }

  /** MCU rows in iMCU row i, and the first of them. */
  function RowsIn(im: Image, sc: seq<nat>, i: nat): (n: nat)
    requires Selects(im, sc) && i < TotalImcuRows(im)
    ensures n > 0
  {
    if |sc| > 1 then 1
    else if i < TotalImcuRows(im) - 1 then im.comps[sc[0]].v
    else LastPart(HeightInBlocks(im, sc[0]), im.comps[sc[0]].v)
  }

  function FirstRow(im: Image, sc: seq<nat>, i: nat): nat
    requires Selects(im, sc)
  {
    if |sc| > 1 then i else Times(i, im.comps[sc[0]].v)
  }

  /** The iMCU rows cut the MCU rows of the scan up without gap or overlap. */
  lemma RowsAddUp(im: Image, sc: seq<nat>, i: nat)
    requires Selects(im, sc) && i < TotalImcuRows(im)
    ensures FirstRow(im, sc, i) + RowsIn(im, sc, i)
         == if i + 1 < TotalImcuRows(im) then FirstRow(im, sc, i + 1) else McuRows(im, sc)
    ensures FirstRow(im, sc, i) + RowsIn(im, sc, i) <= McuRows(im, sc) && McuCols(im, sc) > 0
  {
    hide TotalImcuRows, TotalImcuCols, HeightInBlocks, WidthInBlocks, LastPart, CeilDiv, PaddedHeight, PaddedWidth;
    var k := sc[0];
    var v, last := im.comps[k].v, TotalImcuRows(im) - 1;
    ComponentsAgree(im, k);
    if |sc| == 1 {
      LastParts(im, sc, k);
      TimesIs(last, v);
      if i < last {
        RowsApart(i, last, v);
      }
    }
  }

  /** The layout that per_scan_setup computed is the one used here. */
  ghost predicate LayoutFits(im: Image, sc: seq<nat>, s: ScanLayout)
    requires Selects(im, sc)
  {
    && |s.mcuWidth| == |s.mcuHeight| == |s.lastRowHeight| == |sc|
    && s.mcusPerRow == McuCols(im, sc)
    && (forall i :: 0 <= i < |sc| ==> s.mcuWidth[i] == McuWidth(im, sc, sc[i]) && s.mcuHeight[i] == McuHeight(im, sc, sc[i]))
    && (|sc| == 1 ==> s.lastRowHeight[0] == LastPart(HeightInBlocks(im, sc[0]), im.comps[sc[0]].v))
  }

  lemma SetupFits(im: Image, sc: seq<nat>, s: ScanLayout)
    requires Selects(im, sc)
    requires |s.mcuWidth| == |s.mcuHeight| == |s.lastColWidth| == |s.lastRowHeight| == |sc|
    requires s.mcusPerRow == McuCols(im, sc) && forall i :: 0 <= i < |sc| ==> LastPartsRight(im, sc, i, s)
    ensures LayoutFits(im, sc, s)
  {
    hide HeightInBlocks, WidthInBlocks, TotalImcuRows, TotalImcuCols, LastPart;
    forall i | 0 <= i < |sc|
      ensures s.mcuWidth[i] == McuWidth(im, sc, sc[i]) && s.mcuHeight[i] == McuHeight(im, sc, sc[i])
    {
      assert LastPartsRight(im, sc, i, s);
    }
    if |sc| == 1 {
      assert LastPartsRight(im, sc, 0, s);
      LastParts(im, sc, sc[0]);
    }
  }

  datatype Progress = Suspended | RowCompleted | ScanCompleted

  class CoefController {
    const im: Image
    const sc: seq<nat>
    const layout: ScanLayout
    const entropy: E.EntropyDecoder

    var inputImcuRow: nat
    var mcuVertOffset: nat
    var mcuCtr: nat
    var mcuRowsPerImcuRow: nat
    /** The input controller has been told that the scan is finished. */
    var finished: bool

    ghost predicate Set()
      reads this, entropy, entropy.br
    {
      && RunFits(entropy.scan, im, sc, entropy.coefs.Length) && LayoutFits(im, sc, layout) && entropy.Valid()
      && (!finished ==> inputImcuRow < TotalImcuRows(im) && mcuRowsPerImcuRow == RowsIn(im, sc, inputImcuRow))
    }

    ghost predicate Valid()
      reads this, entropy, entropy.br
    {
      Set() && (!finished ==> mcuVertOffset < mcuRowsPerImcuRow && mcuCtr < McuCols(im, sc))
    }

    /** What the rest of the scan will make of the present state, read without interruption from row r, column col. */
    ghost function From(r: nat, col: nat): (State, seq<Block>)
      requires RunFits(entropy.scan, im, sc, entropy.coefs.Length) && entropy.Valid()
      reads entropy, entropy.br, entropy.coefs
    {
      Run(entropy.scan, im, sc, entropy.br.file, r, col, entropy.Current(), entropy.coefs[..])
    }

    ghost function Final(): (State, seq<Block>)
      requires Valid()
      reads this, entropy, entropy.br, entropy.coefs
    {
      if finished then (entropy.Current(), entropy.coefs[..])
      else From(FirstRow(im, sc, inputImcuRow) + mcuVertOffset, mcuCtr)
    }

    ghost predicate CompleteFrom(r: nat, col: nat)
      requires RunFits(entropy.scan, im, sc, entropy.coefs.Length) && entropy.Valid()
      reads entropy, entropy.br, entropy.coefs
    {
      Complete(entropy.scan, im, sc, entropy.br.file, r, col, entropy.Current(), entropy.coefs[..])
    }

    /** The rest of the scan is well terminated. */
    ghost predicate WellFormed()
      requires Valid()
      reads this, entropy, entropy.br, entropy.coefs
    {
      finished || CompleteFrom(FirstRow(im, sc, inputImcuRow) + mcuVertOffset, mcuCtr)
    }

    ghost function ClosingFrom(r: nat, col: nat): Ending
      requires RunFits(entropy.scan, im, sc, entropy.coefs.Length) && entropy.Valid()
      reads entropy, entropy.br, entropy.coefs
    {
      Closing(entropy.scan, im, sc, entropy.br.file, r, col, entropy.Current(), entropy.coefs[..], entropy.br.Ahead())
    }

    /** The marker that will be met first once the scan has been read. */
    ghost function Close(): Ending
      requires Valid()
      reads this, entropy, entropy.br, entropy.coefs
    {
      if finished then entropy.br.Ahead() else ClosingFrom(FirstRow(im, sc, inputImcuRow) + mcuVertOffset, mcuCtr)
    }

    predicate AllDelivered()
      reads entropy.br
    {
      entropy.br.avail == |entropy.br.file|
    }

    /** start_input_pass, for a scan laid out by per_scan_setup */
    constructor (im: Image, sc: seq<nat>, layout: ScanLayout, entropy: E.EntropyDecoder)
      requires RunFits(entropy.scan, im, sc, entropy.coefs.Length) && entropy.Valid()
      requires |layout.mcuWidth| == |layout.mcuHeight| == |layout.lastColWidth| == |layout.lastRowHeight| == |sc|
      requires layout.mcusPerRow == McuCols(im, sc) && forall i :: 0 <= i < |sc| ==> LastPartsRight(im, sc, i, layout)
      ensures Valid() && !finished && inputImcuRow == 0 && this.entropy == entropy && this.im == im && this.sc == sc
      ensures Final() == From(0, 0) && WellFormed() == CompleteFrom(0, 0) && Close() == ClosingFrom(0, 0)
    {
      hide LayoutFits, TotalImcuRows, McuCols, RowsIn, FirstRow, Run, Complete, Closing, E.EntropyDecoder.Valid, E.EntropyDecoder.Current;
      this.im, this.sc, this.layout, this.entropy := im, sc, layout, entropy;
      inputImcuRow, finished := 0, false;
      new;
      FirstRowZero(im, sc);
      SetupFits(im, sc, layout);
      StartImcuRow();
    }

    /** start_iMCU_row */
    method StartImcuRow()
      requires Selects(im, sc) && LayoutFits(im, sc, layout) && inputImcuRow < TotalImcuRows(im)
      modifies this`mcuRowsPerImcuRow, this`mcuCtr, this`mcuVertOffset
      ensures mcuRowsPerImcuRow == RowsIn(im, sc, inputImcuRow) && mcuCtr == 0 && mcuVertOffset == 0
    {
      if |sc| > 1 {
        mcuRowsPerImcuRow := 1;
      } else if inputImcuRow < TotalImcuRows(im) - 1 {
        mcuRowsPerImcuRow := im.comps[sc[0]].v;
      } else {
        mcuRowsPerImcuRow := layout.lastRowHeight[0];
      }
      mcuCtr, mcuVertOffset := 0, 0;
    }

    /** The blocks of the MCU at column col of MCU row yoffset within the present iMCU row. */
    method BlocksOfMcu(yoffset: nat, col: nat) returns (mcu: seq<nat>)
      requires Selects(im, sc) && LayoutFits(im, sc, layout) && !finished && (|sc| > 1 ==> yoffset == 0)
      ensures mcu == Mcu(im, sc, FirstRow(im, sc, inputImcuRow) + yoffset, col)
      ensures InOrder(im, sc, FirstRow(im, sc, inputImcuRow) + yoffset, col, mcu)
    {
      hide PartSoFar, ComponentPart, InOrder, Mcu, FirstRow, LayoutFits;
      ghost var r := FirstRow(im, sc, inputImcuRow) + yoffset;
      mcu := [];
      var ci := 0;
      PartStart(im, sc, r, col);
      while ci < |sc|
        invariant 0 <= ci <= |sc| && mcu == PartSoFar(im, sc, r, col, ci)
      {
        var rect := BlocksOfComponent(ci, yoffset, col);
        PartNext(im, sc, r, col, ci);
        mcu := mcu + rect;
        ci := ci + 1;
      }
      PartEnd(im, sc, r, col);
      McuInOrder(im, sc, r, col);
    }

    /** Those of one component of the scan. */
    method BlocksOfComponent(ci: nat, yoffset: nat, col: nat) returns (rect: seq<nat>)
      requires Selects(im, sc) && LayoutFits(im, sc, layout) && !finished && (|sc| > 1 ==> yoffset == 0) && ci < |sc|
      ensures rect == ComponentPart(im, sc, FirstRow(im, sc, inputImcuRow) + yoffset, col, ci)
    {
      hide Index, CompList, PaddedWidth, PaddedHeight, TotalImcuRows, HeightInBlocks, WidthInBlocks;
      var k := sc[ci];
      var w, h := layout.mcuWidth[ci], layout.mcuHeight[ci];
      var startCol, startRow := col * w, inputImcuRow * im.comps[k].v;
      TimesIs(inputImcuRow, im.comps[k].v);
      TimesIs(col, w);
      rect := Rectangle(k, startRow + yoffset, startCol, w, h);
    }

    /** h rows of w consecutive blocks */
    method Rectangle(k: nat, top: nat, left: nat, w: nat, h: nat) returns (rect: seq<nat>)
      requires k < |im.comps|
      ensures rect == CompList(im, k, top, left, w, h)
    {
      hide Index;
      rect := [];
      var yindex := 0;
      while yindex < h
        invariant 0 <= yindex <= h && rect == CompList(im, k, top, left, w, yindex)
      {
        var first := Index(im, k, top + yindex, left);
        var xindex := 0;
        while xindex < w
          invariant 0 <= xindex <= w && rect == CompList(im, k, top, left, w, yindex) + RowList(first, xindex)
        {
          rect := rect + [first + xindex];
          xindex := xindex + 1;
        }
        yindex := yindex + 1;
      }
    }

    /** The rest of one MCU row, from column mcuCtr on. */
    method ConsumeMcuRow(yoffset: nat) returns (ok: bool)
      requires Set() && !finished && yoffset < mcuRowsPerImcuRow && mcuCtr <= McuCols(im, sc)
      modifies this`mcuCtr, this`mcuVertOffset, entropy, entropy.br, entropy.coefs
      ensures Set() && entropy.br.avail == old(entropy.br.avail)
      ensures var r := FirstRow(im, sc, inputImcuRow) + yoffset;
              if ok then mcuCtr == 0 && From(r + 1, 0) == old(From(r, mcuCtr))
              else mcuVertOffset == yoffset && mcuCtr < McuCols(im, sc) && From(r, mcuCtr) == old(From(r, mcuCtr))
      ensures var r := FirstRow(im, sc, inputImcuRow) + yoffset;
              if ok then old(CompleteFrom(r, mcuCtr)) ==> CompleteFrom(r + 1, 0)
              else old(CompleteFrom(r, mcuCtr)) ==> CompleteFrom(r, mcuCtr) && !AllDelivered()
      ensures var r := FirstRow(im, sc, inputImcuRow) + yoffset;
              (if ok then ClosingFrom(r + 1, 0) else ClosingFrom(r, mcuCtr)) == old(ClosingFrom(r, mcuCtr))
    {
      hide E.ClosedBy, Closing, B.BitReader.Ahead;
      hide McuRows, McuCols, Mcu, RowsIn, FirstRow, Step, TotalImcuRows, E.Terminated, Run, Complete, E.EntropyDecoder.Valid, E.EntropyDecoder.Current;
      var r := FirstRow(im, sc, inputImcuRow) + yoffset;
      RowsAddUp(im, sc, inputImcuRow);
      var mcuColNum := mcuCtr;
      OneRow(im, sc, inputImcuRow);
      while mcuColNum < layout.mcusPerRow
        invariant mcuColNum <= McuCols(im, sc) == layout.mcusPerRow && Set() && unchanged(this)
        invariant entropy.br.avail == old(entropy.br.avail)
        invariant From(r, mcuColNum) == old(From(r, mcuCtr))
        invariant old(CompleteFrom(r, mcuCtr)) ==> CompleteFrom(r, mcuColNum)
        invariant ClosingFrom(r, mcuColNum) == old(ClosingFrom(r, mcuCtr))
      {
        var mcu := BlocksOfMcu(yoffset, mcuColNum);
        McuIsFit(entropy.scan, im, sc, r, mcuColNum, entropy.coefs.Length);
        RunStep(entropy.scan, im, sc, entropy.br.file, r, mcuColNum, entropy.Current(), entropy.coefs[..]);
        ClosingStep(entropy.scan, im, sc, entropy.br.file, r, mcuColNum, entropy.Current(), entropy.coefs[..], entropy.br.Ahead());
        ok := entropy.DecodeMcu(mcu);
        if !ok {
          RunStep(entropy.scan, im, sc, entropy.br.file, r, mcuColNum, entropy.Current(), entropy.coefs[..]);
          ClosingStep(entropy.scan, im, sc, entropy.br.file, r, mcuColNum, entropy.Current(), entropy.coefs[..], entropy.br.Ahead());
          mcuVertOffset, mcuCtr := yoffset, mcuColNum;
          return;
        }
        mcuColNum := mcuColNum + 1;
      }
      RunStep(entropy.scan, im, sc, entropy.br.file, r, mcuColNum, entropy.Current(), entropy.coefs[..]);
      ClosingStep(entropy.scan, im, sc, entropy.br.file, r, mcuColNum, entropy.Current(), entropy.coefs[..], entropy.br.Ahead());
      mcuCtr := 0;
      ok := true;
    }

    /** The MCU rows that are left of the present iMCU row. */
    method ConsumeMcuRows() returns (ok: bool)
      requires Valid() && !finished
      modifies this`mcuCtr, this`mcuVertOffset, entropy, entropy.br, entropy.coefs
      ensures Set() && entropy.br.avail == old(entropy.br.avail)
      ensures !ok ==> Valid() && Final() == old(Final()) && (old(WellFormed()) ==> WellFormed() && !AllDelivered())
      ensures ok ==> var next := FirstRow(im, sc, inputImcuRow) + RowsIn(im, sc, inputImcuRow);
                     From(next, 0) == old(Final()) && (old(WellFormed()) ==> CompleteFrom(next, 0))
      ensures if ok then ClosingFrom(FirstRow(im, sc, inputImcuRow) + RowsIn(im, sc, inputImcuRow), 0) == old(Close())
              else Close() == old(Close())
    {
      hide McuRows, McuCols, Mcu, RowsIn, FirstRow, TotalImcuRows, Run, Complete, Closing, B.BitReader.Ahead, E.EntropyDecoder.Valid, E.EntropyDecoder.Current;
      ghost var first := FirstRow(im, sc, inputImcuRow);
      RowsAddUp(im, sc, inputImcuRow);
      var yoffset := mcuVertOffset;
      while yoffset < mcuRowsPerImcuRow
        invariant yoffset <= mcuRowsPerImcuRow && Set() && mcuCtr < McuCols(im, sc)
        invariant entropy.br.avail == old(entropy.br.avail)
        invariant From(first + yoffset, mcuCtr) == old(Final())
        invariant old(WellFormed()) ==> CompleteFrom(first + yoffset, mcuCtr)
        invariant ClosingFrom(first + yoffset, mcuCtr) == old(Close())
        invariant yoffset == mcuRowsPerImcuRow ==> mcuCtr == 0
      {
        ok := ConsumeMcuRow(yoffset);
        if !ok {
          return;
        }
        yoffset := yoffset + 1;
      }
      ok := true;
    }

    /** consume_data: reads on to the end of the iMCU row, or as far as the bytes go. However often it is
        interrupted, what the scan will finally yield does not change; and once all is there it is not interrupted. */
    method ConsumeData() returns (p: Progress)
      requires Valid() && !finished
      modifies this, entropy, entropy.br, entropy.coefs
      ensures Valid() && Final() == old(Final()) && entropy.br.avail == old(entropy.br.avail)
      ensures p.Suspended? ==> !finished && inputImcuRow == old(inputImcuRow)
      ensures p.RowCompleted? ==> !finished && inputImcuRow == old(inputImcuRow) + 1 && mcuVertOffset == mcuCtr == 0
      ensures p.ScanCompleted? ==> finished && inputImcuRow == old(inputImcuRow) + 1 == TotalImcuRows(im)
      ensures old(WellFormed()) ==> WellFormed() && (AllDelivered() ==> !p.Suspended?)
      ensures Close() == old(Close())
    {
      hide McuRows, McuCols, RowsIn, FirstRow, TotalImcuRows, Run, Complete, Closing, B.BitReader.Ahead, LayoutFits, Membership, TotalBlocks;
      hide E.EntropyDecoder.Valid, E.EntropyDecoder.Current;
      RowsAddUp(im, sc, inputImcuRow);
      var ok := ConsumeMcuRows();
      if !ok {
        return Suspended;
      }
      inputImcuRow := inputImcuRow + 1;
      if inputImcuRow < TotalImcuRows(im) {
        FirstRowZero(im, sc);
        StartImcuRow();
        return RowCompleted;
      }
      RunEnds(entropy.scan, im, sc, entropy.br.file, entropy.Current(), entropy.coefs[..], entropy.br.Ahead());
      finished := true;
      p := ScanCompleted;
    }

    /** More bytes arrive. */
    method Deliver(n: nat)
      requires Valid()
      modifies entropy.br`avail
      ensures Valid() && Final() == old(Final()) && WellFormed() == old(WellFormed()) && Close() == old(Close())
      ensures entropy.br.avail == if old(entropy.br.avail) + n < |entropy.br.file| then old(entropy.br.avail) + n else |entropy.br.file|
    {
      hide McuRows, McuCols, RowsIn, FirstRow, TotalImcuRows, Run, Complete, Closing, RunFits;
      entropy.Deliver(n);
    }

    /** Calls consume_data until it suspends or the scan is finished. */
    method ConsumeAll()
      requires Valid()
      modifies this, entropy, entropy.br, entropy.coefs
      ensures Valid() && Final() == old(Final()) && Close() == old(Close()) && entropy.br.avail == old(entropy.br.avail)
      ensures old(WellFormed()) && !finished ==> WellFormed() && !AllDelivered()
    {
      hide Closing, B.BitReader.Ahead, TotalImcuRows, McuRows, McuCols, RowsIn, FirstRow, Run, Complete, E.EntropyDecoder.Valid, E.EntropyDecoder.Current;
      var p := RowCompleted;
      while !finished && p.RowCompleted?
        invariant Valid() && Final() == old(Final()) && Close() == old(Close()) && entropy.br.avail == old(entropy.br.avail)
        invariant old(WellFormed()) && !finished ==> WellFormed()
        invariant old(WellFormed()) && !finished && AllDelivered() ==> p.RowCompleted?
        decreases TotalImcuRows(im) - inputImcuRow, p.RowCompleted?
      {
        p := ConsumeData();
      }
    }

    /** Reads a scan whose bytes arrive in the given pieces. Whatever the pieces, a finished scan has the
        coefficients and the state it would have had with all bytes there at the start, and the marker reader
        goes on at the marker that closed its last segment; a well-formed scan is finished once all its bytes
        have arrived. */
    method ReadScan(arrivals: seq<nat>)
      requires Valid()
      modifies this, entropy, entropy.br, entropy.coefs
      ensures Valid() && Final() == old(Final())
      ensures finished ==> (entropy.Current(), entropy.coefs[..]) == old(Final()) && entropy.br.Ahead() == old(Close())
      ensures old(WellFormed()) && |entropy.br.file| <= old(entropy.br.avail) + Sum(arrivals) ==> finished
    {
      hide Closing, B.BitReader.Ahead, TotalImcuRows, McuRows, McuCols, RowsIn, FirstRow, Run, Complete, E.EntropyDecoder.Valid, E.EntropyDecoder.Current;
      ghost var before := entropy.br.avail;
      ConsumeAll();
      var i := 0;
      assert arrivals[..0] == [];
      while i < |arrivals|
        invariant 0 <= i <= |arrivals| && Valid() && Final() == old(Final()) && Close() == old(Close())
        invariant entropy.br.avail == |entropy.br.file| || entropy.br.avail == before + Sum(arrivals[..i])
        invariant old(WellFormed()) && !finished ==> WellFormed() && !AllDelivered()
      {
        assert arrivals[..i + 1][..i] == arrivals[..i];
        Deliver(arrivals[i]);
        ConsumeAll();
        i := i + 1;
      }
      assert arrivals[..i] == arrivals;
    }
  }

  function Sum(s: seq<nat>): nat {
    if s == [] then 0 else Sum(s[..|s| - 1]) + s[|s| - 1]
  }

  lemma FirstRowZero(im: Image, sc: seq<nat>)
    requires Selects(im, sc)
    ensures FirstRow(im, sc, 0) == 0 && TotalImcuRows(im) > 0 && McuCols(im, sc) > 0
  {
    ComponentsAgree(im, sc[0]);
  }

  lemma OneRow(im: Image, sc: seq<nat>, i: nat)
    requires Selects(im, sc) && i < TotalImcuRows(im)
    ensures |sc| > 1 ==> RowsIn(im, sc, i) == 1
  {
  }

  /** The blocks of the ci-th component of the scan in the MCU at row r, column c. */
  function ComponentPart(im: Image, sc: seq<nat>, r: nat, c: nat, ci: nat): seq<nat>
    requires Selects(im, sc) && ci < |sc|
  {
    var k := sc[ci];
    if |sc| > 1 then CompList(im, k, Times(r, im.comps[k].v), Times(c, im.comps[k].h), im.comps[k].h, im.comps[k].v)
    else CompList(im, k, r, Times(c, 1), 1, 1)
  }

  /** Those of the first n components. */
  function PartSoFar(im: Image, sc: seq<nat>, r: nat, c: nat, n: nat): seq<nat>
    requires Selects(im, sc) && n <= |sc|
  {
    if |sc| > 1 || n == 0 then McuPart(im, sc, r, c, n) else Mcu(im, sc, r, c)
  }

  lemma PartStart(im: Image, sc: seq<nat>, r: nat, c: nat)
    requires Selects(im, sc)
    ensures PartSoFar(im, sc, r, c, 0) == []
  {
  }

  lemma PartNext(im: Image, sc: seq<nat>, r: nat, c: nat, n: nat)
    requires Selects(im, sc) && n < |sc|
    ensures PartSoFar(im, sc, r, c, n + 1) == PartSoFar(im, sc, r, c, n) + ComponentPart(im, sc, r, c, n)
  {
    hide Index;
    if |sc| == 1 {
      TimesIs(c, 1);
      assert CompList(im, sc[n], r, c, 1, 0) == [];
      assert RowList(Index(im, sc[n], r, c), 0) == [];
    }
  }

  lemma PartEnd(im: Image, sc: seq<nat>, r: nat, c: nat)
    requires Selects(im, sc)
    ensures PartSoFar(im, sc, r, c, |sc|) == Mcu(im, sc, r, c)
  {
    hide CompList, Index;
  }

  lemma RunEnds(c: Scan, im: Image, sc: seq<nat>, file: seq<Byte>, st: State, coefs: seq<Block>, ahead: Ending)
    requires RunFits(c, im, sc, |coefs|)
    ensures Run(c, im, sc, file, McuRows(im, sc), 0, st, coefs) == (st, coefs)
    ensures Closing(c, im, sc, file, McuRows(im, sc), 0, st, coefs, ahead) == ahead
  {
  }

  /** One step of the scan. */
  lemma RunStep(c: Scan, im: Image, sc: seq<nat>, file: seq<Byte>, r: nat, col: nat, st: State, coefs: seq<Block>)
    requires RunFits(c, im, sc, |coefs|)
    ensures r >= McuRows(im, sc) ==> Run(c, im, sc, file, r, col, st, coefs) == (st, coefs)
    ensures r < McuRows(im, sc) && col == McuCols(im, sc) ==>
              && Run(c, im, sc, file, r, col, st, coefs) == Run(c, im, sc, file, r + 1, 0, st, coefs)
              && Complete(c, im, sc, file, r, col, st, coefs) == Complete(c, im, sc, file, r + 1, 0, st, coefs)
    ensures r < McuRows(im, sc) && col < McuCols(im, sc) ==>
              && McuFits(c, Mcu(im, sc, r, col), |coefs|)
              && var next := Step(c, Mcu(im, sc, r, col), file, st, coefs);
                 && Run(c, im, sc, file, r, col, st, coefs) == Run(c, im, sc, file, r, col + 1, next.0, next.1)
                 && Complete(c, im, sc, file, r, col, st, coefs)
                    == (E.Terminated(c, file, st) && Complete(c, im, sc, file, r, col + 1, next.0, next.1))
  {
    hide McuRows, McuCols, Mcu, Step, E.Terminated;
    if r < McuRows(im, sc) && col < McuCols(im, sc) {
      McuIsFit(c, im, sc, r, col, |coefs|);
    }
  }

  /** The same for what closes it. */
  lemma ClosingStep(c: Scan, im: Image, sc: seq<nat>, file: seq<Byte>, r: nat, col: nat, st: State, coefs: seq<Block>, ahead: Ending)
    requires RunFits(c, im, sc, |coefs|)
    ensures r < McuRows(im, sc) && col == McuCols(im, sc) ==>
              Closing(c, im, sc, file, r, col, st, coefs, ahead) == Closing(c, im, sc, file, r + 1, 0, st, coefs, ahead)
    ensures r < McuRows(im, sc) && col < McuCols(im, sc) ==>
              && McuFits(c, Mcu(im, sc, r, col), |coefs|)
              && var next := Step(c, Mcu(im, sc, r, col), file, st, coefs);
                 Closing(c, im, sc, file, r, col, st, coefs, ahead)
                 == Closing(c, im, sc, file, r, col + 1, next.0, next.1, E.ClosedBy(c, file, st))
  {
    hide McuRows, McuCols, Mcu, Step, E.ClosedBy;
    if r < McuRows(im, sc) && col < McuCols(im, sc) {
      McuIsFit(c, im, sc, r, col, |coefs|);
    }
  }

  // ----- reading goes forward -----

  predicate Later(e: Ending, pos: nat, size: nat) {
    e.marker != 0 ==> pos < e.after <= size
  }

  predicate StateLater(st: State, pos: nat, size: nat) {
    match st.stream
    case Running(seg, _) => Later(EndOf(seg), pos, size)
    case Restarting(next) => next.At? ==> pos < next.pos <= size
  }

  lemma {:induction false} ResyncLater(file: seq<Byte>, marker: Byte, after: nat, desired: nat)
    requires desired < 8 && (marker != 0 ==> after <= |file|)
    ensures var r := Resync(file, marker, after, desired); r.At? ==> marker != 0 && after <= r.pos <= |file|
    decreases |file| - after
  {
    if marker != 0 && RecoveryAction(marker, desired).ScanOn? {
      var s := SegmentAt(file, after);
      if s.marker != 0 {
        ResyncLater(file, s.marker, s.after, desired);
      }
    }
  }

  lemma BeginLater(c: Scan, file: seq<Byte>, st: State, pos: nat)
    requires StateLater(st, pos, |file|)
    ensures StateLater(Begin(c, file, st), pos, |file|) && Later(E.ClosedBy(c, file, st), pos, |file|)
  {
  }

  lemma StepLater(c: Scan, mcu: seq<nat>, file: seq<Byte>, st: State, coefs: seq<Block>, pos: nat)
    requires McuFits(c, mcu, |coefs|) && StateLater(st, pos, |file|)
    ensures StateLater(Step(c, mcu, file, st, coefs).0, pos, |file|)
  {
    hide SegmentAt, Resync, McuOutcome, Apply;
    BeginLater(c, file, st, pos);
    var b := Begin(c, file, st);
    if b.stream.Running? {
      ResyncLater(file, b.stream.seg.marker, b.stream.seg.after, b.nextRst % 8);
    }
  }

  /** The marker that closes a scan lies behind where the scan began. */
  lemma {:induction false} ClosingLater(c: Scan, im: Image, sc: seq<nat>, file: seq<Byte>, r: nat, col: nat, st: State, coefs: seq<Block>,
                                        ahead: Ending, pos: nat)
    requires RunFits(c, im, sc, |coefs|) && StateLater(st, pos, |file|) && Later(ahead, pos, |file|)
    ensures Later(Closing(c, im, sc, file, r, col, st, coefs, ahead), pos, |file|)
    decreases McuRows(im, sc) - r, McuCols(im, sc) - col
  {
    hide Step, E.ClosedBy, McuRows, McuCols, Mcu, StateLater, Later;
    if r >= McuRows(im, sc) {
    } else if col >= McuCols(im, sc) {
      ClosingLater(c, im, sc, file, r + 1, 0, st, coefs, ahead, pos);
    } else {
      McuIsFit(c, im, sc, r, col, |coefs|);
      var mcu := Mcu(im, sc, r, col);
      var next := Step(c, mcu, file, st, coefs);
      BeginLater(c, file, st, pos);
      StepLater(c, mcu, file, st, coefs, pos);
      ClosingLater(c, im, sc, file, r, col + 1, next.0, next.1, E.ClosedBy(c, file, st), pos);
    }
  }
}
