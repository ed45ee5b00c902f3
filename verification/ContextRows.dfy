/** The main buffer controller with context rows: pointer lists over a ring of row groups
    that present every row group between its neighbours without copying (jdmainct.c). */
module ContextRows {
  import opened ScanGeometry

  /** The first and the last real row stand in for rows outside the image. */
  function Clamp(r: int, height: nat): int
    requires height > 0
  {
    if r < 0 then 0 else if r >= height then height - 1 else r
  }

  /** The workspace row that entry i of a normal pointer list names: in list 1 the last four row groups
      are in swapped order. A row group has rg rows, an iMCU row s of them. */
  function Phys(rg: nat, s: nat, which: nat, i: nat): (p: nat)
    requires 2 * rg <= s && i < s + 2 * rg
    ensures p < s + 2 * rg
  {
    if which == 0 || i < s - 2 * rg then i else if i < s then i + 2 * rg else i - 2 * rg
  }

  /** What row group list x names at offsets -rg .. s+3rg-1, entry 0 being at index rg. */
  ghost predicate Normal(rg: nat, s: nat, which: nat, x: seq<nat>)
    requires 2 * rg <= s && |x| == s + 4 * rg
  {
    forall k :: rg <= k < s + 3 * rg ==> x[k] == Phys(rg, s, which, k - rg)
  }

  ghost predicate Wrapped(rg: nat, s: nat, which: nat, x: seq<nat>)
    requires 2 * rg <= s && |x| == s + 4 * rg
  {
    && (forall k :: 0 <= k < rg ==> x[k] == Phys(rg, s, which, s + rg + k))
    && (forall k :: s + 3 * rg <= k < s + 4 * rg ==> x[k] == Phys(rg, s, which, k - s - 3 * rg))
  }

  /** The "above" entries duplicate the first row. */
  ghost predicate Topped(rg: nat, s: nat, x: seq<nat>)
    requires 2 * rg <= s && |x| == s + 4 * rg
  {
    forall k :: 0 <= k < rg ==> x[k] == 0
  }

  /** The workspace holds an iMCU row whose first row is row `top` of the image, as list `which` sees it. */
  ghost predicate Holds(rg: nat, s: nat, which: nat, buf: seq<int>, top: int)
    requires 2 * rg <= s && |buf| == s + 2 * rg
  {
    forall i :: 0 <= i < s ==> buf[Phys(rg, s, which, i)] == top + i
  }

  /** The two row groups before row `top` are still there, after the iMCU row. */
  ghost predicate Kept(rg: nat, s: nat, which: nat, buf: seq<int>, top: int)
    requires 2 * rg <= s && |buf| == s + 2 * rg
  {
    forall i :: s <= i < s + 2 * rg ==> buf[Phys(rg, s, which, i)] == top - 2 * rg + i - s
  }

  /** The two lists name the same workspace rows for an iMCU row's last two groups and for the groups kept. */
  lemma KeptByOther(rg: nat, s: nat, which: nat, buf: seq<int>, top: int)
    requires 0 < rg && 2 * rg <= s && |buf| == s + 2 * rg && which < 2
    requires Holds(rg, s, which, buf, top)
    ensures Kept(rg, s, 1 - which, buf, top + s)
  {
    var other := 1 - which;
    forall i | s <= i < s + 2 * rg
      ensures buf[Phys(rg, s, other, i)] == top + i - 2 * rg
    {
      assert Phys(rg, s, other, i) == Phys(rg, s, which, i - 2 * rg);
    }
  }

  /** A row group with its context: the group and the row on either side of it are those of the clamped image,
      and so is the whole group above and below, except above a last iMCU row that is shorter than a group. */
  ghost predicate RightView(view: seq<int>, row: int, rg: nat, height: nat, aboveShortEnd: bool)
    requires height > 0
  {
    && |view| == 3 * rg
    && (forall t :: rg - 1 <= t <= 2 * rg && 0 <= t < 3 * rg ==> view[t] == Clamp(row + t - rg, height))
    && ((forall t :: 0 <= t < 3 * rg ==> view[t] == Clamp(row + t - rg, height)) <==> !aboveShortEnd)
  }

  /** The row group starting at this image row is the last of the last but one iMCU row, and not even
      a whole row group of real rows follows it. */
  ghost predicate AboveShortEnd(row: int, rg: nat, s: nat, height: nat)
    requires height > 0 && s > 0
  {
    var total := CeilDiv(height, s);
    total >= 2 && row + rg == Times(total - 1, s) && height - Times(total - 1, s) < rg
  }

  /** The views are those of the image's row groups, in order. */
  ghost predicate ViewsRight(views: seq<seq<int>>, rg: nat, s: nat, height: nat)
    requires height > 0 && s > 0
  {
    forall j :: 0 <= j < |views| ==> RightView(views[j], Times(j, rg), rg, height, AboveShortEnd(Times(j, rg), rg, s, height))
  }

  lemma OneMoreRight(views: seq<seq<int>>, v: seq<int>, rg: nat, s: nat, height: nat)
    requires height > 0 && s > 0 && ViewsRight(views, rg, s, height)
    requires RightView(v, Times(|views|, rg), rg, height, AboveShortEnd(Times(|views|, rg), rg, s, height))
    ensures ViewsRight(views + [v], rg, s, height)
  {
    hide RightView, AboveShortEnd;
  }

  /** The three row groups that list x names from entry `start` on. */
  ghost function ViewOf(x: seq<nat>, buf: seq<int>, start: nat, rg: nat): (v: seq<int>)
    ensures |v| == 3 * rg
  {
    seq(3 * rg, t requires 0 <= t < 3 * rg => if start + t < |x| && x[start + t] < |buf| then buf[x[start + t]] else -1)
  }

  /** The first n entries of list x show the clamped image, starting rg rows above row `top`. */
  ghost predicate SeesClamped(x: seq<nat>, buf: seq<int>, top: int, n: int, rg: nat, height: nat)
    requires height > 0
  {
    n <= |x| && forall k :: 0 <= k < n ==> x[k] < |buf| && buf[x[k]] == Clamp(top + k - rg, height)
  }

  datatype ContextState = PrepareForImcu | ProcessImcu | PostponedRow

  class ContextController {
    const m: nat          // row groups per iMCU row
    const rgroup: nat     // rows per row group of the component
    const imcuHeight: nat // rows per iMCU row
    const height: nat     // real rows of the component
    const totalImcuRows: nat

    /** The workspace; a row is represented by its number in the (padded) image. */
    const buffer: array<int>
    const xbuffer0: array<nat>
    const xbuffer1: array<nat>

    var bufferFull: bool
    var rowgroupCtr: nat
    var whichptr: nat
    var contextState: ContextState
    var rowgroupsAvail: nat
    var imcuRowCtr: nat

    /** The row groups handed to the upsampler so far, each with the group above and the group below it. */
    ghost var presented: seq<seq<int>>

    function X(): array<nat>
      reads this
    {
      if whichptr == 0 then xbuffer0 else xbuffer1
    }

    ghost predicate Shape() {
      && m >= 2 && rgroup > 0 && imcuHeight == Times(m, rgroup) >= 2 * rgroup && height > 0
      && totalImcuRows == CeilDiv(height, imcuHeight)
      && buffer.Length == imcuHeight + 2 * rgroup
      && xbuffer0.Length == xbuffer1.Length == imcuHeight + 4 * rgroup && xbuffer0 != xbuffer1
    }

    /** Image row at which the iMCU row last received starts. */
    ghost function Top(): nat
      reads this`imcuRowCtr
    {
      if imcuRowCtr == 0 then 0 else Times(imcuRowCtr - 1, imcuHeight)
    }

    ghost predicate ListsNormal()
      requires Shape()
      reads xbuffer0, xbuffer1
    {
      Normal(rgroup, imcuHeight, 0, xbuffer0[..]) && Normal(rgroup, imcuHeight, 1, xbuffer1[..])
    }

    ghost predicate ListsWrapped()
      requires Shape()
      reads xbuffer0, xbuffer1
    {
      Wrapped(rgroup, imcuHeight, 0, xbuffer0[..]) && Wrapped(rgroup, imcuHeight, 1, xbuffer1[..])
    }

    /** The lists are in their regular state: topped while the first iMCU row is in use, then wrapped. */
    ghost predicate Regular()
      requires Shape()
      reads this, xbuffer0, xbuffer1
    {
      ListsNormal() && if imcuRowCtr <= 1 then Topped(rgroup, imcuHeight, xbuffer0[..]) else ListsWrapped()
    }

    /** An iMCU row is in the workspace, preceded by the last two groups of the one before. */
    ghost predicate Received()
      requires Shape()
      reads this, buffer
    {
      && 1 <= imcuRowCtr <= totalImcuRows && whichptr == (imcuRowCtr - 1) % 2
      && Holds(rgroup, imcuHeight, whichptr, buffer[..], Top())
      && (imcuRowCtr >= 2 ==> Kept(rgroup, imcuHeight, whichptr, buffer[..], Top()))
    }

    /** How far down the rows seen through the current list can be relied on. */
    ghost function Limit(): int
      reads this`imcuRowCtr
    {
      if imcuRowCtr < totalImcuRows then imcuHeight else height - Top() + 2 * rgroup
    }

    /** Through the current list, rows -rgroup .. Limit()-1 are those of the clamped image. */
    ghost predicate Seen()
      requires Shape()
      reads this, buffer, xbuffer0, xbuffer1
    {
      && 1 <= imcuRowCtr <= totalImcuRows && whichptr == (imcuRowCtr - 1) % 2
      && SeesClamped(X()[..], buffer[..], Top(), rgroup + Limit(), rgroup, height)
    }

    /** The next row group to present starts at this image row. */
    ghost predicate NextIs(row: int)
      reads this
    {
      Times(|presented|, rgroup) == row
    }

    ghost predicate Done()
      reads this
    {
      Times(|presented|, rgroup) >= height
    }

    ghost predicate Valid()
      reads this, buffer, xbuffer0, xbuffer1
    {
      && Shape() && whichptr < 2 && Times(|presented|, rgroup) < height + rgroup
      && (Done() ||
          if !bufferFull then
            if imcuRowCtr == 0 then
              contextState.PrepareForImcu? && whichptr == 0 && NextIs(0) && Regular()
            else
              && contextState.PostponedRow? && imcuRowCtr < totalImcuRows && whichptr == imcuRowCtr % 2
              && rowgroupCtr == m + 1 && rowgroupsAvail == m + 2
              && NextIs(Top() + imcuHeight - rgroup) && ListsNormal() && ListsWrapped()
              && Kept(rgroup, imcuHeight, whichptr, buffer[..], Top() + imcuHeight)
          else
            match contextState
            case PostponedRow =>
              && imcuRowCtr >= 2 && Received() && Regular() && NextIs(Top() - rgroup)
              && rowgroupCtr == m + 1 && rowgroupsAvail == m + 2
            case PrepareForImcu => Received() && Regular() && NextIs(Top())
            case ProcessImcu =>
              && Seen() && NextIs(Top() + Times(rowgroupCtr, rgroup)) && rowgroupCtr < rowgroupsAvail
              && rowgroupsAvail == (if imcuRowCtr < totalImcuRows then m - 1 else (height - Top() - 1) / rgroup + 1)
              && (imcuRowCtr < totalImcuRows ==> Received() && Regular()))
    }

    ghost predicate AllRight()
      requires Shape()
      reads this
    {
      ViewsRight(presented, rgroup, imcuHeight, height)
    }

    // ----- lists of row pointers -----

    /** make_funny_pointers */
    method MakeFunnyPointers()
      requires Shape()
      modifies xbuffer0, xbuffer1
      ensures ListsNormal() && Topped(rgroup, imcuHeight, xbuffer0[..])
    {
      CopyPointers();
      SwapLastGroups();
      var i := 0;
      while i < rgroup
        invariant 0 <= i <= rgroup
        invariant forall k :: rgroup <= k < imcuHeight + 3 * rgroup ==> xbuffer0[k] == k - rgroup
        invariant forall k :: 0 <= k < i ==> xbuffer0[k] == 0
        invariant Normal(rgroup, imcuHeight, 1, xbuffer1[..])
      {
        xbuffer0[i] := xbuffer0[rgroup];
        i := i + 1;
      }
    }

    /** Copies the workspace pointers as they are. */
    method CopyPointers()
      requires Shape()
      modifies xbuffer0, xbuffer1
      ensures forall k :: rgroup <= k < imcuHeight + 3 * rgroup ==> xbuffer0[k] == k - rgroup
      ensures forall k :: rgroup <= k < imcuHeight + 3 * rgroup ==> xbuffer1[k] == k - rgroup
    {
      var i := 0;
      while i < imcuHeight + 2 * rgroup
        invariant 0 <= i <= imcuHeight + 2 * rgroup
        invariant forall k :: rgroup <= k < rgroup + i ==> xbuffer0[k] == k - rgroup
        invariant forall k :: rgroup <= k < rgroup + i ==> xbuffer1[k] == k - rgroup
      {
        xbuffer0[rgroup + i] := i;
        xbuffer1[rgroup + i] := i;
        i := i + 1;
      }
    }

    /** In the second list, puts the last four row groups in swapped order. */
    method SwapLastGroups()
      requires Shape()
      requires forall k :: rgroup <= k < imcuHeight + 3 * rgroup ==> xbuffer1[k] == k - rgroup
      modifies xbuffer1
      ensures Normal(rgroup, imcuHeight, 1, xbuffer1[..])
    {
      var i := 0;
      while i < 2 * rgroup
        invariant 0 <= i <= 2 * rgroup
        invariant forall k :: rgroup <= k < imcuHeight + 3 * rgroup ==>
                    xbuffer1[k] == if imcuHeight - rgroup <= k < imcuHeight - rgroup + i then k + rgroup
                                   else if imcuHeight + rgroup <= k < imcuHeight + rgroup + i then k - 3 * rgroup
                                   else k - rgroup
      {
        xbuffer1[rgroup + (imcuHeight - 2 * rgroup) + i] := imcuHeight + i;
        xbuffer1[rgroup + imcuHeight + i] := imcuHeight - 2 * rgroup + i;
        i := i + 1;
      }
    }

    /** set_wraparound_pointers */
    method SetWraparoundPointers()
      requires Shape()
      modifies xbuffer0, xbuffer1
      ensures old(ListsNormal()) ==> ListsNormal() && ListsWrapped()
    {
      WrapList(xbuffer0);
      WrapList(xbuffer1);
      if old(ListsNormal()) {
        WrapRight(rgroup, imcuHeight, 0, old(xbuffer0[..]), xbuffer0[..]);
        WrapRight(rgroup, imcuHeight, 1, old(xbuffer1[..]), xbuffer1[..]);
      }
    }

    /** The wraparound entries of one list. */
    method WrapList(x: array<nat>)
      requires Shape() && x.Length == imcuHeight + 4 * rgroup
      modifies x
      ensures forall k :: rgroup <= k < imcuHeight + 3 * rgroup ==> x[k] == old(x[k])
      ensures forall k :: 0 <= k < rgroup ==> x[k] == old(x[k + imcuHeight + 2 * rgroup])
      ensures forall k :: imcuHeight + 3 * rgroup <= k < x.Length ==> x[k] == old(x[k - imcuHeight - 2 * rgroup])
    {
      var i := 0;
      while i < rgroup
        invariant 0 <= i <= rgroup
        invariant forall k :: rgroup <= k < imcuHeight + 3 * rgroup ==> x[k] == old(x[k])
        invariant forall k :: 0 <= k < i ==> x[k] == old(x[k + imcuHeight + 2 * rgroup])
        invariant forall k :: imcuHeight + 3 * rgroup <= k < imcuHeight + 3 * rgroup + i ==> x[k] == old(x[k - imcuHeight - 2 * rgroup])
      {
        x[i] := x[rgroup + (imcuHeight + rgroup) + i];
        x[rgroup + (imcuHeight + 2 * rgroup) + i] := x[rgroup + i];
        i := i + 1;
      }
    }

    /** start_pass_main, for components of the given size */
    constructor (m: nat, rgroup: nat, height: nat)
      requires m >= 2 && rgroup > 0 && height > 0
      ensures Valid() && AllRight() && presented == [] && !bufferFull
      ensures this.m == m && this.rgroup == rgroup && this.height == height
      ensures fresh(buffer) && fresh(xbuffer0) && fresh(xbuffer1)
    {
      RowsApart(0, m, rgroup);
      AtLeastTwo(m, rgroup);
      this.m, this.rgroup, this.height := m, rgroup, height;
      imcuHeight := Times(m, rgroup);
      totalImcuRows := CeilDiv(height, Times(m, rgroup));
      buffer := new int[Times(m, rgroup) + 2 * rgroup];
      xbuffer0 := new nat[Times(m, rgroup) + 4 * rgroup];
      xbuffer1 := new nat[Times(m, rgroup) + 4 * rgroup];
      bufferFull, rowgroupCtr, whichptr, contextState, rowgroupsAvail, imcuRowCtr := false, 0, 0, PrepareForImcu, 0, 0;
      presented := [];
      new;
      MakeFunnyPointers();
    }

    /** decompress_data into the current list: the next iMCU row of the image, padding rows included. */
    method LoadImcuRow()
      requires Valid() && !Done() && !bufferFull
      modifies buffer, this`bufferFull, this`imcuRowCtr
      ensures Valid() && bufferFull && imcuRowCtr == old(imcuRowCtr) + 1
    {
      hide Phys, Wrapped, Normal, Topped;
      TopAdvances();
      var top := imcuRowCtr * imcuHeight;
      TimesIs(imcuRowCtr, imcuHeight);
      var i := 0;
      while i < imcuHeight
        invariant 0 <= i <= imcuHeight && imcuRowCtr == old(imcuRowCtr)
        invariant forall k :: 0 <= k < i ==> buffer[Phys(rgroup, imcuHeight, whichptr, k)] == top + k
        invariant imcuRowCtr >= 1 ==> Kept(rgroup, imcuHeight, whichptr, buffer[..], Top() + imcuHeight)
      {
        ListEntry(X()[..], rgroup, imcuHeight, whichptr, i);
        PhysInjective(rgroup, imcuHeight, whichptr, i);
        buffer[X()[rgroup + i]] := top + i;
        i := i + 1;
      }
      bufferFull := true;
      imcuRowCtr := imcuRowCtr + 1;
    }

    lemma TopAdvances()
      requires Valid() && !Done() && !bufferFull
      ensures imcuRowCtr < totalImcuRows
      ensures imcuRowCtr >= 1 ==> Times(imcuRowCtr, imcuHeight) == Top() + imcuHeight
    {
      CeilIs(height, imcuHeight, totalImcuRows);
    }

    /** set_bottom_pointers */
    method SetBottomPointers()
      requires Shape() && Received() && Regular() && imcuRowCtr == totalImcuRows
      modifies this`rowgroupsAvail, xbuffer0, xbuffer1
      ensures Seen() && rowgroupsAvail == (height - Top() - 1) / rgroup + 1
    {
      hide Phys, Wrapped, Normal, Topped;
      LastRows();
      var rowsLeft := LastPart(height, imcuHeight);
      var x := X();
      ghost var before := x[..];
      DuplicateLast(x, rowsLeft);
      BottomSeen(before, x[..], rgroup, imcuHeight, whichptr, buffer[..], Top(), imcuRowCtr >= 2, rowsLeft);
      rowgroupsAvail := (rowsLeft - 1) / rgroup + 1;
    }

    /** Repeats the entry of the last real row two row groups on. */
    method DuplicateLast(x: array<nat>, rowsLeft: nat)
      requires 1 <= rowsLeft && rgroup + rowsLeft + 2 * rgroup <= x.Length
      modifies x
      ensures forall k :: 0 <= k < x.Length ==>
                x[k] == if rgroup + rowsLeft <= k < rgroup + rowsLeft + 2 * rgroup then old(x[rgroup + rowsLeft - 1]) else old(x[k])
    {
      var i := 0;
      while i < rgroup * 2
        invariant 0 <= i <= rgroup * 2
        invariant forall k :: 0 <= k < x.Length ==>
                    x[k] == if rgroup + rowsLeft <= k < rgroup + rowsLeft + i then old(x[rgroup + rowsLeft - 1]) else old(x[k])
      {
        x[rgroup + rowsLeft + i] := x[rgroup + rowsLeft - 1];
        i := i + 1;
      }
    }

    lemma LastRows()
      requires Shape() && imcuRowCtr == totalImcuRows
      ensures height == Top() + LastPart(height, imcuHeight) && 1 <= LastPart(height, imcuHeight) <= imcuHeight
    {
      LastPartIs(height, imcuHeight);
      CeilIs(height, imcuHeight, totalImcuRows);
      TimesIs(totalImcuRows - 1, imcuHeight);
    }

    /** The groups still to be presented from the current list are right, the list starting at image row base. */
    ghost predicate Ready(base: int)
      requires Shape()
      reads this, buffer, xbuffer0, xbuffer1
    {
      && rowgroupCtr <= rowgroupsAvail && NextIs(base + Times(rowgroupCtr, rgroup))
      && forall g :: rowgroupCtr <= g < rowgroupsAvail ==>
           RightView(ViewOf(X()[..], buffer[..], Times(g, rgroup), rgroup), base + Times(g, rgroup), rgroup, height,
                     AboveShortEnd(base + Times(g, rgroup), rgroup, imcuHeight, height))
    }

    /** post_process_data: the upsampler takes up to n row groups; how many it took. */
    method PostProcess(n: nat, ghost base: int) returns (i: nat)
      requires Shape() && Ready(base) && AllRight()
      modifies this`rowgroupCtr, this`presented
      ensures Ready(base) && AllRight() && old(presented) <= presented
      ensures |presented| == |old(presented)| + i && rowgroupCtr == old(rowgroupCtr) + i
      ensures rowgroupCtr == if old(rowgroupCtr) + n < rowgroupsAvail then old(rowgroupCtr) + n else rowgroupsAvail
    {
      hide RightView, AboveShortEnd, ViewsRight, ViewOf;
      i := 0;
      while i < n && rowgroupCtr < rowgroupsAvail
        invariant 0 <= i <= n && rowgroupCtr == old(rowgroupCtr) + i && Ready(base) && AllRight()
        invariant old(presented) <= presented && |presented| == |old(presented)| + i
      {
        ghost var view := ViewOf(X()[..], buffer[..], Times(rowgroupCtr, rgroup), rgroup);
        OneMoreRight(presented, view, rgroup, imcuHeight, height);
        presented := presented + [view];
        rowgroupCtr := rowgroupCtr + 1;
        i := i + 1;
      }
    }

    /** Where the current iMCU row stands among all of them. */
    lemma TopInside()
      requires Shape() && 1 <= imcuRowCtr <= totalImcuRows
      ensures Top() < height && (imcuRowCtr >= 2 ==> Top() >= imcuHeight)
      ensures Top() == Times(totalImcuRows - 1, imcuHeight) <==> imcuRowCtr == totalImcuRows
      ensures imcuRowCtr < totalImcuRows ==> Top() + imcuHeight <= Times(totalImcuRows - 1, imcuHeight) < height
      ensures imcuRowCtr == totalImcuRows ==> 1 <= height - Top() <= imcuHeight
    {
      CeilIs(height, imcuHeight, totalImcuRows);
      TimesIs(totalImcuRows - 1, imcuHeight);
      TimesIs(totalImcuRows, imcuHeight);
      if imcuRowCtr < totalImcuRows {
        RowsApart(imcuRowCtr - 1, totalImcuRows - 1, imcuHeight);
      }
      if imcuRowCtr >= 2 {
        RowsApart(0, imcuRowCtr - 1, imcuHeight);
      }
    }

    /** The postponed row group, found after the new iMCU row in the other list. */
    lemma PostponedReady()
      requires Shape() && imcuRowCtr >= 2 && Received() && Regular() && NextIs(Top() - rgroup)
      requires rowgroupCtr == m + 1 && rowgroupsAvail == m + 2
      ensures Ready(Top() - rgroup - Times(m + 1, rgroup))
    {
      hide Phys, Normal, Wrapped, Topped, Holds, Kept;
      TopInside();
      PostponedSeen(X()[..], rgroup, imcuHeight, whichptr, buffer[..], Top(), height);
    }

    /** The row groups of the iMCU row itself. */
    lemma ProcessReady()
      requires Shape() && Seen() && NextIs(Top() + Times(rowgroupCtr, rgroup)) && rowgroupCtr <= rowgroupsAvail
      requires rowgroupsAvail == if imcuRowCtr < totalImcuRows then m - 1 else (height - Top() - 1) / rgroup + 1
      ensures Ready(Top())
    {
      hide ViewOf, RightView, SeesClamped;
      TopInside();
      forall g | rowgroupCtr <= g < rowgroupsAvail
        ensures RightView(ViewOf(X()[..], buffer[..], Times(g, rgroup), rgroup), Top() + Times(g, rgroup), rgroup, height,
                          AboveShortEnd(Top() + Times(g, rgroup), rgroup, imcuHeight, height))
      {
        GroupWithin(g);
        ProcessView(X()[..], buffer[..], Top(), rgroup + Limit(), rgroup, height, Times(g, rgroup));
      }
    }

    lemma GroupWithin(g: nat)
      requires Shape() && 1 <= imcuRowCtr <= totalImcuRows
      requires g < if imcuRowCtr < totalImcuRows then m - 1 else (height - Top() - 1) / rgroup + 1
      ensures Times(g, rgroup) + 2 * rgroup <= Limit() <= imcuHeight + 2 * rgroup
      ensures !AboveShortEnd(Top() + Times(g, rgroup), rgroup, imcuHeight, height)
    {
      TopInside();
      if imcuRowCtr < totalImcuRows {
        RowsApart(g, m - 1, rgroup);
      } else {
        GroupStart(g, height - Top() - 1, rgroup);
      }
    }

    /** Before the groups of an iMCU row are processed. */
    method Prepare()
      requires Shape() && bufferFull && Received() && Regular() && NextIs(Top())
      modifies this`rowgroupCtr, this`rowgroupsAvail, this`contextState, xbuffer0, xbuffer1
      ensures contextState.ProcessImcu? && Seen() && NextIs(Top() + Times(rowgroupCtr, rgroup)) && rowgroupCtr < rowgroupsAvail
      ensures rowgroupsAvail == if imcuRowCtr < totalImcuRows then m - 1 else (height - Top() - 1) / rgroup + 1
      ensures imcuRowCtr < totalImcuRows ==> Received() && Regular()
    {
      hide Phys, Normal, Wrapped, Topped, Holds, Kept, SeesClamped, CeilDiv, Clamp;
      TopInside();
      rowgroupCtr := 0;
      rowgroupsAvail := m - 1;
      if imcuRowCtr == totalImcuRows {
        SetBottomPointers();
      } else {
        RegularSeen(X()[..], rgroup, imcuHeight, whichptr, buffer[..], Top(), imcuRowCtr >= 2, height);
      }
      contextState := ProcessImcu;
    }

    /** The groups of the iMCU row, and the switch to the other list once they are done. */
    method ProcessRest(taken: nat) returns (out: nat)
      requires Valid() && !Done() && AllRight() && bufferFull && contextState.ProcessImcu?
      modifies this, xbuffer0, xbuffer1
      ensures Valid() && AllRight() && old(presented) <= presented
      ensures |presented| == |old(presented)| + out && (taken > 0 ==> out > 0)
    {
      hide Phys, Normal, Wrapped, Topped, Holds, Kept, ViewsRight, SeesClamped, Times, CeilDiv, RightView, ViewOf;
      ProcessReady();
      TopInside();
      out := PostProcess(taken, Top());
      PresentedBound();
      if rowgroupCtr < rowgroupsAvail {
        return;
      }
      if imcuRowCtr == 1 {
        SetWraparoundPointers();
      }
      if imcuRowCtr < totalImcuRows {
        KeptByOther(rgroup, imcuHeight, whichptr, buffer[..], Top());
      }
      whichptr := 1 - whichptr;
      bufferFull := false;
      rowgroupCtr, rowgroupsAvail := m + 1, m + 2;
      contextState := PostponedRow;
    }

    lemma PresentedBound()
      requires Shape() && 1 <= imcuRowCtr <= totalImcuRows && NextIs(Top() + Times(rowgroupCtr, rgroup)) && rowgroupCtr <= rowgroupsAvail
      requires rowgroupsAvail == if imcuRowCtr < totalImcuRows then m - 1 else (height - Top() - 1) / rgroup + 1
      ensures Times(|presented|, rgroup) < height + rgroup
      ensures rowgroupCtr == rowgroupsAvail ==>
                if imcuRowCtr < totalImcuRows then NextIs(Top() + imcuHeight - rgroup) else Done()
    {
      TopInside();
      if imcuRowCtr < totalImcuRows {
        if rowgroupCtr < m - 1 {
          RowsApart(rowgroupCtr, m - 1, rgroup);
        }
      } else {
        GroupEnd(rowgroupCtr, height - Top() - 1, rgroup);
      }
    }

    /** When the image is done, every row group has been presented, and none twice. */
    lemma AllPresented()
      requires Valid() && Done()
      ensures |presented| == CeilDiv(height, rgroup)
    {
      TimesIs(|presented|, rgroup);
      CeilIs(height, rgroup, |presented|);
    }

    /** Hands over the postponed row group; once it is taken the iMCU row can be prepared. */
    method FeedPostponed(taken: nat) returns (out: nat)
      requires Valid() && !Done() && AllRight() && bufferFull && contextState.PostponedRow?
      modifies this`rowgroupCtr, this`presented, this`contextState
      ensures Valid() && !Done() && AllRight() && bufferFull && old(presented) <= presented
      ensures |presented| == |old(presented)| + out
      ensures if contextState.PostponedRow? then taken == 0 else contextState.PrepareForImcu? && out > 0
    {
      hide Phys, Normal, Wrapped, Topped, Holds, Kept, ViewsRight, CeilDiv, RightView, ViewOf, SeesClamped;
      PostponedReady();
      TopInside();
      out := PostProcess(taken, Top() - rgroup - Times(m + 1, rgroup));
      if rowgroupCtr >= rowgroupsAvail {
        contextState := PrepareForImcu;
      }
    }

    /** process_data_context_main. Whether input is ready, and how much the post-processor takes each time it
        is called, is up to them; row groups are presented once each, in order, in their right context. */
    method ProcessData(ready: bool, taken: nat, outputFull: bool, takenThen: nat) returns (out: nat)
      requires Valid() && !Done() && AllRight()
      modifies this, buffer, xbuffer0, xbuffer1
      ensures Valid() && AllRight() && old(presented) <= presented
      ensures |presented| == |old(presented)| + out
      ensures (ready || old(bufferFull)) && taken > 0 && takenThen > 0 ==> out > 0
    {
      hide Phys, Normal, Wrapped, Topped, Holds, Kept, ViewsRight, SeesClamped, Times, CeilDiv;
      out := 0;
      if !bufferFull {
        if !ready {
          return;
        }
        LoadImcuRow();
      }
      if contextState.PostponedRow? {
        out := FeedPostponed(taken);
        if contextState.PostponedRow? || outputFull {
          return;
        }
      }
      if contextState.PrepareForImcu? {
        Prepare();
      }
      var more := ProcessRest(takenThen);
      out := out + more;
    }
  }

  lemma AtLeastTwo(m: nat, rg: nat)
    requires m >= 2
    ensures Times(m, rg) >= 2 * rg
  {
    assert Times(2, rg) == Times(1, rg) + rg == Times(0, rg) + rg + rg;
    if m > 2 {
      RowsApart(2, m, rg);
    }
  }

  lemma ListEntry(x: seq<nat>, rg: nat, s: nat, which: nat, i: nat)
    requires 2 * rg <= s && |x| == s + 4 * rg && Normal(rg, s, which, x) && i < s + 2 * rg
    ensures x[rg + i] == Phys(rg, s, which, i)
  {
  }

  lemma PhysInjective(rg: nat, s: nat, which: nat, i: nat)
    requires 2 * rg <= s && i < s + 2 * rg
    ensures forall k :: 0 <= k < s + 2 * rg && k != i ==> Phys(rg, s, which, k) != Phys(rg, s, which, i)
  {
  }

  /** What a regular list sees: two row groups before the iMCU row after it, and one before it. */
  lemma SeenThrough(x: seq<nat>, rg: nat, s: nat, which: nat, buf: seq<int>, top: nat, wrapped: bool)
    requires 0 < rg && 2 * rg <= s && |x| == s + 4 * rg && |buf| == s + 2 * rg
    requires Normal(rg, s, which, x) && Holds(rg, s, which, buf, top)
    requires if wrapped then Wrapped(rg, s, which, x) && Kept(rg, s, which, buf, top) else which == 0 && top == 0 && Topped(rg, s, x)
    ensures forall k :: 0 <= k < s + 3 * rg ==> x[k] < |buf|
    ensures forall k :: rg <= k < s + rg ==> buf[x[k]] == top + k - rg
    ensures forall k :: 0 <= k < rg ==> buf[x[k]] == if wrapped then top + k - rg else 0
    ensures wrapped ==> forall k :: s + rg <= k < s + 4 * rg ==> x[k] < |buf| && buf[x[k]] == top + k - s - 3 * rg
  {
    hide Phys;
    forall k | 0 <= k < s + 4 * rg
      ensures (wrapped || k < s + 3 * rg) ==> x[k] < |buf|
      ensures rg <= k < s + rg ==> buf[x[k]] == top + k - rg
      ensures k < rg ==> buf[x[k]] == if wrapped then top + k - rg else 0
      ensures wrapped && k >= s + rg ==> buf[x[k]] == top + k - s - 3 * rg
    {
      if k < rg {
        if wrapped {
          assert x[k] == Phys(rg, s, which, s + rg + k);
        } else {
          PhysZero(rg, s);
        }
      } else if k < s + 3 * rg {
        assert x[k] == Phys(rg, s, which, k - rg);
      } else if wrapped {
        assert x[k] == Phys(rg, s, which, k - s - 3 * rg);
      }
    }
  }

  /** With the last real row duplicated below it, the last iMCU row is seen as part of the clamped image. */
  lemma BottomSeen(x: seq<nat>, now: seq<nat>, rg: nat, s: nat, which: nat, buf: seq<int>, top: nat, wrapped: bool, left: nat)
    requires 0 < rg && 2 * rg <= s && |x| == |now| == s + 4 * rg && |buf| == s + 2 * rg && 1 <= left <= s
    requires Normal(rg, s, which, x) && Holds(rg, s, which, buf, top)
    requires if wrapped then Wrapped(rg, s, which, x) && Kept(rg, s, which, buf, top) && top >= rg
             else which == 0 && top == 0 && Topped(rg, s, x)
    requires forall k :: 0 <= k < |x| ==> now[k] == if rg + left <= k < rg + left + 2 * rg then x[rg + left - 1] else x[k]
    ensures SeesClamped(now, buf, top, left + 3 * rg, rg, top + left)
  {
    hide Phys, Normal, Wrapped, Topped, Holds, Kept;
    SeenThrough(x, rg, s, which, buf, top, wrapped);
    assert buf[x[rg + left - 1]] == top + left - 1;
  }

  lemma PhysZero(rg: nat, s: nat)
    requires 0 < rg && 2 * rg <= s
    ensures Phys(rg, s, 0, 0) == 0
  {
  }

  lemma WrapRight(rg: nat, s: nat, which: nat, before: seq<nat>, now: seq<nat>)
    requires 2 * rg <= s && |before| == |now| == s + 4 * rg && Normal(rg, s, which, before)
    requires forall k :: rg <= k < s + 3 * rg ==> now[k] == before[k]
    requires forall k :: 0 <= k < rg ==> now[k] == before[k + s + 2 * rg]
    requires forall k :: s + 3 * rg <= k < |now| ==> now[k] == before[k - s - 2 * rg]
    ensures Normal(rg, s, which, now) && Wrapped(rg, s, which, now)
  {
    hide Phys;
  }

  lemma GroupStart(g: nat, left: nat, rg: nat)
    requires rg > 0 && g < left / rg + 1
    ensures Times(g, rg) <= left
  {
    TimesIs(g, rg);
    MulMonotone(g, left / rg, rg);
  }

  lemma GroupEnd(g: nat, left: nat, rg: nat)
    requires rg > 0 && g <= left / rg + 1
    ensures Times(g, rg) <= left + rg && (g == left / rg + 1 ==> Times(g, rg) > left)
  {
    TimesIs(g, rg);
    MulMonotone(g, left / rg + 1, rg);
    assert left == left / rg * rg + left % rg;
  }

  /** Any full view within what can be relied on is right. */
  lemma ProcessView(x: seq<nat>, buf: seq<int>, top: int, n: int, rg: nat, height: nat, start: nat)
    requires height > 0 && rg > 0 && SeesClamped(x, buf, top, n, rg, height) && start + 3 * rg <= n
    ensures RightView(ViewOf(x, buf, start, rg), top + start, rg, height, false)
  {
  }

  /** Before the last iMCU row the current list shows the image as far as it has been received. */
  lemma RegularSeen(x: seq<nat>, rg: nat, s: nat, which: nat, buf: seq<int>, top: nat, wrapped: bool, height: nat)
    requires 0 < rg && 2 * rg <= s && |x| == s + 4 * rg && |buf| == s + 2 * rg && top + s < height
    requires Normal(rg, s, which, x) && Holds(rg, s, which, buf, top)
    requires if wrapped then Wrapped(rg, s, which, x) && Kept(rg, s, which, buf, top) && top >= rg
             else which == 0 && top == 0 && Topped(rg, s, x)
    ensures SeesClamped(x, buf, top, rg + s, rg, height)
  {
    hide Phys, Normal, Wrapped, Topped, Holds, Kept;
    SeenThrough(x, rg, s, which, buf, top, wrapped);
  }

  /** The group after the last in the list, and its context: right but for rows past the end of the image. */
  lemma PostponedSeen(x: seq<nat>, rg: nat, s: nat, which: nat, buf: seq<int>, top: nat, height: nat)
    requires 0 < rg && 2 * rg <= s && |x| == s + 4 * rg && |buf| == s + 2 * rg && 2 * rg <= top < height
    requires Normal(rg, s, which, x) && Holds(rg, s, which, buf, top)
    requires Wrapped(rg, s, which, x) && Kept(rg, s, which, buf, top)
    ensures RightView(ViewOf(x, buf, s + rg, rg), top - rg, rg, height, height - top < rg)
  {
    hide Phys, Normal, Wrapped, Topped, Holds, Kept;
    SeenThrough(x, rg, s, which, buf, top, true);
    var view := ViewOf(x, buf, s + rg, rg);
    forall t | 0 <= t < 3 * rg
      ensures view[t] == top - 2 * rg + t
    {
      assert buf[x[s + rg + t]] == top + (s + rg + t) - s - 3 * rg;
    }
    PostponedView(view, top, rg, height);
  }

  lemma PostponedView(view: seq<int>, top: int, rg: nat, height: nat)
    requires 0 < rg && 2 * rg <= top < height && |view| == 3 * rg
    requires forall t :: 0 <= t < 3 * rg ==> view[t] == top - 2 * rg + t
    ensures RightView(view, top - rg, rg, height, height - top < rg)
  {
    if height - top < rg {
      assert view[3 * rg - 1] != Clamp(top - rg + (3 * rg - 1) - rg, height);
    }
  }

  /** Two row groups of two rows to the iMCU row and five rows: below rows 2 and 3 come row 4 and a padding row. */
  lemma ShortEnd()
    ensures AboveShortEnd(2, 2, 4, 5)
  {
    assert Times(1, 4) == Times(0, 4) + 4 == 4;
  }

  lemma PaddedView(view: seq<int>)
    requires RightView(view, 2, 2, 5, true)
    ensures |view| == 6 && exists t :: 0 <= t < 6 && view[t] != Clamp(t, 5)
  {
    var t :| 0 <= t < 3 * 2 && view[t] != Clamp(2 + t - 2, 5);
    assert view[t] != Clamp(t, 5);
  }

  lemma SecondGroup(views: seq<seq<int>>)
    requires ViewsRight(views, 2, 4, 5) && |views| > 1
    ensures |views[1]| == 6 && exists t :: 0 <= t < 6 && views[1][t] != Clamp(t, 5)
  {
    hide AboveShortEnd, Times, RightView;
    ShortEnd();
    TwiceTimes(1);
    PaddedView(views[1]);
  }

  /** A run on that image, one row group at a time: when it is done, the context in which the second row group has been
      presented is not that of the image with its first and last rows repeated. */
  method ShortEndHappens() returns (c: ContextController)
    ensures c.Valid() && c.Done() && c.height == 5 && c.rgroup == 2 && c.m == 2 && |c.presented| == 3
    ensures |c.presented[1]| == 6 && exists t :: 0 <= t < 6 && c.presented[1][t] != Clamp(t, 5)
  {
    hide ContextController.Valid, ContextController.AllRight, ViewsRight;
    c := new ContextController(2, 2, 5);
    var out := 0;
    TwiceTimes(0);
    while out < 3
      invariant out == |c.presented|
      invariant c.Valid() && c.AllRight() && c.height == 5 && c.rgroup == 2 && c.m == 2
      invariant fresh(c) && fresh(c.buffer) && fresh(c.xbuffer0) && fresh(c.xbuffer1)
    {
      TwiceTimes(out);
      var more := c.ProcessData(true, 1, true, 1);
      out := out + more;
    }
    TwiceTimes(out);
    c.AllPresented();
    ThreeGroups();
    ShapeOf(c);
    SecondGroup(c.presented);
  }

  lemma TwiceTimes(n: nat)
    ensures Times(n, 2) == 2 * n
  {
    TimesIs(n, 2);
  }

  lemma ThreeGroups()
    ensures CeilDiv(5, 2) == 3
  {
    CeilIs(5, 2, 3);
  }

  lemma ShapeOf(c: ContextController)
    requires c.Valid() && c.AllRight() && c.m == 2 && c.rgroup == 2 && c.height == 5
    ensures ViewsRight(c.presented, 2, 4, 5)
  {
    TwiceTimes(2);
  }
}
