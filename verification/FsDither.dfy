/** Floyd-Steinberg dithering of the one-pass quantiser: one error array updated in place, rows in
    alternating directions, against the two-row form (jquant1.c). */
module FsDither {
  import opened HuffmanTable
  import opened RangeLimit

  /** A stored error: a 16-bit integer. */
  type Fserror = x: int | -0x8000 <= x < 0x8000

  // ----- the two-row form -----

  /** What the quantiser does to one component: the code for a value, and the value that code stands for. */
  datatype ComponentRaw = Component(colorindex: seq<nat>, colormap: seq<Byte>)

  type Component = c: ComponentRaw | |c.colorindex| == 256 && forall v :: 0 <= v < 256 ==> c.colorindex[v] < |c.colormap|
    witness ComponentRaw.Component(seq(256, _ => 0), [0])

  function Represented(c: Component, v: Byte): Byte {
    c.colormap[c.colorindex[v]]
  }

  /** The k-th pixel of a row in the direction of travel (and the other way round). */
  function Travel(odd: bool, w: nat, k: int): int {
    if odd then w - 1 - k else k
  }

  /** The k-th pixel visited: its value corrected by 7/16 of the error of the pixel before and by what the row above passed down. */
  function Corrected(c: Component, pix: seq<Byte>, down: seq<int>, odd: bool, k: nat): Byte
    requires k < |pix| == |down|
    decreases k, 0
  {
    var x := Travel(odd, |pix|, k);
    var ahead := if k == 0 then 0 else 7 * Error(c, pix, down, odd, k - 1);
    Limit(pix[x] + (ahead + down[x] + 8) / 16)
  }

  /** The representation error of the k-th pixel visited; none outside the row. */
  function Error(c: Component, pix: seq<Byte>, down: seq<int>, odd: bool, k: int): (e: int)
    requires |pix| == |down|
    ensures -255 <= e <= 255
    decreases if k < 0 then 0 else k, 1
  {
    if 0 <= k < |pix| then
      var v := Corrected(c, pix, down, odd, k);
      v - Represented(c, v)
    else 0
  }

  /** What a row passes down, in sixteenths: 3 to the pixel below and behind, 5 straight below, 1 below and ahead. */
  function PassedDown(c: Component, pix: seq<Byte>, down: seq<int>, odd: bool): (r: seq<int>)
    requires |pix| == |down|
    ensures |r| == |pix|
  {
    seq(|pix|, x requires 0 <= x < |pix| => Below(c, pix, down, odd, Travel(odd, |pix|, x)))
  }

  /** The sum passed to the pixel below the k-th pixel visited. */
  function Below(c: Component, pix: seq<Byte>, down: seq<int>, odd: bool, k: int): (s: int)
    requires |pix| == |down|
    ensures -2295 <= s <= 2295
  {
    3 * Error(c, pix, down, odd, k + 1) + 5 * Error(c, pix, down, odd, k) + Error(c, pix, down, odd, k - 1)
  }

  // ----- the one-array form -----

  /** At step k: entries not yet visited hold what the row above passed down, those left behind (but one) what this row does. */
  ghost predicate Midway(c: Component, pix: seq<Byte>, down: seq<int>, odd: bool, errors: seq<Fserror>, k: int)
    requires |pix| == |down|
  {
    && |errors| == |pix| + 2
    && forall x :: 0 <= x < |pix| ==>
         && (Travel(odd, |pix|, x) >= k ==> errors[x + 1] == down[x])
         && (Travel(odd, |pix|, x) < k - 1 ==> errors[x + 1] == Below(c, pix, down, odd, Travel(odd, |pix|, x)))
  }

  /** The code for the k-th pixel visited. */
  function Picked(c: Component, pix: seq<Byte>, down: seq<int>, odd: bool, k: int): nat
    requires 0 <= k < |pix| == |down|
  {
    c.colorindex[Corrected(c, pix, down, odd, k)]
  }

  /** At step k: the codes of the pixels visited have been added in. */
  ghost predicate Coded(c: Component, pix: seq<Byte>, down: seq<int>, odd: bool, was: seq<nat>, now: seq<nat>, k: int)
    requires |pix| == |down|
  {
    && |was| == |now| == |pix|
    && forall x :: 0 <= x < |pix| ==>
         now[x] == if Travel(odd, |pix|, x) < k then was[x] + Picked(c, pix, down, odd, Travel(odd, |pix|, x)) else was[x]
  }

  lemma CodedStart(c: Component, pix: seq<Byte>, down: seq<int>, odd: bool, was: seq<nat>)
    requires |pix| == |down| == |was|
    ensures Coded(c, pix, down, odd, was, was, 0)
  {
    hide Picked;
  }

  lemma CodedStep(c: Component, pix: seq<Byte>, down: seq<int>, odd: bool, was: seq<nat>, now: seq<nat>, k: nat)
    requires k < |pix| == |down| && Coded(c, pix, down, odd, was, now, k)
    ensures var x := Travel(odd, |pix|, k);
            |now| == |pix| && Coded(c, pix, down, odd, was, now[x := now[x] + Picked(c, pix, down, odd, k)], k + 1)
  {
    hide Picked;
    TravelBack(odd, |pix|, k);
  }

  /** No two steps visit the same column. */
  lemma TravelBack(odd: bool, w: nat, k: nat)
    requires k < w
    ensures 0 <= Travel(odd, w, k) < w && Travel(odd, w, Travel(odd, w, k)) == k
  {
  }

  lemma CodedEnd(c: Component, pix: seq<Byte>, down: seq<int>, odd: bool, was: seq<nat>, now: seq<nat>)
    requires |pix| == |down| && Coded(c, pix, down, odd, was, now, |pix|)
    ensures |was| == |now| == |pix|
    ensures forall x :: 0 <= x < |pix| ==>
              now[x] == was[x] + c.colorindex[Corrected(c, pix, down, odd, Travel(odd, |pix|, x))]
  {
    hide Corrected;
  }

  /** One pixel: the error due to it is added, rounded and range-limited; its code, and the error that is left. */
  method DitherPixel(c: Component, rangeLimit: seq<Byte>, err: int, pixel: Byte) returns (pixcode: nat, cur: int)
    requires IsRangeLimit(rangeLimit) && -255 <= (err + 8) / 16 <= 255
    ensures var v := Limit(pixel + (err + 8) / 16); pixcode == c.colorindex[v] && cur == v - Represented(c, v)
  {
    cur := (err + 8) / 16;
    cur := cur + pixel;
    RangeLimited(rangeLimit, cur);
    cur := rangeLimit[cur + 256];
    pixcode := c.colorindex[cur];
    cur := cur - c.colormap[pixcode];
  }

  /** quantize_fs_dither on one component of one row. */
  method DitherRow(c: Component, rangeLimit: seq<Byte>, pix: seq<Byte>, odd: bool, fserrors: array<Fserror>, output: array<nat>, ghost down: seq<int>)
    requires IsRangeLimit(rangeLimit) && fserrors.Length == |pix| + 2 && output.Length == |pix| == |down|
    requires forall x :: 0 <= x < |pix| ==> fserrors[x + 1] == down[x] && -2295 <= down[x] <= 2295
    modifies fserrors, output
    ensures forall x :: 0 <= x < |pix| ==> fserrors[x + 1] == PassedDown(c, pix, down, odd)[x]
    ensures forall x :: 0 <= x < |pix| ==>
              output[x] == old(output[x]) + c.colorindex[Corrected(c, pix, down, odd, Travel(odd, |pix|, x))]
  {
    hide Below, Corrected, Error, IsRangeLimit, Midway, Coded;
    var width := |pix|;
    var dir := if odd then -1 else 1;
    var column := if odd then width - 1 else 0;
    var errorptr := if odd then width + 1 else 0;
    var cur, belowerr, bpreverr := 0, 0, 0;
    var k := 0;
    NoErrorBefore(c, pix, down, odd);
    MidwayStart(c, pix, down, odd, fserrors[..]);
    CodedStart(c, pix, down, odd, output[..]);
    while k < width
      invariant 0 <= k <= width && errorptr == column + 1 - dir && column == Travel(odd, width, k)
      invariant cur == 7 * Error(c, pix, down, odd, k - 1) && belowerr == Error(c, pix, down, odd, k - 1)
      invariant bpreverr == 5 * Error(c, pix, down, odd, k - 1) + Error(c, pix, down, odd, k - 2)
      invariant Midway(c, pix, down, odd, fserrors[..], k)
      invariant Coded(c, pix, down, odd, old(output[..]), output[..], k)
    {
      MidwayAt(c, pix, down, odd, fserrors[..], k);
      CorrectedStep(c, pix, down, odd, k);
      var pixcode;
      pixcode, cur := DitherPixel(c, rangeLimit, cur + fserrors[errorptr + dir], pix[column]);
      CodedStep(c, pix, down, odd, old(output[..]), output[..], k);
      output[column] := output[column] + pixcode;
      var bnexterr := cur;
      var delta := cur * 2;
      cur := cur + delta;
      ghost var was := fserrors[..];
      BelowStep(c, pix, down, odd, k - 1);
      fserrors[errorptr] := bpreverr + cur;
      MidwayStep(c, pix, down, odd, was, k, errorptr, fserrors[..]);
      cur := cur + delta;
      bpreverr := belowerr + cur;
      belowerr := bnexterr;
      cur := cur + delta;
      column := column + dir;
      errorptr := errorptr + dir;
      k := k + 1;
    }
    NoErrorAfter(c, pix, down, odd);
    BelowStep(c, pix, down, odd, width - 1);
    ghost var was := fserrors[..];
    fserrors[errorptr] := bpreverr;
    MidwayStep(c, pix, down, odd, was, width, errorptr, fserrors[..]);
    MidwayEnd(c, pix, down, odd, fserrors[..]);
    CodedEnd(c, pix, down, odd, old(output[..]), output[..]);
  }

  lemma MidwayStart(c: Component, pix: seq<Byte>, down: seq<int>, odd: bool, errors: seq<Fserror>)
    requires |pix| == |down| && |errors| == |pix| + 2 && forall x :: 0 <= x < |pix| ==> errors[x + 1] == down[x]
    ensures Midway(c, pix, down, odd, errors, 0)
  {
    hide Below;
  }

  lemma MidwayAt(c: Component, pix: seq<Byte>, down: seq<int>, odd: bool, errors: seq<Fserror>, k: int)
    requires 0 <= k < |pix| == |down| && Midway(c, pix, down, odd, errors, k)
    ensures |errors| == |pix| + 2 && errors[Travel(odd, |pix|, k) + 1] == down[Travel(odd, |pix|, k)]
  {
    hide Below;
  }

  lemma MidwayEnd(c: Component, pix: seq<Byte>, down: seq<int>, odd: bool, errors: seq<Fserror>)
    requires |pix| == |down| && Midway(c, pix, down, odd, errors, |pix| + 1)
    ensures |errors| == |pix| + 2 && forall x :: 0 <= x < |pix| ==> errors[x + 1] == PassedDown(c, pix, down, odd)[x]
  {
    hide Below;
  }

  lemma NoErrorBefore(c: Component, pix: seq<Byte>, down: seq<int>, odd: bool)
    requires |pix| == |down|
    ensures Error(c, pix, down, odd, -1) == Error(c, pix, down, odd, -2) == 0
  {
  }

  lemma NoErrorAfter(c: Component, pix: seq<Byte>, down: seq<int>, odd: bool)
    requires |pix| == |down|
    ensures Error(c, pix, down, odd, |pix|) == 0
  {
  }

  /** No error, and no correction, exceeds a sample in size, so every table lookup is in range. */
  lemma CorrectedStep(c: Component, pix: seq<Byte>, down: seq<int>, odd: bool, k: nat)
    requires k < |pix| == |down| && forall x :: 0 <= x < |pix| ==> -2295 <= down[x] <= 2295
    ensures var x := Travel(odd, |pix|, k);
            var correction := (7 * Error(c, pix, down, odd, k - 1) + down[x] + 8) / 16;
            -255 <= correction <= 255 && Corrected(c, pix, down, odd, k) == Limit(pix[x] + correction)
    ensures Error(c, pix, down, odd, k) == Corrected(c, pix, down, odd, k) - Represented(c, Corrected(c, pix, down, odd, k))
  {
    hide Represented;
    if k == 0 {
      NoErrorBefore(c, pix, down, odd);
    }
  }

  lemma BelowStep(c: Component, pix: seq<Byte>, down: seq<int>, odd: bool, k: int)
    requires |pix| == |down|
    ensures Below(c, pix, down, odd, k)
         == 3 * Error(c, pix, down, odd, k + 1) + 5 * Error(c, pix, down, odd, k) + Error(c, pix, down, odd, k - 1)
  {
  }

  /** Storing the sum for the pixel just left behind. */
  lemma MidwayStep(c: Component, pix: seq<Byte>, down: seq<int>, odd: bool, was: seq<Fserror>, k: int, p: int, now: seq<Fserror>)
    requires |pix| == |down| && Midway(c, pix, down, odd, was, k) && 0 <= k <= |pix|
    requires p == Travel(odd, |pix|, k - 1) + 1 && 0 <= p < |was| && |now| == |was| && now == was[p := now[p]]
    requires k > 0 ==> now[p] == Below(c, pix, down, odd, k - 1)
    ensures Midway(c, pix, down, odd, now, k + 1)
  {
    hide Below;
  }

  // ----- whole images -----

  ghost predicate Rows(rows: seq<seq<Byte>>, width: nat) {
    forall r :: 0 <= r < |rows| ==> |rows[r]| == width
  }

  /** What the rows of one component, done one after another from the top, pass down to the next. */
  function Down(c: Component, rows: seq<seq<Byte>>, width: nat): (d: seq<int>)
    requires Rows(rows, width)
    ensures |d| == width && forall x :: 0 <= x < width ==> -2295 <= d[x] <= 2295
  {
    if rows == [] then seq(width, _ => 0)
    else PassedDown(c, rows[|rows| - 1], Down(c, rows[..|rows| - 1], width), (|rows| - 1) % 2 == 1)
  }

  /** The value that a sample is corrected to before its representative is looked up. */
  function Wanted(c: Component, above: seq<seq<Byte>>, row: seq<Byte>, x: nat): Byte
    requires Rows(above, |row|) && x < |row|
  {
    Corrected(c, row, Down(c, above, |row|), |above| % 2 == 1, Travel(|above| % 2 == 1, |row|, x))
  }

  /** The code that two-row Floyd-Steinberg gives column x of a component in the row after `above`. */
  function Dithered(c: Component, above: seq<seq<Byte>>, row: seq<Byte>, x: nat): nat
    requires Rows(above, |row|) && x < |row|
  {
    c.colorindex[Wanted(c, above, row, x)]
  }

  /** The error made in column x of that row; none outside the row. */
  function Missed(c: Component, above: seq<seq<Byte>>, row: seq<Byte>, x: int): int
    requires Rows(above, |row|)
  {
    if 0 <= x < |row| then Wanted(c, above, row, x) - Represented(c, Wanted(c, above, row, x)) else 0
  }

  /** Column by column: the first row and every second one after it are dithered from left to right, the others from right to left.
      A sample is corrected by 7/16 of the error of the column before it in that direction, rounded together with what comes
      from the row above; the row below gets 3/16 of an error behind it, 5/16 straight below and 1/16 ahead. */
  lemma InColumns(c: Component, above: seq<seq<Byte>>, row: seq<Byte>, x: nat)
    requires Rows(above, |row|) && x < |row|
    ensures var before, after := if |above| % 2 == 0 then x - 1 else x + 1, if |above| % 2 == 0 then x + 1 else x - 1;
            var now, next := Down(c, above, |row|), Down(c, above + [row], |row|);
            && Wanted(c, above, row, x) == Limit(row[x] + (7 * Missed(c, above, row, before) + now[x] + 8) / 16)
            && next[x] == 3 * Missed(c, above, row, after) + 5 * Missed(c, above, row, x) + Missed(c, above, row, before)
            && (above == [] ==> now[x] == 0)
  {
    hide Represented, Error, Corrected, PassedDown, Below, Missed, Down;
    var odd, w := |above| % 2 == 1, |row|;
    var down, k := Down(c, above, w), Travel(odd, w, x);
    NextRow(c, above, row);
    PassedAt(c, row, down, odd, x);
    TravelBack(odd, w, x);
    NothingAbove(c, row, x);
    MissedIs(c, above, row, x - 1);
    MissedIs(c, above, row, x);
    MissedIs(c, above, row, x + 1);
    CorrectedStep(c, row, down, odd, k);
    BelowStep(c, row, down, odd, k);
  }

  lemma NothingAbove(c: Component, row: seq<Byte>, x: nat)
    requires x < |row|
    ensures Down(c, [], |row|)[x] == 0
  {
  }

  lemma NextRow(c: Component, above: seq<seq<Byte>>, row: seq<Byte>)
    requires Rows(above, |row|)
    ensures Down(c, above + [row], |row|) == PassedDown(c, row, Down(c, above, |row|), |above| % 2 == 1)
  {
    hide PassedDown;
    assert (above + [row])[..|above|] == above;
  }

  lemma PassedAt(c: Component, pix: seq<Byte>, down: seq<int>, odd: bool, x: nat)
    requires x < |pix| == |down|
    ensures PassedDown(c, pix, down, odd)[x] == Below(c, pix, down, odd, Travel(odd, |pix|, x))
  {
    hide Below;
  }

  lemma MissedIs(c: Component, above: seq<seq<Byte>>, row: seq<Byte>, x: int)
    requires Rows(above, |row|) && -1 <= x <= |row|
    ensures Missed(c, above, row, x) == Error(c, row, Down(c, above, |row|), |above| % 2 == 1, Travel(|above| % 2 == 1, |row|, x))
  {
    hide Represented, Down, Corrected;
  }

  /** The sum of the codes of the first n components. */
  function PixelCode(cs: seq<Component>, above: seq<seq<seq<Byte>>>, row: seq<seq<Byte>>, width: nat, x: nat, n: nat): nat
    requires n <= |cs| == |row| == |above| && x < width
    requires forall ci :: 0 <= ci < |cs| ==> Rows(above[ci], width) && |row[ci]| == width
  {
    if n == 0 then 0
    else PixelCode(cs, above, row, width, x, n - 1) + Dithered(cs[n - 1], above[n - 1], row[n - 1], x)
  }

  /** An error array, without its two extra entries, holds what is passed down. */
  ghost predicate Holds(errors: seq<Fserror>, down: seq<int>) {
    |errors| == |down| + 2 && forall x :: 0 <= x < |down| ==> errors[x + 1] == down[x]
  }

  method ZeroRow(output: array<nat>)
    modifies output
    ensures forall x :: 0 <= x < output.Length ==> output[x] == 0
  {
    var i := 0;
    while i < output.Length
      invariant 0 <= i <= output.Length
      invariant forall x :: 0 <= x < i ==> output[x] == 0
    {
      output[i] := 0;
      i := i + 1;
    }
  }

  class FsQuantizer {
    const width: nat
    const components: seq<Component>
    const rangeLimit: seq<Byte>
    const fserrors: seq<array<Fserror>>
    var onOddRow: bool
    /** The rows quantised so far, component by component. */
    ghost var done: seq<seq<seq<Byte>>>

    ghost predicate Shape()
      reads this
    {
      && IsRangeLimit(rangeLimit)
      && |fserrors| == |components| == |done|
      && (forall i, j :: 0 <= i < j < |fserrors| ==> fserrors[i] != fserrors[j])
      && (forall i :: 0 <= i < |fserrors| ==> fserrors[i].Length == width + 2 && Rows(done[i], width))
    }

    ghost predicate Valid()
      reads this, fserrors
    {
      && Shape()
      && forall ci :: 0 <= ci < |fserrors| ==>
           Holds(fserrors[ci][..], Down(components[ci], done[ci], width)) && onOddRow == (|done[ci]| % 2 == 1)
    }

    /** start_pass_1_quant for Floyd-Steinberg dithering, with zeroed error arrays. */
    constructor (width: nat, components: seq<Component>, rangeLimit: seq<Byte>, fserrors: seq<array<Fserror>>)
      requires IsRangeLimit(rangeLimit) && |fserrors| == |components|
      requires forall i, j :: 0 <= i < j < |fserrors| ==> fserrors[i] != fserrors[j]
      requires forall i :: 0 <= i < |fserrors| ==> fserrors[i].Length == width + 2
      requires forall i, x :: 0 <= i < |fserrors| && 0 <= x < width + 2 ==> fserrors[i][x] == 0
      ensures Valid() && this.width == width && this.components == components && this.fserrors == fserrors
      ensures !onOddRow && done == seq(|components|, _ => [])
    {
      this.width, this.components, this.rangeLimit, this.fserrors := width, components, rangeLimit, fserrors;
      onOddRow := false;
      done := seq(|components|, _ => []);
    }

    /** One component of one row. */
    method DitherComponent(ci: nat, pix: seq<Byte>, output: array<nat>)
      requires Shape() && ci < |components| && onOddRow == (|done[ci]| % 2 == 1) && |pix| == width == output.Length
      requires Holds(fserrors[ci][..], Down(components[ci], done[ci], width))
      modifies this`done, fserrors[ci], output
      ensures Shape() && done == old(done)[ci := old(done)[ci] + [pix]]
      ensures Holds(fserrors[ci][..], Down(components[ci], done[ci], width))
      ensures forall x :: 0 <= x < width ==>
                output[x] == old(output[x]) + Dithered(components[ci], old(done)[ci], pix, x)
    {
      hide PassedDown, Corrected, IsRangeLimit;
      ghost var above := done[ci];
      DitherRow(components[ci], rangeLimit, pix, onOddRow, fserrors[ci], output, Down(components[ci], above, width));
      done := done[ci := above + [pix]];
      assert (above + [pix])[..|above|] == above;
    }

    /** The first ci components of a row have been dithered. */
    ghost predicate Underway(above: seq<seq<seq<Byte>>>, row: seq<seq<Byte>>, ci: nat, output: seq<nat>)
      reads this, fserrors
    {
      && Shape() && |above| == |row| == |components| >= ci && |output| == width
      && (forall k :: 0 <= k < |components| ==> Rows(above[k], width) && |row[k]| == width && onOddRow == (|above[k]| % 2 == 1))
      && (forall k :: 0 <= k < |components| ==> done[k] == if k < ci then above[k] + [row[k]] else above[k])
      && (forall k :: 0 <= k < |components| ==> Holds(fserrors[k][..], Down(components[k], done[k], width)))
      && forall x :: 0 <= x < width ==> output[x] == PixelCode(components, above, row, width, x, ci)
    }

    /** The next component of a row. */
    method DitherNext(ci: nat, row: seq<seq<Byte>>, output: array<nat>, ghost above: seq<seq<seq<Byte>>>)
      requires Underway(above, row, ci, output[..]) && ci < |components|
      modifies this`done, fserrors[ci], output
      ensures Underway(above, row, ci + 1, output[..])
    {
      hide Dithered, IsRangeLimit, Represented, Holds, Down;
      assert forall x :: 0 <= x < width ==> output[..][x] == output[x];
      DitherComponent(ci, row[ci], output);
    }

    /** quantize_fs_dither on one row, given component by component. */
    method QuantizeRow(row: seq<seq<Byte>>, output: array<nat>)
      requires Valid() && FitsRow(row, |components|, width) && output.Length == width
      modifies this, fserrors, output
      ensures Valid() && done == Extended(old(done), row)
      ensures RowRight(components, old(done), row, width, output[..])
    {
      hide Holds, Down, IsRangeLimit, RowRight, Extended, FsQuantizer.Underway;
      ghost var above := done;
      ZeroRow(output);
      RowBegun(row, output[..]);
      var ci := 0;
      while ci < |components|
        invariant 0 <= ci <= |components| && Underway(above, row, ci, output[..])
      {
        UnderwayShape(above, row, ci, output[..]);
        DitherNext(ci, row, output, above);
        ci := ci + 1;
      }
      RowFinished(above, row, output[..]);
      onOddRow := !onOddRow;
    }

    lemma UnderwayShape(above: seq<seq<seq<Byte>>>, row: seq<seq<Byte>>, ci: nat, output: seq<nat>)
      requires Underway(above, row, ci, output)
      ensures |fserrors| == |components| == |row|
    {
    }

    lemma RowBegun(row: seq<seq<Byte>>, output: seq<nat>)
      requires Valid() && FitsRow(row, |components|, width) && |output| == width && forall x :: 0 <= x < width ==> output[x] == 0
      ensures Underway(done, row, 0, output)
    {
      hide Dithered, IsRangeLimit, Represented, Holds, Down;
    }

    lemma RowFinished(above: seq<seq<seq<Byte>>>, row: seq<seq<Byte>>, output: seq<nat>)
      requires Underway(above, row, |components|, output)
      ensures Shape() && done == Extended(above, row) && RowRight(components, above, row, width, output)
      ensures forall k :: 0 <= k < |components| ==>
                Holds(fserrors[k][..], Down(components[k], done[k], width)) && onOddRow == (|done[k]| % 2 == 0)
    {
      hide Dithered, IsRangeLimit, Represented, Holds, Down;
      assert done == Extended(above, row);
    }

    /** quantize_fs_dither: however the rows are divided among calls, each is dithered as the two-row form would. */
    method QuantizeFsDither(rows: seq<seq<seq<Byte>>>, output: seq<array<nat>>)
      requires Valid() && |rows| == |output|
      requires forall r :: 0 <= r < |rows| ==> FitsRow(rows[r], |components|, width) && output[r].Length == width
      requires forall r, k :: 0 <= r < k < |output| ==> output[r] != output[k]
      modifies this, fserrors, output
      ensures Valid() && done == After(old(done), rows, width)
      ensures forall r :: 0 <= r < |rows| ==>
                RowRight(components, After(old(done), rows[..r], width), rows[r], width, output[r][..])
    {
      hide RowRight, Extended, Holds, Down, IsRangeLimit;
      var row := 0;
      assert rows[..0] == [];
      while row < |rows|
        invariant 0 <= row <= |rows| && Valid() && done == After(old(done), rows[..row], width)
        invariant forall r :: 0 <= r < row ==>
                    RowRight(components, After(old(done), rows[..r], width), rows[r], width, output[r][..])
      {
        QuantizeRow(rows[row], output[row]);
        assert rows[..row + 1][..row] == rows[..row];
        row := row + 1;
      }
      assert rows[..row] == rows;
    }
  }

  /** What has been quantised after some more rows. */
  ghost function After(above: seq<seq<seq<Byte>>>, rows: seq<seq<seq<Byte>>>, width: nat): (r: seq<seq<seq<Byte>>>)
    requires forall k :: 0 <= k < |rows| ==> FitsRow(rows[k], |above|, width)
    ensures |r| == |above|
  {
    if rows == [] then above
    else
      var before := After(above, rows[..|rows| - 1], width);
      assert FitsRow(rows[|rows| - 1], |above|, width);
      Extended(before, rows[|rows| - 1])
  }

  ghost predicate FitsRow(row: seq<seq<Byte>>, nc: nat, width: nat) {
    |row| == nc && forall ci :: 0 <= ci < nc ==> |row[ci]| == width
  }

  /** One more row of every component. */
  function Extended(above: seq<seq<seq<Byte>>>, row: seq<seq<Byte>>): seq<seq<seq<Byte>>>
    requires |above| == |row|
  {
    seq(|above|, ci requires 0 <= ci < |above| => above[ci] + [row[ci]])
  }

  ghost predicate RowRight(cs: seq<Component>, above: seq<seq<seq<Byte>>>, row: seq<seq<Byte>>, width: nat, output: seq<nat>) {
    && |output| == width && |cs| == |row| == |above|
    && (forall ci :: 0 <= ci < |cs| ==> Rows(above[ci], width) && |row[ci]| == width)
    && forall x :: 0 <= x < width ==> output[x] == PixelCode(cs, above, row, width, x, |cs|)
  }
}
