/** Dithering with the tables of the product colormap: what is emitted for a pixel is a colour, and each of its
    components is the one dithered for it (jquant1.c). */
module OnePassQuantizer {
  import opened HuffmanTable
  import opened OrthogonalColormap
  import opened FsDither
  import ScanGeometry

  /** The index tables hold premultiplied indexes of at most 256 colours. */
  ghost predicate Premultiplied(cs: seq<Component>, ns: Counts) {
    && |cs| == |ns| && Product(ns) <= 256
    && forall n, v :: 0 <= n < |cs| && 0 <= v < 256 ==> IsPremultiplied(cs[n].colorindex[v], BlockSize(ns, n), ns[n])
  }

  predicate IsPremultiplied(code: nat, blk: nat, n: nat)
    requires blk > 0
  {
    code == code / blk * blk && code / blk < n
  }

  /** The sum of the first n premultiplied indexes. */
  function Partial(ns: Counts, v: seq<nat>, n: nat): nat
    requires n <= |v| == |ns|
  {
    if n == 0 then 0 else Partial(ns, v, n - 1) + v[n - 1] * BlockSize(ns, n - 1)
  }

  lemma {:induction false} PartialShifts(ns: Counts, v: seq<nat>, n: nat)
    requires n < |v| == |ns|
    ensures Partial(ns, v, n + 1) == v[0] * Product(ns[1..]) + Partial(ns[1..], v[1..], n)
    decreases n
  {
    if n == 0 {
      assert Partial(ns, v, 0) == 0 && Partial(ns[1..], v[1..], 0) == 0;
    } else {
      PartialShifts(ns, v, n - 1);
      assert ns[1..][n..] == ns[n + 1..];
    }
  }

  lemma {:induction false} PartialIsPlace(ns: Counts, v: seq<nat>)
    requires |v| == |ns|
    ensures Partial(ns, v, |ns|) == Place(ns, v)
  {
    if ns != [] {
      PartialShifts(ns, v, |ns| - 1);
      PartialIsPlace(ns[1..], v[1..]);
    }
  }

  /** The value that a premultiplied index stands for. */
  function ValueIn(code: nat, blk: nat): nat
    requires blk > 0
  {
    code / blk
  }

  /** The value selected for component n of a pixel. */
  function Selected(c: Component, above: seq<seq<Byte>>, row: seq<Byte>, x: nat, blk: nat): nat
    requires Rows(above, |row|) && x < |row| && blk > 0
  {
    ValueIn(Dithered(c, above, row, x), blk)
  }

  ghost predicate RowsFit(cs: seq<Component>, above: seq<seq<seq<Byte>>>, row: seq<seq<Byte>>, width: nat) {
    |cs| == |row| == |above| && forall n :: 0 <= n < |cs| ==> Rows(above[n], width) && |row[n]| == width
  }

  ghost function AllSelected(cs: seq<Component>, ns: Counts, above: seq<seq<seq<Byte>>>, row: seq<seq<Byte>>, width: nat, x: nat): (v: seq<nat>)
    requires RowsFit(cs, above, row, width) && x < width && |cs| == |ns|
    ensures |v| == |ns|
  {
    seq(|ns|, n requires 0 <= n < |ns| => Selected(cs[n], above[n], row[n], x, BlockSize(ns, n)))
  }

  lemma {:induction false} CodeIsPartial(cs: seq<Component>, ns: Counts, above: seq<seq<seq<Byte>>>, row: seq<seq<Byte>>, width: nat, x: nat, n: nat)
    requires Premultiplied(cs, ns) && RowsFit(cs, above, row, width) && x < width && n <= |cs|
    ensures PixelCode(cs, above, row, width, x, n) == Partial(ns, AllSelected(cs, ns, above, row, width, x), n)
    decreases n
  {
    hide Corrected, BlockSize;
    if n > 0 {
      CodeIsPartial(cs, ns, above, row, width, x, n - 1);
      assert IsPremultiplied(Dithered(cs[n - 1], above[n - 1], row[n - 1], x), BlockSize(ns, n - 1), ns[n - 1]);
    }
  }

  /** The byte emitted for a pixel is the number of a colour, and component n of that colour is the value that the
      dithering of component n selected, whatever the other components are. */
  lemma EmittedColor(cs: seq<Component>, ns: Counts, above: seq<seq<seq<Byte>>>, row: seq<seq<Byte>>, width: nat, x: nat, n: nat)
    requires Premultiplied(cs, ns) && RowsFit(cs, above, row, width) && x < width && n < |cs|
    ensures var code := PixelCode(cs, above, row, width, x, |cs|);
            && code < Product(ns) <= 256
            && Digit(code, BlockSize(ns, n), ns[n]) == Selected(cs[n], above[n], row[n], x, BlockSize(ns, n))
  {
    hide Corrected, BlockSize, Digit;
    var v := AllSelected(cs, ns, above, row, width, x);
    CodeIsPartial(cs, ns, above, row, width, x, |cs|);
    PartialIsPlace(ns, v);
    forall i | 0 <= i < |ns|
      ensures v[i] < ns[i]
    {
      assert IsPremultiplied(Dithered(cs[i], above[i], row[i], x), BlockSize(ns, i), ns[i]);
    }
    Orthogonal(ns, v, n);
  }

  // ----- the tables that the quantiser builds -----

  /** The column of the colormap and the index table of a component of n values in blocks of blk. */
  ghost predicate TablesOf(c: Component, blk: nat, n: nat, total: nat)
    requires blk > 0 && n > 1
  {
    && |c.colormap| == total
    && (forall p :: 0 <= p < total ==> c.colormap[p] == OutputValue(Digit(p, blk, n), n - 1))
    && forall v :: 0 <= v < 256 ==> IsPremultiplied(c.colorindex[v], blk, n) && MapsTo(v, c.colorindex[v] / blk, n - 1)
  }

  ghost predicate Built(cs: seq<Component>, ns: Counts) {
    && |cs| == |ns| && Product(ns) <= 256
    && forall n :: 0 <= n < |cs| ==> TablesOf(cs[n], BlockSize(ns, n), ns[n], Product(ns))
  }

  lemma BuiltIsPremultiplied(cs: seq<Component>, ns: Counts)
    requires Built(cs, ns)
    ensures Premultiplied(cs, ns)
  {
    hide OutputValue, Digit, MapsTo, IsPremultiplied, BlockSize, Product;
    forall n, v | 0 <= n < |cs| && 0 <= v < 256
      ensures IsPremultiplied(cs[n].colorindex[v], BlockSize(ns, n), ns[n])
    {
      assert TablesOf(cs[n], BlockSize(ns, n), ns[n], Product(ns));
    }
  }

  lemma TableMade(index: seq<nat>, value: seq<nat>, column: seq<nat>, blk: nat, n: nat, total: nat, blocks: nat)
    requires blk > 0 && 2 <= n <= 256 && |index| == |value| == 256 && |column| == total == blocks * (n * blk)
    requires forall j :: 0 <= j < 256 ==> MapsTo(j, value[j], n - 1) && index[j] == value[j] * blk
    requires forall p :: 0 <= p < total ==> column[p] == OutputValue(Digit(p, blk, n), n - 1)
    requires blocks > 0
    ensures forall p :: 0 <= p < total ==> 0 <= column[p] < 256
    ensures forall v :: 0 <= v < 256 ==> index[v] < total && IsPremultiplied(index[v], blk, n) && MapsTo(v, index[v] / blk, n - 1)
  {
    hide OutputValue, Digit, LargestInputValue;
    forall p | 0 <= p < total
      ensures 0 <= column[p] < 256
    {
      OutputsSmall(Digit(p, blk, n), n - 1);
    }
    forall v | 0 <= v < 256
      ensures index[v] < total && IsPremultiplied(index[v], blk, n) && MapsTo(v, index[v] / blk, n - 1)
    {
      Remainder(value[v], blk, 0);
      DigitBelow(value[v], n, blk, 0);
      ScanGeometry.MulMonotone(1, blocks, n * blk);
    }
  }

  lemma {:induction false} OutputsSmall(j: nat, maxj: nat)
    requires j <= maxj && 0 < maxj <= 255
    ensures OutputValue(j, maxj) <= 255
    decreases maxj - j
  {
    OutputEnds(maxj);
    if j < maxj {
      OutputRises(j, maxj);
    }
  }

  lemma TablesAre(c: Component, blk: nat, n: nat, total: nat)
    requires blk > 0 && n > 1 && |c.colormap| == total
    requires forall p :: 0 <= p < total ==> c.colormap[p] == OutputValue(Digit(p, blk, n), n - 1)
    requires forall v :: 0 <= v < 256 ==> IsPremultiplied(c.colorindex[v], blk, n) && MapsTo(v, c.colorindex[v] / blk, n - 1)
    ensures TablesOf(c, blk, n, total)
  {
    hide OutputValue, Digit, MapsTo, IsPremultiplied;
  }

  /** jinit_1pass_quantizer: the colormap, then an index table for each of its columns. */
  method CreateTables(ns: Counts, total: nat) returns (cs: seq<Component>)
    requires total == Product(ns) <= 256
    ensures Built(cs, ns)
  {
    hide OutputValue, Digit, MapsTo, IsPremultiplied, TablesOf;
    var colormap := CreateColormap(ns, total);
    cs := [];
    var blksize, i := total, 0;
    ghost var blocks := 1;
    assert ns[0..] == ns;
    while i < |ns|
      invariant 0 <= i <= |ns| && |cs| == i && |colormap| == |ns|
      invariant blksize == Product(ns[i..]) && total == blocks * blksize && blocks > 0
      invariant forall k :: 0 <= k < |ns| ==> colormap[k].Length == total
      invariant forall k, p :: 0 <= k < |ns| && 0 <= p < total ==>
                  colormap[k][p] == OutputValue(Digit(p, BlockSize(ns, k), ns[k]), ns[k] - 1)
      invariant forall k :: 0 <= k < i ==> TablesOf(cs[k], BlockSize(ns, k), ns[k], total)
    {
      var nci := ns[i];
      assert ns[i..][0] == nci && ns[i..][1..] == ns[i + 1..];
      BlockOf(nci, Product(ns[i + 1..]), blocks);
      CountSmall(blocks, nci, Product(ns[i + 1..]));
      blksize := blksize / nci;
      var index, value := CreateColorindex(nci, blksize);
      TableMade(index[..], value, colormap[i][..], blksize, nci, total, blocks);
      var c: Component := ComponentRaw.Component(index[..], colormap[i][..]);
      TablesAre(c, blksize, nci, total);
      cs := cs + [c];
      blocks := blocks * nci;
      i := i + 1;
    }
  }

  lemma CountSmall(blocks: nat, n: nat, b: nat)
    requires blocks > 0 && b > 0 && blocks * (n * b) <= 256
    ensures n <= 256 && (n > 0 ==> blocks * n > 0)
  {
    ScanGeometry.MulMonotone(1, b, n);
    ScanGeometry.MulMonotone(1, blocks, n * b);
    assert n * b >= n && blocks * (n * b) >= n * b;
  }

  /** out is the value of the first representative whose breakpoint v does not exceed. */
  ghost predicate Represents(c: Component, v: Byte, blk: nat, n: nat, out: nat)
    requires blk > 0 && n > 1
  {
    out == Represented(c, v) && MapsTo(v, c.colorindex[v] / blk, n - 1) && out == OutputValue(c.colorindex[v] / blk, n - 1)
  }

  /** With the tables the quantiser builds: the byte emitted for a pixel is a subscript of the colormap, and component n of
      that colour is what the dithering of component n took as represented, the value of the first representative whose
      breakpoint the corrected sample does not exceed. */
  lemma EmittedIsChosen(cs: seq<Component>, ns: Counts, above: seq<seq<seq<Byte>>>, row: seq<seq<Byte>>, width: nat, x: nat, n: nat)
    requires Built(cs, ns) && RowsFit(cs, above, row, width) && x < width && n < |cs|
    ensures var code := PixelCode(cs, above, row, width, x, |cs|);
            && code < |cs[n].colormap| == Product(ns) <= 256
            && Represents(cs[n], Wanted(cs[n], above[n], row[n], x), BlockSize(ns, n), ns[n], cs[n].colormap[code])
  {
    hide OutputValue, Digit, MapsTo, BlockSize, Product, Corrected, Down, IsPremultiplied;
    BuiltIsPremultiplied(cs, ns);
    EmittedColor(cs, ns, above, row, width, x, n);
    var blk, own := BlockSize(ns, n), Dithered(cs[n], above[n], row[n], x);
    assert TablesOf(cs[n], blk, ns[n], Product(ns));
    OwnDigit(own, blk, ns[n]);
  }

  lemma OwnDigit(code: nat, blk: nat, n: nat)
    requires blk > 0 && n > 1 && IsPremultiplied(code, blk, n)
    ensures Digit(code, blk, n) == code / blk
  {
    SmallDigit(code / blk, n);
  }
}
