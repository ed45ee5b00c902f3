/** The product colormap of the one-pass quantiser and its index tables (jquant1.c). */
module OrthogonalColormap {
  import opened HuffmanTable
  import opened ScanGeometry

  /** Representative values per component, at least two each. */
  type Counts = ns: seq<nat> | forall i :: 0 <= i < |ns| ==> ns[i] >= 2 witness []

  /** How many colours there are: one for each combination. */
  function Product(ns: Counts): (p: nat)
    ensures p >= 1
  {
    if ns == [] then 1 else ProductGrows(ns[0], Product(ns[1..])); ns[0] * Product(ns[1..])
  }

  lemma ProductGrows(n: nat, p: nat)
    requires n >= 2 && p >= 1
    ensures n * p >= 1
  {
  }

  /** output_value: j of maxj, spread evenly from 0 to 255. */
  function OutputValue(j: nat, maxj: nat): nat
    requires maxj > 0
  {
    (j * 255 + maxj / 2) / maxj
  }

  /** largest_input_value: the breakpoint above value j. */
  function LargestInputValue(j: nat, maxj: nat): nat
    requires maxj > 0
  {
    ((2 * j + 1) * 255 + maxj) / (2 * maxj)
  }

  lemma Quotient(a: nat, b: nat, q: nat)
    requires b > 0
    ensures q * b <= a < q * b + b <==> q == a / b
  {
    var d := a / b;
    assert a == d * b + a % b;
    if q < d {
      MulMonotone(q + 1, d, b);
    } else if q > d {
      MulMonotone(d + 1, q, b);
    }
  }

  lemma QuotientsOrdered(a: nat, c: nat, b: nat)
    requires b > 0 && a <= c
    ensures a / b <= c / b && (a + b <= c ==> a / b < c / b)
  {
    Quotient(a, b, a / b);
    Quotient(c, b, c / b);
    if c / b < a / b {
      MulMonotone(c / b + 1, a / b, b);
    }
    if c / b == a / b {
      MulMonotone(c / b, a / b, b);
    }
  }

  /** The values run from 0 to 255, and the last breakpoint is not below 255. */
  lemma OutputEnds(maxj: nat)
    requires maxj > 0
    ensures OutputValue(0, maxj) == 0 && OutputValue(maxj, maxj) == 255
    ensures LargestInputValue(maxj, maxj) >= 255
  {
    Quotient(maxj / 2, maxj, 0);
    Quotient(maxj * 255 + maxj / 2, maxj, 255);
    Quotient(2 * maxj * 255, 2 * maxj, 255);
    QuotientsOrdered(2 * maxj * 255, (2 * maxj + 1) * 255 + maxj, 2 * maxj);
  }

  /** They rise, strictly when there are no more than 256 of them. */
  lemma OutputRises(j: nat, maxj: nat)
    requires 0 < maxj <= 255 && j < maxj
    ensures OutputValue(j, maxj) < OutputValue(j + 1, maxj) <= 255
  {
    OutputEnds(maxj);
    QuotientsOrdered(j * 255 + maxj / 2, (j + 1) * 255 + maxj / 2, maxj);
    QuotientsOrdered((j + 1) * 255 + maxj / 2, maxj * 255 + maxj / 2, maxj);
  }

  /** The representative values are the exact fractions of 255 rounded to the nearest integer, and the breakpoints the exact middles
      between them. */
  lemma RoundedValues(j: nat, maxj: nat)
    requires maxj > 0
    ensures -(maxj as int) < 2 * (OutputValue(j, maxj) * maxj - 255 * j) <= maxj
    ensures -(maxj as int) < LargestInputValue(j, maxj) * (2 * maxj) - 255 * (2 * j + 1) <= maxj
  {
    var q, p := OutputValue(j, maxj), LargestInputValue(j, maxj);
    Quotient(j * 255 + maxj / 2, maxj, q);
    Quotient((2 * j + 1) * 255 + maxj, 2 * maxj, p);
  }

  // ----- create_colormap -----

  /** Which of its n values a component repeated in blocks of blk has in colour p. */
  function Digit(p: nat, blk: nat, n: nat): (d: nat)
    requires blk > 0 && n > 0
    ensures d < n
  {
    p / blk % n
  }

  lemma DigitAt(m: nat, blk: nat, k: nat, n: nat)
    requires k < blk && n > 0
    ensures (m * blk + k) / blk == m && Digit(m * blk + k, blk, n) == m % n
  {
    Quotient(m * blk + k, blk, m);
  }

  lemma SameDigit(x: nat, m: nat, n: nat)
    requires n > 0 && x % n == m % n && m <= x < m + n
    ensures x == m
  {
    var a, b := x / n, m / n;
    assert x == a * n + x % n && m == b * n + m % n;
    if a > b {
      MulMonotone(b + 1, a, n);
    } else if a < b {
      MulMonotone(a + 1, b, n);
    }
  }

  lemma NextDigit(m: nat, n: nat)
    requires n > 0
    ensures (m + n) % n == m % n
  {
    var a := m / n;
    assert m + n == (a + 1) * n + m % n;
    Remainder(a + 1, n, m % n);
  }

  lemma Remainder(a: nat, n: nat, r: nat)
    requires r < n
    ensures (a * n + r) % n == r && (a * n + r) / n == a
  {
    DigitAt(a, n, r, 1);
    assert a * n + r == (a * n + r) / n * n + (a * n + r) % n;
  }

  /** Colours up to block m of those with digit j are filled in. */
  ghost predicate Filled(column: seq<nat>, blk: nat, n: nat, j: nat, m: nat)
    requires blk > 0 && n > 1
  {
    forall p :: 0 <= p < |column| && (Digit(p, blk, n) < j || (Digit(p, blk, n) == j && p / blk < m)) ==>
      column[p] == OutputValue(Digit(p, blk, n), n - 1)
  }

  lemma FilledBlock(was: seq<nat>, now: seq<nat>, blk: nat, n: nat, j: nat, m: nat)
    requires blk > 0 && n > 1 && j < n && m % n == j && m * blk + blk <= |was| == |now| && Filled(was, blk, n, j, m)
    requires forall p :: 0 <= p < |was| ==>
               now[p] == if m * blk <= p < m * blk + blk then OutputValue(j, n - 1) else was[p]
    ensures Filled(now, blk, n, j, m + n)
  {
    forall p | 0 <= p < |now| && (Digit(p, blk, n) < j || (Digit(p, blk, n) == j && p / blk < m + n))
      ensures now[p] == OutputValue(Digit(p, blk, n), n - 1)
    {
      if m * blk <= p < m * blk + blk {
        DigitAt(m, blk, p - m * blk, n);
      } else if Digit(p, blk, n) == j && p / blk >= m {
        SameDigit(p / blk, m, n);
        Quotient(p, blk, p / blk);
      }
    }
  }

  lemma FilledDigit(column: seq<nat>, blk: nat, n: nat, j: nat, m: nat)
    requires blk > 0 && n > 1 && Filled(column, blk, n, j, m) && m * blk >= |column|
    ensures Filled(column, blk, n, j + 1, j + 1)
  {
    forall p | 0 <= p < |column| && (Digit(p, blk, n) < j + 1 || (Digit(p, blk, n) == j + 1 && p / blk < j + 1))
      ensures column[p] == OutputValue(Digit(p, blk, n), n - 1)
    {
      Quotient(p, blk, p / blk);
      if p / blk >= m {
        MulMonotone(m, p / blk, blk);
      }
      if Digit(p, blk, n) == j + 1 && p / blk < j + 1 {
        DigitSmall(p / blk, n);
      }
    }
  }

  lemma DigitSmall(x: nat, n: nat)
    requires n > 0
    ensures x % n <= x
  {
    assert x == x / n * n + x % n;
  }

  /** One component's row of the colormap. */
  method FillComponent(total: nat, blkdist: nat, nci: nat, blksize: nat, ghost blocks: nat) returns (column: array<nat>)
    requires nci >= 2 && blksize > 0 && blkdist == blksize * nci && total == blocks * blksize
    ensures fresh(column) && column.Length == total
    ensures forall p :: 0 <= p < total ==> column[p] == OutputValue(Digit(p, blksize, nci), nci - 1)
  {
    hide Digit, OutputValue, Filled;
    column := new nat[total];
    var j := 0;
    NothingFilled(column[..], blksize, nci);
    while j < nci
      invariant 0 <= j <= nci && Filled(column[..], blksize, nci, j, j)
    {
      var val := OutputValue(j, nci - 1);
      var ptr := j * blksize;
      ghost var m := j;
      SmallDigit(j, nci);
      while ptr < total
        invariant ptr == m * blksize && m % nci == j && Filled(column[..], blksize, nci, j, m)
        decreases total - ptr
      {
        BlockFits(m, blocks, blksize);
        ghost var was := column[..];
        FillBlock(column, ptr, blksize, val);
        FilledBlock(was, column[..], blksize, nci, j, m);
        NextDigit(m, nci);
        NextBlock(m, nci, blksize);
        ptr := ptr + blkdist;
        m := m + nci;
      }
      FilledDigit(column[..], blksize, nci, j, m);
      j := j + 1;
    }
    AllFilled(column[..], blksize, nci);
  }

  lemma SmallDigit(j: nat, n: nat)
    requires j < n
    ensures j % n == j
  {
  }

  lemma NextBlock(m: nat, n: nat, blk: nat)
    requires n > 0 && blk > 0
    ensures m * blk + blk * n == (m + n) * blk && blk * n > 0
  {
    MulMonotone(1, n, blk);
  }

  lemma BlockFits(m: nat, blocks: nat, blk: nat)
    requires m * blk < blocks * blk
    ensures m * blk + blk <= blocks * blk
  {
    if m >= blocks {
      MulMonotone(blocks, m, blk);
    }
    MulMonotone(m + 1, blocks, blk);
  }

  lemma NothingFilled(column: seq<nat>, blk: nat, n: nat)
    requires blk > 0 && n > 1
    ensures Filled(column, blk, n, 0, 0)
  {
  }

  lemma AllFilled(column: seq<nat>, blk: nat, n: nat)
    requires blk > 0 && n > 1 && Filled(column, blk, n, n, n)
    ensures forall p :: 0 <= p < |column| ==> column[p] == OutputValue(Digit(p, blk, n), n - 1)
  {
    hide Digit, OutputValue;
  }

  /** blksize equal entries from ptr on */
  method FillBlock(column: array<nat>, ptr: nat, blksize: nat, val: nat)
    requires ptr + blksize <= column.Length
    modifies column
    ensures forall p :: 0 <= p < column.Length ==> column[p] == if ptr <= p < ptr + blksize then val else old(column[p])
  {
    var k := 0;
    while k < blksize
      invariant 0 <= k <= blksize
      invariant forall p :: 0 <= p < column.Length ==> column[p] == if ptr <= p < ptr + k then val else old(column[p])
    {
      column[ptr + k] := val;
      k := k + 1;
    }
  }

  /** Entries of one value in a row, for component i. */
  function BlockSize(ns: Counts, i: nat): (b: nat)
    requires i < |ns|
    ensures b > 0
  {
    Product(ns[i + 1..])
  }

  /** create_colormap, once the counts are chosen: in component i, colour p has the value its digit selects. */
  method CreateColormap(ns: Counts, total: nat) returns (colormap: seq<array<nat>>)
    requires total == Product(ns)
    ensures |colormap| == |ns|
    ensures forall i :: 0 <= i < |ns| ==> colormap[i].Length == total
    ensures forall i, p :: 0 <= i < |ns| && 0 <= p < total ==>
              colormap[i][p] == OutputValue(Digit(p, BlockSize(ns, i), ns[i]), ns[i] - 1)
  {
    hide Digit, OutputValue;
    colormap := [];
    var blkdist, i := total, 0;
    ghost var blocks := 1;
    assert ns[0..] == ns;
    while i < |ns|
      invariant 0 <= i <= |ns| == |colormap| + (|ns| - i)
      invariant blkdist == Product(ns[i..]) && total == blocks * blkdist
      invariant forall k :: 0 <= k < i ==> colormap[k].Length == total
      invariant forall k, p :: 0 <= k < i && 0 <= p < total ==>
                  colormap[k][p] == OutputValue(Digit(p, BlockSize(ns, k), ns[k]), ns[k] - 1)
    {
      var nci := ns[i];
      assert ns[i..][0] == nci && ns[i..][1..] == ns[i + 1..];
      BlockOf(nci, Product(ns[i + 1..]), blocks);
      var blksize := blkdist / nci;
      var column := FillComponent(total, blkdist, nci, blksize, blocks * nci);
      colormap := colormap + [column];
      blkdist := blksize;
      blocks := blocks * nci;
      i := i + 1;
    }
  }

  lemma BlockOf(n: nat, b: nat, blocks: nat)
    requires n > 0
    ensures n * b / n == b && n * b == b * n && blocks * (n * b) == blocks * n * b
  {
    Remainder(b, n, 0);
    Regrouped(blocks, n, b);
  }

  lemma Regrouped(a: nat, b: nat, c: nat)
    ensures a * (b * c) == a * b * c
  {
  }

  // ----- orthogonality -----

  /** The colour whose component i has its v[i]-th value: the sum of the premultiplied indexes. */
  function Place(ns: Counts, v: seq<nat>): nat
    requires |v| == |ns|
  {
    if ns == [] then 0 else v[0] * Product(ns[1..]) + Place(ns[1..], v[1..])
  }

  ghost predicate Picks(ns: Counts, v: seq<nat>) {
    |v| == |ns| && forall i :: 0 <= i < |ns| ==> v[i] < ns[i]
  }

  lemma {:induction false} PlaceInside(ns: Counts, v: seq<nat>)
    requires Picks(ns, v)
    ensures Place(ns, v) < Product(ns)
  {
    if ns != [] {
      PlaceInside(ns[1..], v[1..]);
      DigitBelow(v[0], ns[0], Product(ns[1..]), Place(ns[1..], v[1..]));
    }
  }

  lemma DigitBelow(v: nat, n: nat, b: nat, rest: nat)
    requires v < n && rest < b
    ensures v * b + rest < n * b
  {
    MulMonotone(v + 1, n, b);
  }

  /** The product from one component on is a multiple of every later block and its count. */
  lemma {:induction false} ProductSplits(ns: Counts, i: nat) returns (c: nat)
    requires i < |ns|
    ensures Product(ns) == c * ns[i] * Product(ns[i + 1..])
  {
    if i == 0 {
      c := 1;
    } else {
      var d := ProductSplits(ns[1..], i - 1);
      assert ns[1..][i - 1 + 1..] == ns[i + 1..];
      c := ns[0] * d;
      Regroup(ns[0], d, ns[i], Product(ns[i + 1..]));
    }
  }

  lemma Regroup(a: nat, d: nat, n: nat, b: nat)
    ensures a * (d * n * b) == a * d * n * b
  {
    assert a * (d * n * b) == a * (d * n) * b;
    assert a * (d * n) == a * d * n;
  }

  /** Whatever values the other components have, component i of the colour has the one selected for it. */
  lemma {:induction false} Orthogonal(ns: Counts, v: seq<nat>, i: nat)
    requires Picks(ns, v) && i < |ns|
    ensures Place(ns, v) < Product(ns) && Digit(Place(ns, v), BlockSize(ns, i), ns[i]) == v[i]
  {
    PlaceInside(ns, v);
    PlaceInside(ns[1..], v[1..]);
    var rest := Place(ns[1..], v[1..]);
    if i == 0 {
      DigitAt(v[0], Product(ns[1..]), rest, ns[0]);
      SmallDigit(v[0], ns[0]);
    } else {
      Orthogonal(ns[1..], v[1..], i - 1);
      assert ns[1..][i - 1 + 1..] == ns[i + 1..];
      var c := ProductSplits(ns[1..], i - 1);
      Remainder(v[0] * c, ns[i], 0);
      DigitUnder(v[0] * c * ns[i], ns[i], BlockSize(ns, i), rest);
      Regroup(v[0], c, ns[i], BlockSize(ns, i));
    }
  }

  /** Multiples of a block and its count do not show in the digit. */
  lemma DigitUnder(m: nat, n: nat, blk: nat, rest: nat)
    requires n > 0 && blk > 0 && m % n == 0
    ensures Digit(m * blk + rest, blk, n) == Digit(rest, blk, n)
  {
    hide Digit;
    var q, k := rest / blk, rest % blk;
    DivisionSplits(rest, blk);
    Combine(m, q, blk);
    DigitAt(m + q, blk, k, n);
    DigitAt(q, blk, k, n);
    AddMultiple(m, q, n);
  }

  lemma DivisionSplits(x: nat, b: nat)
    requires b > 0
    ensures x == x / b * b + x % b && x % b < b
  {
  }

  lemma AddMultiple(m: nat, q: nat, n: nat)
    requires n > 0 && m % n == 0
    ensures (m + q) % n == q % n
  {
    DivisionSplits(m, n);
    DivisionSplits(q, n);
    Combine(m / n, q / n, n);
    Remainder(m / n + q / n, n, q % n);
  }

  lemma Combine(a: nat, b: nat, c: nat)
    ensures a * c + b * c == (a + b) * c
  {
  }

  // ----- create_colorindex -----

  /** v is the value that input j maps to: the first whose breakpoint j does not exceed. */
  ghost predicate MapsTo(j: nat, v: nat, maxj: nat)
    requires maxj > 0
  {
    v <= maxj && j <= LargestInputValue(v, maxj) && forall u :: 0 <= u < v ==> LargestInputValue(u, maxj) < j
  }

  /** The value that an input maps to is a nearest one, but for the rounding of the breakpoints. */
  lemma MapsNear(x: nat, v: nat, maxj: nat)
    requires maxj > 0 && x <= 255 && MapsTo(x, v, maxj)
    ensures 2 * (x * maxj - 255 * v) <= 255 + maxj
    ensures 2 * (255 * v - x * maxj) <= 255 + maxj
  {
    hide LargestInputValue;
    RoundedValues(v, maxj);
    MulMonotone(x, LargestInputValue(v, maxj), 2 * maxj);
    Twice(x, maxj);
    if v > 0 {
      RoundedValues(v - 1, maxj);
      MulMonotone(LargestInputValue(v - 1, maxj), x, 2 * maxj);
    }
  }

  lemma Twice(a: int, b: int)
    ensures a * (2 * b) == 2 * (a * b)
  {
  }

  /** create_colorindex for one component: the premultiplied index of each input value. */
  method CreateColorindex(nci: nat, blksize: nat) returns (index: array<nat>, ghost value: seq<nat>)
    requires 2 <= nci <= 256
    ensures fresh(index) && index.Length == |value| == 256
    ensures forall j :: 0 <= j < 256 ==> MapsTo(j, value[j], nci - 1) && index[j] == value[j] * blksize
    ensures value[0] == 0 && value[255] <= nci - 1
  {
    hide LargestInputValue;
    index := new nat[256];
    value := [];
    var maxj: nat, val: nat := nci - 1, 0;
    var k := LargestInputValue(0, maxj);
    OutputEnds(maxj);
    var j := 0;
    while j <= 255
      invariant 0 <= j <= 256 == index.Length && |value| == j && val <= maxj && k == LargestInputValue(val, maxj)
      invariant forall u :: 0 <= u < val ==> LargestInputValue(u, maxj) < j
      invariant forall i :: 0 <= i < j ==> MapsTo(i, value[i], maxj) && index[i] == value[i] * blksize
      invariant j > 0 ==> value[0] == 0
    {
      while j > k
        invariant val <= maxj && k == LargestInputValue(val, maxj)
        invariant forall u :: 0 <= u < val ==> LargestInputValue(u, maxj) < j
        invariant j == 0 ==> val == 0
        decreases maxj - val
      {
        val := val + 1;
        k := LargestInputValue(val, maxj);
      }
      index[j] := val * blksize;
      value := value + [val];
      j := j + 1;
    }
  }

}
