/** Colormap selection of the two-pass quantiser: the histogram, median-cut boxes and their
    representative colours (jquant2.c). */
module MedianCut {
  import opened HuffmanTable
  import opened InverseCmap

  datatype Cell = Cell(c0: nat, c1: nat, c2: nat)

  /** A box of histogram cells, bounds inclusive, with its statistics. */
  datatype Box = Box(lo: Cell, hi: Cell, volume: nat, colorcount: nat)

  function Coord(c: Cell, n: nat): nat {
    if n == 0 then c.c0 else if n == 1 then c.c1 else c.c2
  }

  function SetCoord(c: Cell, n: nat, v: nat): Cell {
    if n == 0 then c.(c0 := v) else if n == 1 then c.(c1 := v) else c.(c2 := v)
  }

  predicate Inside(h: array3<nat>, lo: Cell, hi: Cell) {
    lo.c0 <= hi.c0 < h.Length0 && lo.c1 <= hi.c1 < h.Length1 && lo.c2 <= hi.c2 < h.Length2
  }

  predicate In(x: Cell, lo: Cell, hi: Cell) {
    lo.c0 <= x.c0 <= hi.c0 && lo.c1 <= x.c1 <= hi.c1 && lo.c2 <= x.c2 <= hi.c2
  }

  /** The cells of a box that some pixel fell into. */
  ghost function Used(h: array3<nat>, lo: Cell, hi: Cell): set<Cell>
    requires Inside(h, lo, hi)
    reads h
  {
    set a: nat, b: nat, c: nat | lo.c0 <= a <= hi.c0 && lo.c1 <= b <= hi.c1 && lo.c2 <= c <= hi.c2 && h[a, b, c] != 0 :: Cell(a, b, c)
  }

  lemma InUsed(h: array3<nat>, lo: Cell, hi: Cell, x: Cell)
    requires Inside(h, lo, hi)
    ensures x in Used(h, lo, hi) <==> In(x, lo, hi) && h[x.c0, x.c1, x.c2] != 0
  {
  }

  /** Some used cell lies on this face. */
  ghost predicate Touches(s: set<Cell>, n: nat, v: nat) {
    exists x :: x in s && Coord(x, n) == v
  }

  /** All six faces are touched. */
  ghost predicate Tight(s: set<Cell>, lo: Cell, hi: Cell) {
    forall n: nat :: n < 3 ==> Touches(s, n, Coord(lo, n)) && Touches(s, n, Coord(hi, n))
  }

  // ----- prescan -----

  /** The histogram cell of pixel n of a row. */
  function PixelCell(row: seq<Byte>, n: nat): (x: Cell)
    requires 3 * n + 2 < |row|
    ensures x.c0 < HIST_C0 && x.c1 < HIST_C1 && x.c2 < HIST_C2
  {
    Cell(row[3 * n] / 8, row[3 * n + 1] / 4, row[3 * n + 2] / 8)
  }

  /** A pixel is counted in the cell whose centre is nearest to its red, green and blue. */
  lemma CountedNear(row: seq<Byte>, n: nat)
    requires 3 * n + 2 < |row|
    ensures var x := PixelCell(row, n); var p := Center(x.c0, x.c1, x.c2);
            -4 <= row[3 * n] - p.c0 < 4 && -2 <= row[3 * n + 1] - p.c1 < 2 && -4 <= row[3 * n + 2] - p.c2 < 4
  {
    CenterNear(row[3 * n], row[3 * n + 1], row[3 * n + 2]);
  }

  /** Number of pixels among the first n of a row that fall into a cell. */
  function Hits(row: seq<Byte>, n: nat, x: Cell): nat
    requires 3 * n <= |row|
  {
    if n == 0 then 0
    else Hits(row, n - 1, x) + (if PixelCell(row, n - 1) == x then 1 else 0)
  }

  function Saturated(k: nat): nat {
    if k > 65535 then 65535 else k
  }

  /** A 16-bit count, incremented and put back if that wrapped it to 0. */
  function Increment(v: nat): (r: nat)
    requires v <= 65535
    ensures r == Saturated(v + 1)
  {
    var up := (v + 1) % 0x1_0000;
    if up <= 0 then (up + 0xFFFF) % 0x1_0000 else up
  }

  /** prescan_quantize on one row: counts that stop at 65535 instead of wrapping to 0. */
  method PrescanRow(h: array3<nat>, row: seq<Byte>, width: nat)
    requires h.Length0 == HIST_C0 && h.Length1 == HIST_C1 && h.Length2 == HIST_C2 && |row| == 3 * width
    requires forall a, b, c :: 0 <= a < HIST_C0 && 0 <= b < HIST_C1 && 0 <= c < HIST_C2 ==> h[a, b, c] <= 65535
    modifies h
    ensures forall a, b, c :: 0 <= a < HIST_C0 && 0 <= b < HIST_C1 && 0 <= c < HIST_C2 ==>
              h[a, b, c] == Saturated(old(h[a, b, c]) + Hits(row, width, Cell(a, b, c)))
  {
    hide PixelCell, Increment;
    var col := 0;
    while col < width
      invariant 0 <= col <= width
      invariant forall a, b, c :: 0 <= a < HIST_C0 && 0 <= b < HIST_C1 && 0 <= c < HIST_C2 ==>
                  h[a, b, c] == Saturated(old(h[a, b, c]) + Hits(row, col, Cell(a, b, c)))
    {
      var x := PixelCell(row, col);
      h[x.c0, x.c1, x.c2] := Increment(h[x.c0, x.c1, x.c2]);
      col := col + 1;
    }
  }

  // ----- update_box -----

  /** Is there a used cell in the region? */
  method Occupied(h: array3<nat>, lo: Cell, hi: Cell) returns (found: bool)
    requires Inside(h, lo, hi)
    ensures found <==> Used(h, lo, hi) != {}
  {
    var c0 := lo.c0;
    while c0 <= hi.c0
      invariant lo.c0 <= c0 <= hi.c0 + 1
      invariant forall a, b, c :: lo.c0 <= a < c0 && lo.c1 <= b <= hi.c1 && lo.c2 <= c <= hi.c2 ==> h[a, b, c] == 0
    {
      var c1 := lo.c1;
      while c1 <= hi.c1
        invariant lo.c1 <= c1 <= hi.c1 + 1
        invariant forall b, c :: lo.c1 <= b < c1 && lo.c2 <= c <= hi.c2 ==> h[c0, b, c] == 0
      {
        var c2 := lo.c2;
        while c2 <= hi.c2
          invariant lo.c2 <= c2 <= hi.c2 + 1
          invariant forall c :: lo.c2 <= c < c2 ==> h[c0, c1, c] == 0
        {
          if h[c0, c1, c2] != 0 {
            InUsed(h, lo, hi, Cell(c0, c1, c2));
            return true;
          }
          c2 := c2 + 1;
        }
        c1 := c1 + 1;
      }
      c0 := c0 + 1;
    }
    found := false;
    forall x | x in Used(h, lo, hi)
      ensures false
    {
      InUsed(h, lo, hi, x);
    }
  }

  /** A slice of a region holds the used cells with that coordinate. */
  lemma Slice(h: array3<nat>, lo: Cell, hi: Cell, n: nat, v: nat, x: Cell)
    requires Inside(h, lo, hi) && n < 3 && Coord(lo, n) <= v <= Coord(hi, n)
    ensures Inside(h, SetCoord(lo, n, v), SetCoord(hi, n, v))
    ensures x in Used(h, SetCoord(lo, n, v), SetCoord(hi, n, v)) <==> x in Used(h, lo, hi) && Coord(x, n) == v
  {
    InUsed(h, lo, hi, x);
    InUsed(h, SetCoord(lo, n, v), SetCoord(hi, n, v), x);
  }

  lemma Cut(h: array3<nat>, lo: Cell, hi: Cell, n: nat, from: nat, to: nat, x: Cell)
    requires Inside(h, lo, hi) && n < 3 && Coord(lo, n) <= from <= to <= Coord(hi, n)
    ensures Inside(h, SetCoord(lo, n, from), SetCoord(hi, n, to))
    ensures x in Used(h, SetCoord(lo, n, from), SetCoord(hi, n, to)) <==> x in Used(h, lo, hi) && from <= Coord(x, n) <= to
  {
    InUsed(h, lo, hi, x);
    InUsed(h, SetCoord(lo, n, from), SetCoord(hi, n, to), x);
  }

  /** Raises the lower bound along axis n to the first occupied slice. */
  method ShrinkLow(h: array3<nat>, lo: Cell, hi: Cell, n: nat) returns (r: Cell)
    requires Inside(h, lo, hi) && n < 3
    ensures r == SetCoord(lo, n, Coord(r, n)) && Coord(lo, n) <= Coord(r, n) <= Coord(hi, n)
    ensures Inside(h, r, hi) && Used(h, r, hi) == Used(h, lo, hi)
    ensures Used(h, lo, hi) != {} ==> Touches(Used(h, lo, hi), n, Coord(r, n))
  {
    hide Used;
    CoordsInside(h, lo, hi, n);
    r := lo;
    if Coord(hi, n) > Coord(lo, n) {
      var v := Coord(lo, n);
      while v <= Coord(hi, n)
        invariant Coord(lo, n) <= v <= Coord(hi, n) + 1
        invariant forall x :: x in Used(h, lo, hi) ==> v <= Coord(x, n)
      {
        forall x {
          Slice(h, lo, hi, n, v, x);
        }
        var found := Occupied(h, SetCoord(lo, n, v), SetCoord(hi, n, v));
        if found {
          ghost var y :| y in Used(h, SetCoord(lo, n, v), SetCoord(hi, n, v));
          forall x {
            Cut(h, lo, hi, n, v, Coord(hi, n), x);
          }
          assert SetCoord(hi, n, Coord(hi, n)) == hi;
          r := SetCoord(lo, n, v);
          return;
        }
        v := v + 1;
      }
    }
  }

  /** Lowers the upper bound along axis n to the last occupied slice. */
  method ShrinkHigh(h: array3<nat>, lo: Cell, hi: Cell, n: nat) returns (r: Cell)
    requires Inside(h, lo, hi) && n < 3
    ensures r == SetCoord(hi, n, Coord(r, n)) && Coord(lo, n) <= Coord(r, n) <= Coord(hi, n)
    ensures Inside(h, lo, r) && Used(h, lo, r) == Used(h, lo, hi)
    ensures Used(h, lo, hi) != {} ==> Touches(Used(h, lo, hi), n, Coord(r, n))
  {
    hide Used;
    CoordsInside(h, lo, hi, n);
    r := hi;
    if Coord(hi, n) > Coord(lo, n) {
      var v: int := Coord(hi, n);
      while v >= Coord(lo, n)
        invariant Coord(lo, n) - 1 <= v <= Coord(hi, n)
        invariant forall x :: x in Used(h, lo, hi) ==> Coord(x, n) <= v
      {
        forall x {
          Slice(h, lo, hi, n, v, x);
        }
        var found := Occupied(h, SetCoord(lo, n, v), SetCoord(hi, n, v));
        if found {
          ghost var y :| y in Used(h, SetCoord(lo, n, v), SetCoord(hi, n, v));
          forall x {
            Cut(h, lo, hi, n, Coord(lo, n), v, x);
          }
          assert SetCoord(lo, n, Coord(lo, n)) == lo;
          r := SetCoord(hi, n, v);
          return;
        }
        v := v - 1;
      }
    }
  }

  lemma CoordsInside(h: array3<nat>, lo: Cell, hi: Cell, n: nat)
    requires Inside(h, lo, hi)
    ensures forall x :: x in Used(h, lo, hi) ==> Coord(lo, n) <= Coord(x, n) <= Coord(hi, n)
    ensures Used(h, lo, hi) != {} ==> exists x :: x in Used(h, lo, hi)
  {
  }

  /** The squared scaled diagonal; it vanishes for single cells only. */
  function Volume(lo: Cell, hi: Cell): int {
    Sq((hi.c0 - lo.c0) * 8 * C0_SCALE) + Sq((hi.c1 - lo.c1) * 4 * C1_SCALE) + Sq((hi.c2 - lo.c2) * 8 * C2_SCALE)
  }

  /** It is the scaled squared distance between the centres of the corner cells. */
  lemma VolumeIsDist(lo: Cell, hi: Cell)
    ensures Volume(lo, hi) == Dist(Center(hi.c0, hi.c1, hi.c2), Center(lo.c0, lo.c1, lo.c2))
  {
    hide Sq;
  }

  lemma VolumeZero(lo: Cell, hi: Cell)
    ensures Volume(lo, hi) >= 0 && (Volume(lo, hi) == 0 <==> lo == hi)
  {
    hide Sq;
    SqZeroOnly((hi.c0 - lo.c0) * 8 * C0_SCALE);
    SqZeroOnly((hi.c1 - lo.c1) * 4 * C1_SCALE);
    SqZeroOnly((hi.c2 - lo.c2) * 8 * C2_SCALE);
  }

  lemma SqZeroOnly(x: int)
    ensures Sq(x) == 0 <==> x == 0
  {
    if x > 0 {
      assert x * x >= x;
    } else if x < 0 {
      assert (-x) * (-x) >= -x;
    }
  }

  /** The used cells of the region that come before c0, c1, c2 in scanning order. */
  ghost function Scanned(h: array3<nat>, lo: Cell, hi: Cell, c0: nat, c1: nat, c2: nat): set<Cell>
    requires Inside(h, lo, hi)
    reads h
  {
    set x | x in Used(h, lo, hi) && (x.c0 < c0 || (x.c0 == c0 && (x.c1 < c1 || (x.c1 == c1 && x.c2 < c2))))
  }

  lemma ScanOne(h: array3<nat>, lo: Cell, hi: Cell, x: Cell)
    requires Inside(h, lo, hi) && In(x, lo, hi)
    ensures var s := Scanned(h, lo, hi, x.c0, x.c1, x.c2);
            && x !in s
            && Scanned(h, lo, hi, x.c0, x.c1, x.c2 + 1) == if h[x.c0, x.c1, x.c2] != 0 then s + {x} else s
  {
    hide Used;
    InUsed(h, lo, hi, x);
    forall y: Cell | y.c0 == x.c0 && y.c1 == x.c1 && y.c2 == x.c2
      ensures y == x
    {
    }
  }

  lemma ScanEnds(h: array3<nat>, lo: Cell, hi: Cell, c0: nat, c1: nat)
    requires Inside(h, lo, hi)
    ensures Scanned(h, lo, hi, c0, c1, hi.c2 + 1) == Scanned(h, lo, hi, c0, c1 + 1, lo.c2)
    ensures Scanned(h, lo, hi, c0, hi.c1 + 1, lo.c2) == Scanned(h, lo, hi, c0 + 1, lo.c1, lo.c2)
    ensures Scanned(h, lo, hi, hi.c0 + 1, lo.c1, lo.c2) == Used(h, lo, hi)
    ensures Scanned(h, lo, hi, lo.c0, lo.c1, lo.c2) == {}
  {
    hide Used;
    forall x | x in Used(h, lo, hi)
      ensures In(x, lo, hi)
    {
      InUsed(h, lo, hi, x);
    }
  }

  /** The population of a region. */
  method CountUsed(h: array3<nat>, lo: Cell, hi: Cell) returns (ccount: nat)
    requires Inside(h, lo, hi)
    ensures ccount == |Used(h, lo, hi)|
  {
    hide Used, Scanned;
    ccount := 0;
    ScanEnds(h, lo, hi, lo.c0, lo.c1);
    var c0 := lo.c0;
    while c0 <= hi.c0
      invariant lo.c0 <= c0 <= hi.c0 + 1 && ccount == |Scanned(h, lo, hi, c0, lo.c1, lo.c2)|
    {
      var c1 := lo.c1;
      while c1 <= hi.c1
        invariant lo.c1 <= c1 <= hi.c1 + 1 && ccount == |Scanned(h, lo, hi, c0, c1, lo.c2)|
      {
        var c2 := lo.c2;
        while c2 <= hi.c2
          invariant lo.c2 <= c2 <= hi.c2 + 1 && ccount == |Scanned(h, lo, hi, c0, c1, c2)|
        {
          ScanOne(h, lo, hi, Cell(c0, c1, c2));
          if h[c0, c1, c2] != 0 {
            ccount := ccount + 1;
          }
          c2 := c2 + 1;
        }
        ScanEnds(h, lo, hi, c0, c1);
        c1 := c1 + 1;
      }
      ScanEnds(h, lo, hi, c0, c1);
      c0 := c0 + 1;
    }
    ScanEnds(h, lo, hi, c0, lo.c1);
  }

  /** A box that is tight around used cells, with its statistics up to date. */
  ghost predicate Good(h: array3<nat>, b: Box)
    reads h
  {
    && Inside(h, b.lo, b.hi) && Used(h, b.lo, b.hi) != {} && Tight(Used(h, b.lo, b.hi), b.lo, b.hi)
    && b.volume == Volume(b.lo, b.hi) && b.colorcount == |Used(h, b.lo, b.hi)|
  }

  /** update_box: the tightest box around the same used cells. */
  method UpdateBox(h: array3<nat>, lo0: Cell, hi0: Cell) returns (b: Box)
    requires Inside(h, lo0, hi0) && Used(h, lo0, hi0) != {}
    ensures Good(h, b) && Used(h, b.lo, b.hi) == Used(h, lo0, hi0)
    ensures In(b.lo, lo0, hi0) && In(b.hi, lo0, hi0)
  {
    hide Used, Touches, Volume;
    var lo, hi := lo0, hi0;
    lo := ShrinkLow(h, lo, hi, 0);
    hi := ShrinkHigh(h, lo, hi, 0);
    lo := ShrinkLow(h, lo, hi, 1);
    hi := ShrinkHigh(h, lo, hi, 1);
    lo := ShrinkLow(h, lo, hi, 2);
    hi := ShrinkHigh(h, lo, hi, 2);
    var dist0, dist1, dist2 := (hi.c0 - lo.c0) * 8 * C0_SCALE, (hi.c1 - lo.c1) * 4 * C1_SCALE, (hi.c2 - lo.c2) * 8 * C2_SCALE;
    VolumeZero(lo, hi);
    VolumeIs(lo, hi);
    var ccount := CountUsed(h, lo, hi);
    b := Box(lo, hi, dist0 * dist0 + dist1 * dist1 + dist2 * dist2, ccount);
  }

  lemma VolumeIs(lo: Cell, hi: Cell)
    ensures var d0, d1, d2 := (hi.c0 - lo.c0) * 8 * C0_SCALE, (hi.c1 - lo.c1) * 4 * C1_SCALE, (hi.c2 - lo.c2) * 8 * C2_SCALE;
            d0 * d0 + d1 * d1 + d2 * d2 == Volume(lo, hi)
  {
  }

  // ----- the box list -----

  predicate Apart(a: Box, b: Box) {
    || a.hi.c0 < b.lo.c0 || b.hi.c0 < a.lo.c0
    || a.hi.c1 < b.lo.c1 || b.hi.c1 < a.lo.c1
    || a.hi.c2 < b.lo.c2 || b.hi.c2 < a.lo.c2
  }

  /** Tight boxes with no cell in common. */
  ghost predicate Disjoint(h: array3<nat>, list: seq<Box>)
    reads h
  {
    && (forall i :: 0 <= i < |list| ==> Inside(h, list[i].lo, list[i].hi) && Good(h, list[i]))
    && (forall i, j :: 0 <= i < j < |list| ==> Apart(list[i], list[j]))
  }

  /** All used cells of the boxes. */
  ghost function Union(h: array3<nat>, list: seq<Box>): set<Cell>
    requires forall i :: 0 <= i < |list| ==> Inside(h, list[i].lo, list[i].hi)
    reads h
  {
    if list == [] then {}
    else Union(h, list[..|list| - 1]) + Used(h, list[|list| - 1].lo, list[|list| - 1].hi)
  }

  lemma {:induction false} InUnion(h: array3<nat>, list: seq<Box>, x: Cell)
    requires forall i :: 0 <= i < |list| ==> Inside(h, list[i].lo, list[i].hi)
    ensures x in Union(h, list) <==> exists i :: 0 <= i < |list| && x in Used(h, list[i].lo, list[i].hi)
  {
    hide Used;
    if list != [] {
      var init := list[..|list| - 1];
      InUnion(h, init, x);
      if i :| 0 <= i < |init| && x in Used(h, init[i].lo, init[i].hi) {
        assert list[i] == init[i];
      }
      if i :| 0 <= i < |list| && x in Used(h, list[i].lo, list[i].hi) {
        assert i < |init| ==> init[i] == list[i];
      }
    }
  }

  lemma ApartShareNothing(h: array3<nat>, a: Box, b: Box, x: Cell)
    requires Inside(h, a.lo, a.hi) && Inside(h, b.lo, b.hi) && Apart(a, b)
    ensures !(x in Used(h, a.lo, a.hi) && x in Used(h, b.lo, b.hi))
  {
    InUsed(h, a.lo, a.hi, x);
    InUsed(h, b.lo, b.hi, x);
  }

  /** A box of volume zero is one used cell. */
  lemma SingleCell(h: array3<nat>, b: Box)
    requires Good(h, b)
    ensures b.volume == 0 <==> |Used(h, b.lo, b.hi)| == 1
  {
    hide Volume, Used, Touches;
    VolumeZero(b.lo, b.hi);
    var s := Used(h, b.lo, b.hi);
    if b.lo == b.hi {
      forall x | x in s
        ensures x == b.lo
      {
        InUsed(h, b.lo, b.hi, x);
      }
      assert s == {b.lo};
    }
    if |s| == 1 {
      var y :| y in s;
      OnlyOne(s, y);
      OneFace(s, y, b.lo, b.hi, 0);
      OneFace(s, y, b.lo, b.hi, 1);
      OneFace(s, y, b.lo, b.hi, 2);
    }
  }

  lemma OnlyOne(s: set<Cell>, y: Cell)
    requires |s| == 1 && y in s
    ensures s == {y}
  {
    assert |s - {y}| == 0;
  }

  lemma OneFace(s: set<Cell>, y: Cell, lo: Cell, hi: Cell, n: nat)
    requires s == {y} && Tight(s, lo, hi) && n < 3
    ensures Coord(lo, n) == Coord(hi, n)
  {
    assert Touches(s, n, Coord(lo, n)) && Touches(s, n, Coord(hi, n));
  }

  /** Disjoint boxes: no more of them than used cells, and as many when none can be split. */
  lemma {:induction false} BoxesAndCells(h: array3<nat>, list: seq<Box>)
    requires Disjoint(h, list)
    ensures |list| <= |Union(h, list)|
    ensures (forall i :: 0 <= i < |list| ==> list[i].volume == 0) ==> |list| == |Union(h, list)|
  {
    hide Used, Good, Apart;
    if list != [] {
      var init, last := list[..|list| - 1], list[|list| - 1];
      BoxesAndCells(h, init);
      LastShared(h, list);
      GoodNonempty(h, last);
      SingleCell(h, last);
    }
  }

  lemma GoodNonempty(h: array3<nat>, b: Box)
    requires Good(h, b)
    ensures Inside(h, b.lo, b.hi) && |Used(h, b.lo, b.hi)| >= 1
  {
  }

  lemma LastShared(h: array3<nat>, list: seq<Box>)
    requires Disjoint(h, list) && list != []
    ensures Disjoint(h, list[..|list| - 1])
    ensures var init, last := list[..|list| - 1], list[|list| - 1];
            |Union(h, list)| == |Union(h, init)| + |Used(h, last.lo, last.hi)|
  {
    hide Used, Apart;
    var init, last := list[..|list| - 1], list[|list| - 1];
    forall x | x in Union(h, init)
      ensures x !in Used(h, last.lo, last.hi)
    {
      InUnion(h, init, x);
      var i :| 0 <= i < |init| && x in Used(h, init[i].lo, init[i].hi);
      assert init[i] == list[i];
      ApartShareNothing(h, list[i], last, x);
    }
    assert Union(h, init) !! Used(h, last.lo, last.hi);
  }

  // ----- median_cut -----

  /** Index of the splittable box with the most used cells, the first of those; -1 if none is splittable. */
  method FindBiggestColorPop(boxlist: seq<Box>) returns (which: int)
    ensures -1 <= which < |boxlist|
    ensures which == -1 <==> forall i :: 0 <= i < |boxlist| ==> boxlist[i].colorcount == 0 || boxlist[i].volume == 0
    ensures which >= 0 ==> boxlist[which].volume > 0 && forall i :: 0 <= i < |boxlist| && boxlist[i].volume > 0 ==>
                             boxlist[i].colorcount <= boxlist[which].colorcount - (if i < which then 1 else 0)
  {
    var maxc, i := 0, 0;
    which := -1;
    while i < |boxlist|
      invariant 0 <= i <= |boxlist| && -1 <= which < i
      invariant which == -1 ==> maxc == 0
      invariant which >= 0 ==> maxc == boxlist[which].colorcount > 0 && boxlist[which].volume > 0
      invariant forall k :: 0 <= k < i && boxlist[k].volume > 0 ==> boxlist[k].colorcount <= maxc - (if k < which then 1 else 0)
    {
      if boxlist[i].colorcount > maxc && boxlist[i].volume > 0 {
        which := i;
        maxc := boxlist[i].colorcount;
      }
      i := i + 1;
    }
  }

  /** Index of the first box of the largest volume; -1 if all volumes are zero. */
  method FindBiggestVolume(boxlist: seq<Box>) returns (which: int)
    ensures -1 <= which < |boxlist|
    ensures which == -1 <==> forall i :: 0 <= i < |boxlist| ==> boxlist[i].volume == 0
    ensures which >= 0 ==> boxlist[which].volume > 0 && forall i :: 0 <= i < |boxlist| ==>
                             boxlist[i].volume <= boxlist[which].volume - (if i < which then 1 else 0)
  {
    var maxv, i := 0, 0;
    which := -1;
    while i < |boxlist|
      invariant 0 <= i <= |boxlist| && -1 <= which < i
      invariant which == -1 ==> maxv == 0
      invariant which >= 0 ==> maxv == boxlist[which].volume > 0
      invariant forall k :: 0 <= k < i ==> boxlist[k].volume <= maxv - (if k < which then 1 else 0)
    {
      if boxlist[i].volume > maxv {
        which := i;
        maxv := boxlist[i].volume;
      }
      i := i + 1;
    }
  }

  /** The longest axis, in sample values scaled by 2, 3 and 1; green wins ties, blue loses them. */
  function Axis(lo: Cell, hi: Cell): (n: nat)
    ensures n < 3
  {
    var l0, l1, l2 := 16 * (hi.c0 - lo.c0), 12 * (hi.c1 - lo.c1), 8 * (hi.c2 - lo.c2);
    if l1 >= l0 && l1 >= l2 then 1 else if l0 >= l2 then 0 else 2
  }

  /** In sample values of its 8 by 4 by 8 cells, red counting twice and green three times, no axis is longer, none before it in the
      order green, red, blue as long. */
  lemma AxisIsLongest(lo: Cell, hi: Cell, m: nat)
    requires In(lo, lo, hi) && m < 3
    ensures var n := Axis(lo, hi);
            var long, other := Scaled(n) * (Coord(hi, n) - Coord(lo, n)), Scaled(m) * (Coord(hi, m) - Coord(lo, m));
            other <= long && (m == 1 && n != 1 ==> other < long) && (m == 0 && n == 2 ==> other < long)
  {
  }

  function Scaled(n: nat): nat {
    if n == 0 then 8 * 2 else if n == 1 then 4 * 3 else 8
  }

  method LongestAxis(lo: Cell, hi: Cell) returns (n: nat)
    requires In(lo, lo, hi) && Volume(lo, hi) > 0
    ensures n == Axis(lo, hi) && Coord(lo, n) < Coord(hi, n)
  {
    VolumeZero(lo, hi);
    var c0, c1, c2 := (hi.c0 - lo.c0) * 8 * C0_SCALE, (hi.c1 - lo.c1) * 4 * C1_SCALE, (hi.c2 - lo.c2) * 8 * C2_SCALE;
    var cmax := c1;
    n := 1;
    if c0 > cmax {
      cmax := c0;
      n := 0;
    }
    if c2 > cmax {
      n := 2;
    }
  }

  /** Both halves of a tight box hold used cells, and together the same ones. */
  lemma HalvesUsed(h: array3<nat>, b: Box, n: nat, lb: nat)
    requires Good(h, b) && n < 3 && Coord(b.lo, n) <= lb < Coord(b.hi, n)
    ensures Inside(h, b.lo, SetCoord(b.hi, n, lb)) && Inside(h, SetCoord(b.lo, n, lb + 1), b.hi)
    ensures var l, u := Used(h, b.lo, SetCoord(b.hi, n, lb)), Used(h, SetCoord(b.lo, n, lb + 1), b.hi);
            l != {} && u != {} && l + u == Used(h, b.lo, b.hi)
  {
    hide Used, Volume;
    assert SetCoord(b.lo, n, Coord(b.lo, n)) == b.lo && SetCoord(b.hi, n, Coord(b.hi, n)) == b.hi;
    CoordsInside(h, b.lo, b.hi, n);
    Cut(h, b.lo, b.hi, n, Coord(b.lo, n), lb, b.lo);
    Cut(h, b.lo, b.hi, n, lb + 1, Coord(b.hi, n), b.lo);
    var all, l, u := Used(h, b.lo, b.hi), Used(h, b.lo, SetCoord(b.hi, n, lb)), Used(h, SetCoord(b.lo, n, lb + 1), b.hi);
    forall x: Cell
      ensures x in l <==> x in all && Coord(x, n) <= lb
      ensures x in u <==> x in all && lb + 1 <= Coord(x, n)
    {
      Cut(h, b.lo, b.hi, n, Coord(b.lo, n), lb, x);
      Cut(h, b.lo, b.hi, n, lb + 1, Coord(b.hi, n), x);
    }
    assert Touches(Used(h, b.lo, b.hi), n, Coord(b.lo, n)) && Touches(Used(h, b.lo, b.hi), n, Coord(b.hi, n));
  }

  /** Replacing a box by two smaller ones that share out its used cells keeps the list disjoint and its union. */
  lemma SplitKeeps(h: array3<nat>, list: seq<Box>, i: nat, b1: Box, b2: Box)
    requires Disjoint(h, list) && i < |list| && Good(h, b1) && Good(h, b2) && Apart(b1, b2)
    requires In(b1.lo, list[i].lo, list[i].hi) && In(b1.hi, list[i].lo, list[i].hi)
    requires In(b2.lo, list[i].lo, list[i].hi) && In(b2.hi, list[i].lo, list[i].hi)
    requires Used(h, b1.lo, b1.hi) + Used(h, b2.lo, b2.hi) == Used(h, list[i].lo, list[i].hi)
    ensures Disjoint(h, list[i := b1] + [b2]) && Union(h, list[i := b1] + [b2]) == Union(h, list)
  {
    hide Used, Tight, Volume;
    var next := list[i := b1] + [b2];
    forall x: Cell
      ensures x in Union(h, next) <==> x in Union(h, list)
    {
      InUnion(h, list, x);
      InUnion(h, next, x);
      if k :| 0 <= k < |list| && x in Used(h, list[k].lo, list[k].hi) {
        assert k != i ==> next[k] == list[k];
        assert next[i] == b1 && next[|list|] == b2;
      }
      if k :| 0 <= k < |next| && x in Used(h, next[k].lo, next[k].hi) {
        assert k != i && k < |list| ==> next[k] == list[k];
      }
    }
  }

  // ----- which boxes they are -----

  /** The box to be cut next: the first of the most populous splittable ones while there are no more than half as many boxes as
      wanted, then the first of those of the largest volume. */
  predicate Chosen(list: seq<Box>, desired: nat, w: nat) {
    && w < |list| && list[w].volume > 0
    && forall i :: 0 <= i < |list| && list[i].volume > 0 ==>
         if |list| * 2 <= desired then list[i].colorcount <= list[w].colorcount && (i < w ==> list[i].colorcount < list[w].colorcount)
         else list[i].volume <= list[w].volume && (i < w ==> list[i].volume < list[w].volume)
  }

  /** The tight boxes around the used cells of b on either side of the middle of its longest axis. */
  ghost predicate Halved(h: array3<nat>, b: Box, b1: Box, b2: Box)
    reads h
  {
    && Inside(h, b.lo, b.hi) && Good(h, b1) && Good(h, b2)
    && var n := Axis(b.lo, b.hi);
       forall x: Cell ::
         && (x in Used(h, b1.lo, b1.hi) <==> x in Used(h, b.lo, b.hi) && Coord(x, n) <= (Coord(b.lo, n) + Coord(b.hi, n)) / 2)
         && (x in Used(h, b2.lo, b2.hi) <==> x in Used(h, b.lo, b.hi) && Coord(x, n) > (Coord(b.lo, n) + Coord(b.hi, n)) / 2)
  }

  /** One cut: the lower half stays where the box was, the upper one goes to the end of the list. */
  ghost predicate CutStep(h: array3<nat>, list: seq<Box>, next: seq<Box>, desired: nat, w: nat)
    reads h
  {
    && Chosen(list, desired, w) && |next| == |list| + 1
    && next == list[w := next[w]] + [next[|list|]] && Halved(h, list[w], next[w], next[|list|])
  }

  /** The lists that cutting leads through. */
  ghost predicate CutRun(h: array3<nat>, run: seq<seq<Box>>, ws: seq<nat>, desired: nat)
    reads h
  {
    |run| == |ws| + 1 && forall i :: 0 <= i < |ws| ==> CutStep(h, run[i], run[i + 1], desired, ws[i])
  }

  /** A tight box is determined by its used cells. */
  lemma GoodUnique(h: array3<nat>, a: Box, b: Box)
    requires Good(h, a) && Good(h, b) && Used(h, a.lo, a.hi) == Used(h, b.lo, b.hi)
    ensures a == b
  {
    hide Volume, Used, Touches;
    var s := Used(h, a.lo, a.hi);
    forall n: nat | n < 3
      ensures Coord(a.lo, n) == Coord(b.lo, n) && Coord(a.hi, n) == Coord(b.hi, n)
    {
      CoordsInside(h, a.lo, a.hi, n);
      CoordsInside(h, b.lo, b.hi, n);
      FaceInside(s, n, Coord(a.lo, n), Coord(b.lo, n), Coord(b.hi, n));
      FaceInside(s, n, Coord(a.hi, n), Coord(b.lo, n), Coord(b.hi, n));
      FaceInside(s, n, Coord(b.lo, n), Coord(a.lo, n), Coord(a.hi, n));
      FaceInside(s, n, Coord(b.hi, n), Coord(a.lo, n), Coord(a.hi, n));
    }
    assert Coord(a.lo, 0) == Coord(b.lo, 0) && Coord(a.lo, 1) == Coord(b.lo, 1) && Coord(a.lo, 2) == Coord(b.lo, 2);
    assert Coord(a.hi, 0) == Coord(b.hi, 0) && Coord(a.hi, 1) == Coord(b.hi, 1) && Coord(a.hi, 2) == Coord(b.hi, 2);
  }

  lemma FaceInside(s: set<Cell>, n: nat, v: nat, l: nat, u: nat)
    requires Touches(s, n, v) && forall x :: x in s ==> l <= Coord(x, n) <= u
    ensures l <= v <= u
  {
  }

  lemma HalvesUnique(h: array3<nat>, b: Box, b1: Box, b2: Box, a1: Box, a2: Box)
    requires Halved(h, b, b1, b2) && Halved(h, b, a1, a2)
    ensures b1 == a1 && b2 == a2
  {
    hide Used, Tight, Volume, Axis;
    assert Used(h, b1.lo, b1.hi) == Used(h, a1.lo, a1.hi);
    assert Used(h, b2.lo, b2.hi) == Used(h, a2.lo, a2.hi);
    GoodUnique(h, b1, a1);
    GoodUnique(h, b2, a2);
  }

  lemma ChosenUnique(list: seq<Box>, desired: nat, w: nat, v: nat)
    requires Chosen(list, desired, w) && Chosen(list, desired, v)
    ensures w == v
  {
  }

  /** So the histogram and the starting list determine every list on the way. */
  lemma {:induction false} CutsUnique(h: array3<nat>, run: seq<seq<Box>>, ws: seq<nat>, other: seq<seq<Box>>, vs: seq<nat>, desired: nat, i: nat)
    requires CutRun(h, run, ws, desired) && CutRun(h, other, vs, desired) && run[0] == other[0] && i < |run| && i < |other|
    ensures run[i] == other[i]
    decreases i
  {
    hide Halved;
    if i > 0 {
      CutsUnique(h, run, ws, other, vs, desired, i - 1);
      assert CutStep(h, run[i - 1], run[i], desired, ws[i - 1]) && CutStep(h, other[i - 1], other[i], desired, vs[i - 1]);
      ChosenUnique(run[i - 1], desired, ws[i - 1], vs[i - 1]);
      var w, n := ws[i - 1], |run[i - 1]|;
      HalvesUnique(h, run[i - 1][w], run[i][w], run[i][n], other[i][w], other[i][n]);
    }
  }

  // ----- the cutting itself -----

  /** median_cut: splits boxes until there are enough or none can be split; the boxes stay disjoint
      and tight around the same used cells, and end up as many as wanted or as there are cells. Each cut is of the box
      that is to be cut next, in the middle of its longest axis. */
  method MedianCut(h: array3<nat>, boxlist0: seq<Box>, desired: nat) returns (boxlist: seq<Box>, ghost run: seq<seq<Box>>, ghost ws: seq<nat>)
    requires Disjoint(h, boxlist0) && 1 <= |boxlist0| <= desired
    ensures Disjoint(h, boxlist) && Union(h, boxlist) == Union(h, boxlist0)
    ensures |boxlist| == if |Union(h, boxlist0)| < desired then |Union(h, boxlist0)| else desired
    ensures CutRun(h, run, ws, desired) && run[0] == boxlist0 && run[|ws|] == boxlist
  {
    hide Good, Union, Apart, Used, CutStep;
    boxlist, run, ws := boxlist0, [boxlist0], [];
    BoxesAndCells(h, boxlist);
    while |boxlist| < desired
      invariant 1 <= |boxlist| <= desired && Disjoint(h, boxlist) && Union(h, boxlist) == Union(h, boxlist0)
      invariant |boxlist| <= |Union(h, boxlist0)|
      invariant CutRun(h, run, ws, desired) && run[0] == boxlist0 && run[|ws|] == boxlist
    {
      var which;
      if |boxlist| * 2 <= desired {
        which := FindBiggestColorPop(boxlist);
      } else {
        which := FindBiggestVolume(boxlist);
      }
      AllPopulated(h, boxlist);
      if which < 0 {
        break;
      }
      var b1, b2 := SplitBox(h, boxlist[which]);
      SplitKeeps(h, boxlist, which, b1, b2);
      CutMade(h, boxlist, desired, which, b1, b2);
      boxlist := boxlist[which := b1] + [b2];
      run, ws := run + [boxlist], ws + [which];
      BoxesAndCells(h, boxlist);
    }
    BoxesAndCells(h, boxlist);
  }

  lemma CutMade(h: array3<nat>, list: seq<Box>, desired: nat, w: nat, b1: Box, b2: Box)
    requires w < |list| && Chosen(list, desired, w) && Halved(h, list[w], b1, b2)
    ensures CutStep(h, list, list[w := b1] + [b2], desired, w)
  {
    hide Chosen, Halved;
    var next := list[w := b1] + [b2];
    assert next[w] == b1 && next[|list|] == b2;
  }

  lemma AllPopulated(h: array3<nat>, list: seq<Box>)
    requires Disjoint(h, list)
    ensures forall i :: 0 <= i < |list| ==> list[i].colorcount > 0
  {
  }

  /** Cuts a box in the middle of its longest axis. */
  method SplitBox(h: array3<nat>, b: Box) returns (b1: Box, b2: Box)
    requires Good(h, b) && b.volume > 0
    ensures Good(h, b1) && Good(h, b2) && Apart(b1, b2)
    ensures In(b1.lo, b.lo, b.hi) && In(b1.hi, b.lo, b.hi) && In(b2.lo, b.lo, b.hi) && In(b2.hi, b.lo, b.hi)
    ensures Used(h, b1.lo, b1.hi) + Used(h, b2.lo, b2.hi) == Used(h, b.lo, b.hi)
    ensures Halved(h, b, b1, b2)
  {
    hide Used, Volume, Tight, Axis;
    var n := LongestAxis(b.lo, b.hi);
    var lb := (Coord(b.hi, n) + Coord(b.lo, n)) / 2;
    HalvesUsed(h, b, n, lb);
    b1 := UpdateBox(h, b.lo, SetCoord(b.hi, n, lb));
    b2 := UpdateBox(h, SetCoord(b.lo, n, lb + 1), b.hi);
    CutInTwo(h, b, n, lb);
  }

  /** What lies on either side of a cut. */
  lemma CutInTwo(h: array3<nat>, b: Box, n: nat, lb: nat)
    requires Inside(h, b.lo, b.hi) && n < 3 && Coord(b.lo, n) <= lb < Coord(b.hi, n)
    ensures Inside(h, b.lo, SetCoord(b.hi, n, lb)) && Inside(h, SetCoord(b.lo, n, lb + 1), b.hi)
    ensures forall x: Cell ::
              && (x in Used(h, b.lo, SetCoord(b.hi, n, lb)) <==> x in Used(h, b.lo, b.hi) && Coord(x, n) <= lb)
              && (x in Used(h, SetCoord(b.lo, n, lb + 1), b.hi) <==> x in Used(h, b.lo, b.hi) && Coord(x, n) > lb)
  {
    hide Used;
    assert SetCoord(b.lo, n, Coord(b.lo, n)) == b.lo && SetCoord(b.hi, n, Coord(b.hi, n)) == b.hi;
    CoordsInside(h, b.lo, b.hi, n);
    Cut(h, b.lo, b.hi, n, Coord(b.lo, n), lb, b.lo);
    Cut(h, b.lo, b.hi, n, lb + 1, Coord(b.hi, n), b.lo);
    forall x: Cell
      ensures x in Used(h, b.lo, SetCoord(b.hi, n, lb)) <==> x in Used(h, b.lo, b.hi) && Coord(x, n) <= lb
      ensures x in Used(h, SetCoord(b.lo, n, lb + 1), b.hi) <==> x in Used(h, b.lo, b.hi) && Coord(x, n) > lb
    {
      Cut(h, b.lo, b.hi, n, Coord(b.lo, n), lb, x);
      Cut(h, b.lo, b.hi, n, lb + 1, Coord(b.hi, n), x);
    }
  }

  // ----- representative colours -----

  /** The coordinate of a cell's centre along axis k, or 1 for the plain count. */
  function Weight(c0: nat, c1: nat, c2: nat, k: nat): (w: nat)
  {
    var p := Center(c0, c1, c2);
    if k == 0 then p.c0 else if k == 1 then p.c1 else if k == 2 then p.c2 else 1
  }

  /** Weighted pixel counts of the cells c2 <= c < end on one line, of the lines before `end`, of the planes before `end`. */
  function LineSum(h: array3<nat>, c0: nat, c1: nat, c2: nat, end: nat, k: nat): nat
    requires c0 < h.Length0 && c1 < h.Length1 && end <= h.Length2
    reads h
    decreases end
  {
    if end <= c2 then 0 else LineSum(h, c0, c1, c2, end - 1, k) + Weight(c0, c1, end - 1, k) * h[c0, c1, end - 1]
  }

  function PlaneSum(h: array3<nat>, c0: nat, lo: Cell, hi: Cell, end: nat, k: nat): nat
    requires Inside(h, lo, hi) && c0 < h.Length0 && end <= h.Length1
    reads h
    decreases end
  {
    if end <= lo.c1 then 0 else PlaneSum(h, c0, lo, hi, end - 1, k) + LineSum(h, c0, end - 1, lo.c2, hi.c2 + 1, k)
  }

  function BoxSum(h: array3<nat>, lo: Cell, hi: Cell, end: nat, k: nat): nat
    requires Inside(h, lo, hi) && end <= h.Length0
    reads h
    decreases end
  {
    if end <= lo.c0 then 0 else BoxSum(h, lo, hi, end - 1, k) + PlaneSum(h, end - 1, lo, hi, hi.c1 + 1, k)
  }

  lemma Scale(m: nat, a: nat, b: nat)
    ensures m * (a + b) == m * a + m * b
  {
  }

  /** A weighted sum lies between the extreme weights times the count. */
  ghost predicate Between(lo: Cell, hi: Cell, k: nat, sum: nat, total: nat) {
    Weight(lo.c0, lo.c1, lo.c2, k) * total <= sum <= Weight(hi.c0, hi.c1, hi.c2, k) * total
  }

  lemma BetweenAdd(lo: Cell, hi: Cell, k: nat, s: nat, t: nat, s': nat, t': nat)
    requires Between(lo, hi, k, s, t) && Between(lo, hi, k, s', t')
    ensures Between(lo, hi, k, s + s', t + t')
  {
    Scale(Weight(lo.c0, lo.c1, lo.c2, k), t, t');
    Scale(Weight(hi.c0, hi.c1, hi.c2, k), t, t');
  }

  lemma OneCellBetween(lo: Cell, hi: Cell, k: nat, x: Cell, count: nat)
    requires In(x, lo, hi)
    ensures Between(lo, hi, k, Weight(x.c0, x.c1, x.c2, k) * count, Weight(x.c0, x.c1, x.c2, 3) * count)
  {
    var l, m, u := Weight(lo.c0, lo.c1, lo.c2, k), Weight(x.c0, x.c1, x.c2, k), Weight(hi.c0, hi.c1, hi.c2, k);
    assert l <= m <= u;
    MulLess(l, m, count);
    MulLess(m, u, count);
  }

  lemma MulLess(a: nat, b: nat, c: nat)
    requires a <= b
    ensures a * c <= b * c
  {
  }

  lemma {:induction false} LineBetween(h: array3<nat>, lo: Cell, hi: Cell, c0: nat, c1: nat, end: nat, k: nat)
    requires Inside(h, lo, hi) && lo.c0 <= c0 <= hi.c0 && lo.c1 <= c1 <= hi.c1 && end <= hi.c2 + 1
    ensures Between(lo, hi, k, LineSum(h, c0, c1, lo.c2, end, k), LineSum(h, c0, c1, lo.c2, end, 3))
    ensures forall c :: lo.c2 <= c < end && h[c0, c1, c] > 0 ==> LineSum(h, c0, c1, lo.c2, end, 3) > 0
    decreases end
  {
    hide Weight;
    if end > lo.c2 {
      LineBetween(h, lo, hi, c0, c1, end - 1, k);
      var n := h[c0, c1, end - 1];
      OneCellBetween(lo, hi, k, Cell(c0, c1, end - 1), n);
      BetweenAdd(lo, hi, k, LineSum(h, c0, c1, lo.c2, end - 1, k), LineSum(h, c0, c1, lo.c2, end - 1, 3),
                 Weight(c0, c1, end - 1, k) * n, Weight(c0, c1, end - 1, 3) * n);
      CountWeight(c0, c1, end - 1, n);
    }
  }

  lemma CountWeight(c0: nat, c1: nat, c2: nat, n: nat)
    ensures Weight(c0, c1, c2, 3) * n == n
  {
  }

  lemma {:induction false} PlaneBetween(h: array3<nat>, lo: Cell, hi: Cell, c0: nat, end: nat, k: nat)
    requires Inside(h, lo, hi) && lo.c0 <= c0 <= hi.c0 && end <= hi.c1 + 1
    ensures Between(lo, hi, k, PlaneSum(h, c0, lo, hi, end, k), PlaneSum(h, c0, lo, hi, end, 3))
    ensures forall b, c :: lo.c1 <= b < end && lo.c2 <= c <= hi.c2 && h[c0, b, c] > 0 ==> PlaneSum(h, c0, lo, hi, end, 3) > 0
    decreases end
  {
    hide Weight, LineSum, Between;
    if end > lo.c1 {
      PlaneBetween(h, lo, hi, c0, end - 1, k);
      LineBetween(h, lo, hi, c0, end - 1, hi.c2 + 1, k);
      BetweenAdd(lo, hi, k, PlaneSum(h, c0, lo, hi, end - 1, k), PlaneSum(h, c0, lo, hi, end - 1, 3),
                 LineSum(h, c0, end - 1, lo.c2, hi.c2 + 1, k), LineSum(h, c0, end - 1, lo.c2, hi.c2 + 1, 3));
    } else {
      NothingBetween(lo, hi, k);
    }
  }

  lemma NothingBetween(lo: Cell, hi: Cell, k: nat)
    ensures Between(lo, hi, k, 0, 0)
  {
  }

  lemma {:induction false} BoxBetween(h: array3<nat>, lo: Cell, hi: Cell, end: nat, k: nat)
    requires Inside(h, lo, hi) && end <= hi.c0 + 1
    ensures Between(lo, hi, k, BoxSum(h, lo, hi, end, k), BoxSum(h, lo, hi, end, 3))
    ensures forall a, b, c :: lo.c0 <= a < end && lo.c1 <= b <= hi.c1 && lo.c2 <= c <= hi.c2 && h[a, b, c] > 0 ==> BoxSum(h, lo, hi, end, 3) > 0
    decreases end
  {
    hide Weight, LineSum, PlaneSum, Between;
    if end > lo.c0 {
      BoxBetween(h, lo, hi, end - 1, k);
      PlaneBetween(h, lo, hi, end - 1, hi.c1 + 1, k);
      BetweenAdd(lo, hi, k, BoxSum(h, lo, hi, end - 1, k), BoxSum(h, lo, hi, end - 1, 3),
                 PlaneSum(h, end - 1, lo, hi, hi.c1 + 1, k), PlaneSum(h, end - 1, lo, hi, hi.c1 + 1, 3));
    } else {
      NothingBetween(lo, hi, k);
    }
  }

  /** The rounded mean of the cell centres of a box along axis k, each cell weighted by its pixels. */
  function Mean(h: array3<nat>, lo: Cell, hi: Cell, k: nat): int
    requires Inside(h, lo, hi) && BoxSum(h, lo, hi, hi.c0 + 1, 3) > 0
    reads h
  {
    var total := BoxSum(h, lo, hi, hi.c0 + 1, 3);
    (BoxSum(h, lo, hi, hi.c0 + 1, k) + total / 2) / total
  }

  /** Around used cells the mean is defined, and it lies within the box. */
  lemma MeanInBox(h: array3<nat>, lo: Cell, hi: Cell, k: nat)
    requires Inside(h, lo, hi) && Used(h, lo, hi) != {}
    ensures BoxSum(h, lo, hi, hi.c0 + 1, 3) > 0
    ensures Weight(lo.c0, lo.c1, lo.c2, k) <= Mean(h, lo, hi, k) <= Weight(hi.c0, hi.c1, hi.c2, k)
  {
    hide Weight, BoxSum;
    BoxBetween(h, lo, hi, hi.c0 + 1, k);
    var x :| x in Used(h, lo, hi);
    assert h[x.c0, x.c1, x.c2] > 0;
    Rounded(BoxSum(h, lo, hi, hi.c0 + 1, k), BoxSum(h, lo, hi, hi.c0 + 1, 3), Weight(lo.c0, lo.c1, lo.c2, k), Weight(hi.c0, hi.c1, hi.c2, k));
  }

  lemma Rounded(sum: nat, total: nat, l: nat, u: nat)
    requires total > 0 && l * total <= sum <= u * total
    ensures l <= (sum + total / 2) / total <= u
  {
    var q, r := (sum + total / 2) / total, (sum + total / 2) % total;
    assert sum + total / 2 == q * total + r;
    if q < l {
      MulLess(q + 1, l, total);
    }
    if q > u {
      MulLess(u + 1, q, total);
    }
  }

  // ----- what the sums are sums of -----

  /** Histogram g has n more pixels in cell x than h, and the same everywhere else. */
  ghost predicate More(h: array3<nat>, g: array3<nat>, x: Cell, n: nat)
    reads h, g
  {
    && g.Length0 == h.Length0 && g.Length1 == h.Length1 && g.Length2 == h.Length2
    && forall a, b, c :: 0 <= a < h.Length0 && 0 <= b < h.Length1 && 0 <= c < h.Length2 ==>
         g[a, b, c] == h[a, b, c] + if Cell(a, b, c) == x then n else 0
  }

  lemma {:induction false} LineCounts(h: array3<nat>, g: array3<nat>, x: Cell, n: nat, c0: nat, c1: nat, c2: nat, end: nat, k: nat)
    requires More(h, g, x, n) && c0 < h.Length0 && c1 < h.Length1 && end <= h.Length2
    ensures LineSum(g, c0, c1, c2, end, k) == LineSum(h, c0, c1, c2, end, k)
          + if c0 == x.c0 && c1 == x.c1 && c2 <= x.c2 < end then Weight(x.c0, x.c1, x.c2, k) * n else 0
    decreases end
  {
    hide Weight;
    if end > c2 {
      LineCounts(h, g, x, n, c0, c1, c2, end - 1, k);
      Scale(Weight(c0, c1, end - 1, k), h[c0, c1, end - 1], n);
    }
  }

  lemma {:induction false} PlaneCounts(h: array3<nat>, g: array3<nat>, x: Cell, n: nat, c0: nat, lo: Cell, hi: Cell, end: nat, k: nat)
    requires More(h, g, x, n) && Inside(h, lo, hi) && c0 < h.Length0 && end <= h.Length1
    ensures PlaneSum(g, c0, lo, hi, end, k) == PlaneSum(h, c0, lo, hi, end, k)
          + if c0 == x.c0 && lo.c1 <= x.c1 < end && lo.c2 <= x.c2 <= hi.c2 then Weight(x.c0, x.c1, x.c2, k) * n else 0
    decreases end
  {
    hide Weight, LineSum, More;
    SameSize(h, g, x, n);
    if end > lo.c1 {
      PlaneCounts(h, g, x, n, c0, lo, hi, end - 1, k);
      LineCounts(h, g, x, n, c0, end - 1, lo.c2, hi.c2 + 1, k);
    }
  }

  lemma SameSize(h: array3<nat>, g: array3<nat>, x: Cell, n: nat)
    requires More(h, g, x, n)
    ensures g.Length0 == h.Length0 && g.Length1 == h.Length1 && g.Length2 == h.Length2
  {
  }

  /** n more pixels in a cell add n times its coordinate (or its count) to the totals of a box that the cell is in, and nothing to
      those of any other. */
  lemma {:induction false} BoxCounts(h: array3<nat>, g: array3<nat>, x: Cell, n: nat, lo: Cell, hi: Cell, end: nat, k: nat)
    requires More(h, g, x, n) && Inside(h, lo, hi) && end <= hi.c0 + 1
    ensures Inside(g, lo, hi)
    ensures BoxSum(g, lo, hi, end, k) == BoxSum(h, lo, hi, end, k) + if In(x, lo, hi) && x.c0 < end then Weight(x.c0, x.c1, x.c2, k) * n else 0
    decreases end
  {
    hide Weight, LineSum, PlaneSum, More;
    SameSize(h, g, x, n);
    if end > lo.c0 {
      BoxCounts(h, g, x, n, lo, hi, end - 1, k);
      PlaneCounts(h, g, x, n, end - 1, lo, hi, hi.c1 + 1, k);
    }
  }

  lemma {:induction false} LineEmpty(h: array3<nat>, c0: nat, c1: nat, c2: nat, end: nat, k: nat)
    requires c0 < h.Length0 && c1 < h.Length1 && end <= h.Length2
    requires forall c :: c2 <= c < end ==> h[c0, c1, c] == 0
    ensures LineSum(h, c0, c1, c2, end, k) == 0
    decreases end
  {
    if end > c2 {
      LineEmpty(h, c0, c1, c2, end - 1, k);
    }
  }

  lemma {:induction false} PlaneEmpty(h: array3<nat>, c0: nat, lo: Cell, hi: Cell, end: nat, k: nat)
    requires Inside(h, lo, hi) && c0 < h.Length0 && end <= h.Length1
    requires forall b, c :: lo.c1 <= b < end && lo.c2 <= c <= hi.c2 ==> h[c0, b, c] == 0
    ensures PlaneSum(h, c0, lo, hi, end, k) == 0
    decreases end
  {
    if end > lo.c1 {
      PlaneEmpty(h, c0, lo, hi, end - 1, k);
      LineEmpty(h, c0, end - 1, lo.c2, hi.c2 + 1, k);
    }
  }

  /** Where there are no pixels the totals are zero. */
  lemma {:induction false} BoxEmpty(h: array3<nat>, lo: Cell, hi: Cell, end: nat, k: nat)
    requires Inside(h, lo, hi) && end <= hi.c0 + 1
    requires forall a, b, c :: lo.c0 <= a < end && lo.c1 <= b <= hi.c1 && lo.c2 <= c <= hi.c2 ==> h[a, b, c] == 0
    ensures BoxSum(h, lo, hi, end, k) == 0
    decreases end
  {
    if end > lo.c0 {
      BoxEmpty(h, lo, hi, end - 1, k);
      PlaneEmpty(h, end - 1, lo, hi, hi.c1 + 1, k);
    }
  }

  /** The mean is the quotient of the totals, rounded to the nearest integer. */
  lemma MeanNearest(h: array3<nat>, lo: Cell, hi: Cell, k: nat)
    requires Inside(h, lo, hi) && BoxSum(h, lo, hi, hi.c0 + 1, 3) > 0
    ensures var total := BoxSum(h, lo, hi, hi.c0 + 1, 3);
            -(total as int) < 2 * (Mean(h, lo, hi, k) * total - BoxSum(h, lo, hi, hi.c0 + 1, k)) <= total
  {
    hide BoxSum;
    var total, sum := BoxSum(h, lo, hi, hi.c0 + 1, 3), BoxSum(h, lo, hi, hi.c0 + 1, k);
    NearestQuotient(sum, total);
  }

  lemma NearestQuotient(sum: nat, total: nat)
    requires total > 0
    ensures -(total as int) < 2 * ((sum + total / 2) / total * total - sum) <= total
  {
    var q, r := (sum + total / 2) / total, (sum + total / 2) % total;
    assert sum + total / 2 == q * total + r;
  }

  // ----- the totals fit -----

  /** A histogram as prescan_quantize leaves it: 16-bit counts. */
  ghost predicate Counted(h: array3<nat>)
    reads h
  {
    && h.Length0 == HIST_C0 && h.Length1 == HIST_C1 && h.Length2 == HIST_C2
    && forall a, b, c :: 0 <= a < HIST_C0 && 0 <= b < HIST_C1 && 0 <= c < HIST_C2 ==> h[a, b, c] <= 65535
  }

  lemma WeightedCount(c0: nat, c1: nat, c2: nat, k: nat, count: nat)
    requires c0 < HIST_C0 && c1 < HIST_C1 && c2 < HIST_C2 && count <= 65535
    ensures Weight(c0, c1, c2, k) * count <= 255 * 65535
  {
    var w := Weight(c0, c1, c2, k);
    assert w <= 255;
    MulLess(w, 255, count);
  }

  lemma {:induction false} LineBounded(h: array3<nat>, c0: nat, c1: nat, c2: nat, end: nat, k: nat)
    requires Counted(h) && c0 < HIST_C0 && c1 < HIST_C1 && end <= HIST_C2
    ensures LineSum(h, c0, c1, c2, end, k) <= 255 * 65535 * end
    decreases end
  {
    hide Weight;
    if end > c2 {
      LineBounded(h, c0, c1, c2, end - 1, k);
      WeightedCount(c0, c1, end - 1, k, h[c0, c1, end - 1]);
    }
  }

  lemma {:induction false} PlaneBounded(h: array3<nat>, c0: nat, lo: Cell, hi: Cell, end: nat, k: nat)
    requires Counted(h) && Inside(h, lo, hi) && c0 < HIST_C0 && end <= HIST_C1
    ensures PlaneSum(h, c0, lo, hi, end, k) <= 255 * 65535 * HIST_C2 * end
    decreases end
  {
    hide LineSum;
    if end > lo.c1 {
      PlaneBounded(h, c0, lo, hi, end - 1, k);
      LineBounded(h, c0, end - 1, lo.c2, hi.c2 + 1, k);
    }
  }

  /** The totals that compute_color accumulates, and the rounding term added to them, fit a 64-bit long for any image. */
  lemma {:induction false} TotalsFit(h: array3<nat>, lo: Cell, hi: Cell, end: nat, k: nat)
    requires Counted(h) && Inside(h, lo, hi) && end <= HIST_C0
    ensures BoxSum(h, lo, hi, end, k) <= 255 * 65535 * HIST_C2 * HIST_C1 * end
    ensures BoxSum(h, lo, hi, end, k) < 0x4000_0000_0000_0000
    decreases end
  {
    hide PlaneSum;
    if end > lo.c0 {
      TotalsFit(h, lo, hi, end - 1, k);
      PlaneBounded(h, end - 1, lo, hi, hi.c1 + 1, k);
    }
  }

  /** compute_color */
  method ComputeColor(h: array3<nat>, b: Box) returns (color: Point)
    requires h.Length0 == HIST_C0 && h.Length1 == HIST_C1 && h.Length2 == HIST_C2 && Good(h, b)
    ensures BoxSum(h, b.lo, b.hi, b.hi.c0 + 1, 3) > 0
    ensures color == Point(Mean(h, b.lo, b.hi, 0), Mean(h, b.lo, b.hi, 1), Mean(h, b.lo, b.hi, 2))
    ensures IsColor(color)
    ensures var l, u := Center(b.lo.c0, b.lo.c1, b.lo.c2), Center(b.hi.c0, b.hi.c1, b.hi.c2);
            l.c0 <= color.c0 <= u.c0 && l.c1 <= color.c1 <= u.c1 && l.c2 <= color.c2 <= u.c2
  {
    hide LineSum, PlaneSum, BoxSum, Used, Tight, Volume;
    var lo, hi := b.lo, b.hi;
    MeanInBox(h, lo, hi, 0);
    MeanInBox(h, lo, hi, 1);
    MeanInBox(h, lo, hi, 2);
    var total, c0total, c1total, c2total := SumBox(h, lo, hi);
    color := Point((c0total + total / 2) / total, (c1total + total / 2) / total, (c2total + total / 2) / total);
  }

  /** The pixel count and the three weighted totals, summed over the nonzero cells. */
  method SumBox(h: array3<nat>, lo: Cell, hi: Cell) returns (total: nat, c0total: nat, c1total: nat, c2total: nat)
    requires Inside(h, lo, hi)
    ensures total == BoxSum(h, lo, hi, hi.c0 + 1, 3) && c0total == BoxSum(h, lo, hi, hi.c0 + 1, 0)
    ensures c1total == BoxSum(h, lo, hi, hi.c0 + 1, 1) && c2total == BoxSum(h, lo, hi, hi.c0 + 1, 2)
  {
    hide PlaneSum;
    total, c0total, c1total, c2total := 0, 0, 0, 0;
    var c0 := lo.c0;
    while c0 <= hi.c0
      invariant lo.c0 <= c0 <= hi.c0 + 1
      invariant total == BoxSum(h, lo, hi, c0, 3) && c0total == BoxSum(h, lo, hi, c0, 0)
      invariant c1total == BoxSum(h, lo, hi, c0, 1) && c2total == BoxSum(h, lo, hi, c0, 2)
    {
      var t, t0, t1, t2 := SumPlane(h, lo, hi, c0);
      total, c0total, c1total, c2total := total + t, c0total + t0, c1total + t1, c2total + t2;
      c0 := c0 + 1;
    }
  }

  /** The same for one plane of the box. */
  method SumPlane(h: array3<nat>, lo: Cell, hi: Cell, c0: nat) returns (total: nat, c0total: nat, c1total: nat, c2total: nat)
    requires Inside(h, lo, hi) && c0 < h.Length0
    ensures total == PlaneSum(h, c0, lo, hi, hi.c1 + 1, 3) && c0total == PlaneSum(h, c0, lo, hi, hi.c1 + 1, 0)
    ensures c1total == PlaneSum(h, c0, lo, hi, hi.c1 + 1, 1) && c2total == PlaneSum(h, c0, lo, hi, hi.c1 + 1, 2)
  {
    hide LineSum;
    total, c0total, c1total, c2total := 0, 0, 0, 0;
    var c1 := lo.c1;
    while c1 <= hi.c1
      invariant lo.c1 <= c1 <= hi.c1 + 1
      invariant total == PlaneSum(h, c0, lo, hi, c1, 3) && c0total == PlaneSum(h, c0, lo, hi, c1, 0)
      invariant c1total == PlaneSum(h, c0, lo, hi, c1, 1) && c2total == PlaneSum(h, c0, lo, hi, c1, 2)
    {
      var t, t0, t1, t2 := SumLine(h, lo, hi, c0, c1);
      total, c0total, c1total, c2total := total + t, c0total + t0, c1total + t1, c2total + t2;
      c1 := c1 + 1;
    }
  }

  /** The same for one line. */
  method SumLine(h: array3<nat>, lo: Cell, hi: Cell, c0: nat, c1: nat) returns (total: nat, c0total: nat, c1total: nat, c2total: nat)
    requires Inside(h, lo, hi) && c0 < h.Length0 && c1 < h.Length1
    ensures total == LineSum(h, c0, c1, lo.c2, hi.c2 + 1, 3) && c0total == LineSum(h, c0, c1, lo.c2, hi.c2 + 1, 0)
    ensures c1total == LineSum(h, c0, c1, lo.c2, hi.c2 + 1, 1) && c2total == LineSum(h, c0, c1, lo.c2, hi.c2 + 1, 2)
  {
    total, c0total, c1total, c2total := 0, 0, 0, 0;
    var c2 := lo.c2;
    while c2 <= hi.c2
      invariant lo.c2 <= c2 <= hi.c2 + 1
      invariant total == LineSum(h, c0, c1, lo.c2, c2, 3) && c0total == LineSum(h, c0, c1, lo.c2, c2, 0)
      invariant c1total == LineSum(h, c0, c1, lo.c2, c2, 1) && c2total == LineSum(h, c0, c1, lo.c2, c2, 2)
    {
      var count := h[c0, c1, c2];
      if count != 0 {
        total := total + count;
        c0total := c0total + (8 * c0 + 4) * count;
        c1total := c1total + (4 * c1 + 2) * count;
        c2total := c2total + (8 * c2 + 4) * count;
      }
      c2 := c2 + 1;
    }
  }

  /** The cells of a whole histogram. */
  const LAST := Cell(HIST_C0 - 1, HIST_C1 - 1, HIST_C2 - 1)

  /** The colour is the mean of the box, which some pixel is in. */
  ghost predicate Represents(h: array3<nat>, box: Box, color: Point)
    reads h
  {
    && Inside(h, box.lo, box.hi) && BoxSum(h, box.lo, box.hi, box.hi.c0 + 1, 3) > 0 && IsColor(color)
    && color == Point(Mean(h, box.lo, box.hi, 0), Mean(h, box.lo, box.hi, 1), Mean(h, box.lo, box.hi, 2))
  }

  /** select_colors, after at least one pixel was counted: as many colours as wanted, or one per used cell if
      there are fewer; the boxes they stand for are disjoint, tight and cover all used cells, and come from the tight box
      around them by cutting. */
  method SelectColors(h: array3<nat>, desired: nat, colormap: array<Point>) returns (boxlist: seq<Box>, actual: nat, ghost run: seq<seq<Box>>, ghost ws: seq<nat>)
    requires h.Length0 == HIST_C0 && h.Length1 == HIST_C1 && h.Length2 == HIST_C2
    requires desired >= 1 && colormap.Length == desired
    requires Used(h, Cell(0, 0, 0), LAST) != {}
    modifies colormap
    ensures actual == |boxlist| == if |Used(h, Cell(0, 0, 0), LAST)| < desired then |Used(h, Cell(0, 0, 0), LAST)| else desired
    ensures Disjoint(h, boxlist) && Union(h, boxlist) == Used(h, Cell(0, 0, 0), LAST)
    ensures forall i :: 0 <= i < |boxlist| ==> Represents(h, boxlist[i], colormap[i])
    ensures CutRun(h, run, ws, desired) && run[|ws|] == boxlist
    ensures |run[0]| == 1 && Good(h, run[0][0]) && Used(h, run[0][0].lo, run[0][0].hi) == Used(h, Cell(0, 0, 0), LAST)
  {
    hide Used, Tight, Volume, BoxSum, Mean, CutRun;
    var first := UpdateBox(h, Cell(0, 0, 0), LAST);
    assert [first][..0] == [];
    assert Union(h, [first]) == Used(h, first.lo, first.hi);
    boxlist, run, ws := MedianCut(h, [first], desired);
    actual := |boxlist|;
    var i := 0;
    while i < actual
      invariant 0 <= i <= actual
      invariant forall k :: 0 <= k < i ==> Represents(h, boxlist[k], colormap[k])
    {
      colormap[i] := ComputeColor(h, boxlist[i]);
      i := i + 1;
    }
  }
}
