/** Component sizes in blocks, and the order in which the MCUs of a scan visit the blocks
    (jdinput.c, jdcoefct.c, jutils.c; sections A.1 and A.2 of ITU-T T.81). */
module ScanGeometry {
  const DCTSIZE := 8
  const MAX_COMPS_IN_SCAN := 4
  const D_MAX_BLOCKS_IN_MCU := 10

  /** jm_jdiv_round_up */
  function CeilDiv(a: nat, b: nat): nat
    requires b > 0
  {
    (a + b - 1) / b
  }

  /** jm_jround_up */
  function RoundUp(a: nat, b: nat): nat
    requires b > 0
  {
    var s := a + b - 1;
    s - s % b
  }

  lemma MulMonotone(x: int, y: int, b: nat)
    requires x <= y
    ensures x * b <= y * b
  {
  }

  /** q is the rounded-up quotient exactly when q multiples of b are the least that reach a. */
  lemma CeilIs(a: nat, b: nat, q: int)
    requires b > 0
    ensures (q - 1) * b < a <= q * b <==> q == CeilDiv(a, b)
  {
    var d, r := CeilDiv(a, b), (a + b - 1) % b;
    assert a + b - 1 == d * b + r;
    if q < d {
      MulMonotone(q, d - 1, b);
    } else if q > d {
      MulMonotone(d, q - 1, b);
    }
  }

  lemma RoundUpIs(a: nat, b: nat)
    requires b > 0
    ensures RoundUp(a, b) == CeilDiv(a, b) * b
  {
  }

  lemma CeilFloor(w: int, h: nat, b: nat, p: int, q: int)
    requires h > 0 && q * h < p && (p - 1) * b < w * h
    ensures q * b < w
  {
    MulMonotone(q * h, p - 1, b);
    Swap(q, h, b);
    if w <= q * b {
      MulMonotone(w, q * b, h);
    }
  }

  lemma CeilReach(w: int, h: nat, b: nat, p: int, q: int)
    requires h > 0 && p <= q * h && w * h <= p * b
    ensures w <= q * b
  {
    MulMonotone(p, q * h, b);
    Swap(q, h, b);
    if w > q * b {
      MulMonotone(q * b + 1, w, h);
    }
  }

  /** Nested rounding up is one rounding up, and a common factor cancels. */
  lemma CeilOfCeil(w: nat, h: nat, b: nat)
    requires h > 0 && b > 0
    ensures CeilDiv(CeilDiv(w * h, b), h) == CeilDiv(w, b)
  {
    hide CeilDiv;
    var p: int := CeilDiv(w * h, b);
    var q: int := CeilDiv(p, h);
    CeilIs(w * h, b, p);
    CeilIs(p, h, q);
    CeilFloor(w, h, b, p, q - 1);
    CeilReach(w, h, b, p, q);
    CeilIs(w, b, q);
  }

  lemma Swap(x: int, y: int, z: int)
    ensures (x * y) * z == (x * z) * y
  {
  }

  /** Rounding up twice is rounding up once. */
  lemma CeilTwice(a: nat, b: nat, c: nat)
    requires b > 0 && c > 0
    ensures c * b > 0 && CeilDiv(CeilDiv(a, b), c) == CeilDiv(a, c * b)
  {
    hide CeilDiv;
    var p: int := CeilDiv(a, b);
    var q: int := CeilDiv(p, c);
    MulMonotone(1, c, b);
    CeilIs(a, b, p);
    CeilIs(p, c, q);
    MulMonotone((q - 1) * c, p - 1, b);
    MulMonotone(p, q * c, b);
    Associate(q - 1, c, b);
    Associate(q, c, b);
    CeilIs(a, c * b, q);
  }

  lemma Associate(x: int, y: int, z: int)
    ensures x * y * z == x * (y * z)
  {
  }

  /** n * w, as n rows of w blocks. */
  function Times(n: nat, w: nat): nat {
    if n == 0 then 0 else Times(n - 1, w) + w
  }

  lemma {:induction false} TimesIs(n: nat, w: nat)
    ensures Times(n, w) == n * w
  {
    if n > 0 {
      TimesIs(n - 1, w);
      assert n * w == (n - 1) * w + w;
    }
  }

  lemma {:induction false} RowsApart(y: nat, v: nat, w: nat)
    requires y < v
    ensures Times(y, w) + w <= Times(v, w)
    decreases v
  {
    if y + 1 < v {
      RowsApart(y, v - 1, w);
    }
  }

  // ----- components -----

  datatype Component = Component(h: nat, v: nat)

  datatype ImageRaw = Image(width: nat, height: nat, comps: seq<Component>)

  /** Dimensions and sampling factors as initial_setup accepts them. */
  type Image = im: ImageRaw |
      && im.width > 0 && im.height > 0 && |im.comps| > 0
      && forall k :: 0 <= k < |im.comps| ==> 1 <= im.comps[k].h <= 4 && 1 <= im.comps[k].v <= 4
    witness ImageRaw.Image(1, 1, [Component(1, 1)])

  function MaxH(comps: seq<Component>): (m: nat)
    ensures m >= 1 && forall k :: 0 <= k < |comps| ==> comps[k].h <= m
    ensures m == 1 || exists k :: 0 <= k < |comps| && comps[k].h == m
  {
    if comps == [] then 1
    else
      var m, c := MaxH(comps[..|comps| - 1]), comps[|comps| - 1].h;
      if c > m then c else m
  }

  function MaxV(comps: seq<Component>): (m: nat)
    ensures m >= 1 && forall k :: 0 <= k < |comps| ==> comps[k].v <= m
    ensures m == 1 || exists k :: 0 <= k < |comps| && comps[k].v == m
  {
    if comps == [] then 1
    else
      var m, c := MaxV(comps[..|comps| - 1]), comps[|comps| - 1].v;
      if c > m then c else m
  }

  function WidthInBlocks(im: Image, k: nat): nat
    requires k < |im.comps|
  {
    CeilDiv(im.width * im.comps[k].h, MaxH(im.comps) * DCTSIZE)
  }

  function HeightInBlocks(im: Image, k: nat): nat
    requires k < |im.comps|
  {
    CeilDiv(im.height * im.comps[k].v, MaxV(im.comps) * DCTSIZE)
  }

  function TotalImcuRows(im: Image): nat {
    CeilDiv(im.height, MaxV(im.comps) * DCTSIZE)
  }

  function TotalImcuCols(im: Image): nat {
    CeilDiv(im.width, MaxH(im.comps) * DCTSIZE)
  }

  /** The size of the virtual array of a component: padded to whole sampling factors. */
  function PaddedWidth(im: Image, k: nat): nat
    requires k < |im.comps|
  {
    RoundUp(WidthInBlocks(im, k), im.comps[k].h)
  }

  function PaddedHeight(im: Image, k: nat): nat
    requires k < |im.comps|
  {
    RoundUp(HeightInBlocks(im, k), im.comps[k].v)
  }

  /** However the rounding is nested, all components agree on the number of iMCU rows and columns. */
  lemma ComponentsAgree(im: Image, k: nat)
    requires k < |im.comps|
    ensures CeilDiv(WidthInBlocks(im, k), im.comps[k].h) == TotalImcuCols(im)
    ensures CeilDiv(HeightInBlocks(im, k), im.comps[k].v) == TotalImcuRows(im)
    ensures PaddedWidth(im, k) == Times(TotalImcuCols(im), im.comps[k].h)
    ensures PaddedHeight(im, k) == Times(TotalImcuRows(im), im.comps[k].v)
    ensures TotalImcuRows(im) > 0 && TotalImcuCols(im) > 0
    ensures 0 < WidthInBlocks(im, k) <= PaddedWidth(im, k) && 0 < HeightInBlocks(im, k) <= PaddedHeight(im, k)
  {
    hide CeilDiv, RoundUp, MaxH, MaxV;
    var c := im.comps[k];
    CeilOfCeil(im.width, c.h, MaxH(im.comps) * DCTSIZE);
    CeilOfCeil(im.height, c.v, MaxV(im.comps) * DCTSIZE);
    TimesIs(TotalImcuCols(im), c.h);
    TimesIs(TotalImcuRows(im), c.v);
    RoundUpIs(WidthInBlocks(im, k), c.h);
    RoundUpIs(HeightInBlocks(im, k), c.v);
    CeilIs(WidthInBlocks(im, k), c.h, TotalImcuCols(im));
    CeilIs(HeightInBlocks(im, k), c.v, TotalImcuRows(im));
    CeilIs(im.width, MaxH(im.comps) * DCTSIZE, TotalImcuCols(im));
    CeilIs(im.height, MaxV(im.comps) * DCTSIZE, TotalImcuRows(im));
    CeilIs(im.width * c.h, MaxH(im.comps) * DCTSIZE, WidthInBlocks(im, k));
    CeilIs(im.height * c.v, MaxV(im.comps) * DCTSIZE, HeightInBlocks(im, k));
  }

  /** Section A.1.1 of ITU-T T.81: a component has its share of the samples across and down, rounded up; its blocks of 8 by 8
      are as many as cover them, and the iMCUs as many as cover the image. */
  lemma BlocksCover(im: Image, k: nat, across: nat, down: nat)
    requires k < |im.comps|
    requires (across - 1) * MaxH(im.comps) < im.width * im.comps[k].h <= across * MaxH(im.comps)
    requires (down - 1) * MaxV(im.comps) < im.height * im.comps[k].v <= down * MaxV(im.comps)
    ensures (WidthInBlocks(im, k) - 1) * 8 < across <= WidthInBlocks(im, k) * 8
    ensures (HeightInBlocks(im, k) - 1) * 8 < down <= HeightInBlocks(im, k) * 8
    ensures (TotalImcuCols(im) - 1) * (MaxH(im.comps) * 8) < im.width <= TotalImcuCols(im) * (MaxH(im.comps) * 8)
    ensures (TotalImcuRows(im) - 1) * (MaxV(im.comps) * 8) < im.height <= TotalImcuRows(im) * (MaxV(im.comps) * 8)
  {
    hide CeilDiv, MaxH, MaxV;
    CeilIs(im.width * im.comps[k].h, MaxH(im.comps), across);
    CeilIs(im.height * im.comps[k].v, MaxV(im.comps), down);
    CeilTwice(im.width * im.comps[k].h, MaxH(im.comps), 8);
    CeilTwice(im.height * im.comps[k].v, MaxV(im.comps), 8);
    CeilIs(across, 8, WidthInBlocks(im, k));
    CeilIs(down, 8, HeightInBlocks(im, k));
    CeilIs(im.width, MaxH(im.comps) * 8, TotalImcuCols(im));
    CeilIs(im.height, MaxV(im.comps) * 8, TotalImcuRows(im));
  }

  // ----- blocks of the image, one component after another, row by row -----

  function Base(im: Image, k: nat): nat
    requires k <= |im.comps|
  {
    if k == 0 then 0 else Base(im, k - 1) + Times(PaddedHeight(im, k - 1), PaddedWidth(im, k - 1))
  }

  function TotalBlocks(im: Image): nat {
    Base(im, |im.comps|)
  }

  /** The place of the block in row y, column x of component k. */
  function Index(im: Image, k: nat, y: nat, x: nat): nat
    requires k < |im.comps|
  {
    Base(im, k) + Times(y, PaddedWidth(im, k)) + x
  }

  predicate InGrid(im: Image, k: nat, y: nat, x: nat) {
    k < |im.comps| && y < PaddedHeight(im, k) && x < PaddedWidth(im, k)
  }

  lemma {:induction false} BaseMonotone(im: Image, k: nat, l: nat)
    requires k <= l <= |im.comps|
    ensures Base(im, k) <= Base(im, l)
    decreases l - k
  {
    hide PaddedHeight, PaddedWidth;
    if k < l {
      BaseMonotone(im, k, l - 1);
    }
  }

  /** A block lies inside its component's array. */
  lemma IndexInside(im: Image, k: nat, y: nat, x: nat)
    requires InGrid(im, k, y, x)
    ensures Base(im, k) <= Index(im, k, y, x) < Base(im, k + 1) <= TotalBlocks(im)
  {
    hide PaddedHeight, PaddedWidth;
    RowsApart(y, PaddedHeight(im, k), PaddedWidth(im, k));
    BaseMonotone(im, k + 1, |im.comps|);
  }

  /** Different blocks lie in different places; the columns may be counted from any start. */
  lemma IndexInjective(im: Image, k: nat, y: nat, x: nat, l: nat, v: nat, u: nat)
    requires InGrid(im, k, y, x) && InGrid(im, l, v, u)
    ensures Index(im, k, y, x) == Index(im, l, v, u) ==> k == l && y == v && x == u
  {
    hide PaddedHeight, PaddedWidth;
    IndexInside(im, k, y, x);
    IndexInside(im, l, v, u);
    if k < l {
      BaseMonotone(im, k + 1, l);
    } else if l < k {
      BaseMonotone(im, l + 1, k);
    } else if y < v {
      RowsApart(y, v, PaddedWidth(im, k));
    } else if v < y {
      RowsApart(v, y, PaddedWidth(im, k));
    }
  }

  // ----- the blocks of an MCU -----

  /** n blocks side by side */
  function RowList(first: nat, n: nat): (r: seq<nat>)
    ensures |r| == n
  {
    if n == 0 then [] else RowList(first, n - 1) + [first + n - 1]
  }

  /** A rectangle of blocks of component k, row by row. */
  function CompList(im: Image, k: nat, y: nat, x: nat, w: nat, h: nat): (r: seq<nat>)
    requires k < |im.comps|
    ensures |r| == Times(h, w)
  {
    if h == 0 then [] else CompList(im, k, y, x, w, h - 1) + RowList(Index(im, k, y + h - 1, x), w)
  }

  /** A scan selects one or more components of the image. */
  predicate Selects(im: Image, sc: seq<nat>) {
    |sc| > 0 && forall i :: 0 <= i < |sc| ==> sc[i] < |im.comps|
  }

  /** The blocks of the first n components in the MCU at row r, column c of an interleaved scan. */
  function McuPart(im: Image, sc: seq<nat>, r: nat, c: nat, n: nat): seq<nat>
    requires Selects(im, sc) && n <= |sc|
  {
    if n == 0 then []
    else
      var k := sc[n - 1];
      var comp := im.comps[k];
      McuPart(im, sc, r, c, n - 1) + CompList(im, k, Times(r, comp.v), Times(c, comp.h), comp.h, comp.v)
  }

  /** An MCU: one block when the scan has a single component, else a rectangle from each. */
  function Mcu(im: Image, sc: seq<nat>, r: nat, c: nat): seq<nat>
    requires Selects(im, sc)
  {
    if |sc| == 1 then [Index(im, sc[0], r, c)] else McuPart(im, sc, r, c, |sc|)
  }

  function McuRows(im: Image, sc: seq<nat>): nat
    requires Selects(im, sc)
  {
    if |sc| == 1 then HeightInBlocks(im, sc[0]) else TotalImcuRows(im)
  }

  function McuCols(im: Image, sc: seq<nat>): nat
    requires Selects(im, sc)
  {
    if |sc| == 1 then WidthInBlocks(im, sc[0]) else TotalImcuCols(im)
  }

  // ----- the order of blocks in an MCU -----

  lemma {:induction false} RowEntries(first: nat, n: nat)
    ensures forall i :: 0 <= i < n ==> RowList(first, n)[i] == first + i
  {
    if n > 0 {
      RowEntries(first, n - 1);
    }
  }

  /** A rectangle lists its rows from the top, each from the left. */
  lemma {:induction false} RectAt(im: Image, k: nat, top: nat, left: nat, w: nat, h: nat, y: nat, x: nat)
    requires k < |im.comps| && y < h && x < w
    ensures Times(y, w) + x < |CompList(im, k, top, left, w, h)|
    ensures CompList(im, k, top, left, w, h)[Times(y, w) + x] == Index(im, k, top + y, left + x)
    decreases h
  {
    hide PaddedWidth, Base;
    RowsApart(y, h, w);
    if y < h - 1 {
      RectAt(im, k, top, left, w, h - 1, y, x);
    } else {
      RowEntries(Index(im, k, top + y, left), w);
    }
  }

  /** The blocks that the first n components of an interleaved scan have in an MCU. */
  function BlocksBefore(im: Image, sc: seq<nat>, n: nat): nat
    requires Selects(im, sc) && n <= |sc|
  {
    if n == 0 then 0 else BlocksBefore(im, sc, n - 1) + im.comps[sc[n - 1]].v * im.comps[sc[n - 1]].h
  }

  /** Where the i-th component's block in row y, column x of the MCU is in the list, and which block of the image it is. */
  ghost predicate BlockAt(im: Image, sc: seq<nat>, r: nat, c: nat, mcu: seq<nat>, i: nat, y: nat, x: nat)
    requires Selects(im, sc) && i < |sc|
  {
    var comp, at := im.comps[sc[i]], BlocksBefore(im, sc, i) + y * im.comps[sc[i]].h + x;
    at < |mcu| && mcu[at] == Index(im, sc[i], r * comp.v + y, c * comp.h + x)
  }

  /** An MCU lists the components in the order of the scan, and the blocks of each from left to right, from the top down. */
  ghost predicate InOrder(im: Image, sc: seq<nat>, r: nat, c: nat, mcu: seq<nat>)
    requires Selects(im, sc)
  {
    if |sc| == 1 then mcu == [Index(im, sc[0], r, c)]
    else
      && |mcu| == BlocksBefore(im, sc, |sc|)
      && forall i: nat, y: nat, x: nat :: i < |sc| && y < im.comps[sc[i]].v && x < im.comps[sc[i]].h ==> BlockAt(im, sc, r, c, mcu, i, y, x)
  }

  lemma {:induction false} PartLonger(im: Image, sc: seq<nat>, r: nat, c: nat, n: nat, m: nat)
    requires Selects(im, sc) && n <= m <= |sc|
    ensures McuPart(im, sc, r, c, n) <= McuPart(im, sc, r, c, m) && |McuPart(im, sc, r, c, n)| == BlocksBefore(im, sc, n)
    decreases m
  {
    hide CompList;
    if n < m {
      PartLonger(im, sc, r, c, n, m - 1);
    } else if n > 0 {
      PartLonger(im, sc, r, c, n - 1, n - 1);
      TimesIs(im.comps[sc[n - 1]].v, im.comps[sc[n - 1]].h);
    }
  }

  lemma PartAt(im: Image, sc: seq<nat>, r: nat, c: nat, i: nat, y: nat, x: nat)
    requires Selects(im, sc) && i < |sc| && y < im.comps[sc[i]].v && x < im.comps[sc[i]].h
    ensures BlockAt(im, sc, r, c, McuPart(im, sc, r, c, |sc|), i, y, x)
  {
    hide CompList, Index;
    var k := sc[i];
    var comp := im.comps[k];
    PartLonger(im, sc, r, c, i, i);
    PartLonger(im, sc, r, c, i + 1, |sc|);
    TimesIs(r, comp.v);
    TimesIs(c, comp.h);
    TimesIs(y, comp.h);
    RectAt(im, k, Times(r, comp.v), Times(c, comp.h), comp.h, comp.v, y, x);
  }

  lemma McuInOrder(im: Image, sc: seq<nat>, r: nat, c: nat)
    requires Selects(im, sc)
    ensures InOrder(im, sc, r, c, Mcu(im, sc, r, c))
  {
    hide BlockAt, McuPart, Index;
    if |sc| > 1 {
      PartLonger(im, sc, r, c, |sc|, |sc|);
      forall i: nat, y: nat, x: nat | i < |sc| && y < im.comps[sc[i]].v && x < im.comps[sc[i]].h
        ensures BlockAt(im, sc, r, c, Mcu(im, sc, r, c), i, y, x)
      {
        PartAt(im, sc, r, c, i, y, x);
      }
    }
  }

  // ----- each block is visited once -----

  function Count(s: seq<nat>, i: nat): nat {
    multiset(s)[i]
  }

  lemma CountAppend(a: seq<nat>, b: seq<nat>, i: nat)
    ensures Count(a + b, i) == Count(a, i) + Count(b, i)
  {
  }

  predicate Inside(y: nat, x: nat, top: nat, left: nat, h: nat, w: nat) {
    top <= y < top + h && left <= x < left + w
  }

  lemma {:induction false} CountInRow(first: nat, n: nat, i: nat)
    ensures Count(RowList(first, n), i) == if first <= i < first + n then 1 else 0
  {
    if n > 0 {
      CountInRow(first, n - 1, i);
    }
  }

  lemma {:induction false} CountInRect(im: Image, k: nat, y: nat, x: nat, w: nat, h: nat, l: nat, v: nat, u: nat)
    requires InGrid(im, l, v, u) && k < |im.comps| && w > 0
    requires y + h <= PaddedHeight(im, k) && x + w <= PaddedWidth(im, k)
    ensures Count(CompList(im, k, y, x, w, h), Index(im, l, v, u)) == if k == l && Inside(v, u, y, x, h, w) then 1 else 0
  {
    hide Count, Index, PaddedHeight, PaddedWidth, RowList;
    if h > 0 {
      CountInRect(im, k, y, x, w, h - 1, l, v, u);
      CountInRow(Index(im, k, y + h - 1, x), w, Index(im, l, v, u));
      RowMeets(im, k, y + h - 1, x, w, l, v, u);
      CountAppend(CompList(im, k, y, x, w, h - 1), RowList(Index(im, k, y + h - 1, x), w), Index(im, l, v, u));
    } else {
      assert CompList(im, k, y, x, w, h) == [];
      CountInRow(0, 0, Index(im, l, v, u));
      assert RowList(0, 0) == [];
    }
  }

  lemma RowMeets(im: Image, k: nat, y: nat, x: nat, w: nat, l: nat, v: nat, u: nat)
    requires InGrid(im, l, v, u) && k < |im.comps| && w > 0
    requires y < PaddedHeight(im, k) && x + w <= PaddedWidth(im, k)
    ensures Index(im, k, y, x) <= Index(im, l, v, u) < Index(im, k, y, x) + w <==> k == l && y == v && x <= u < x + w
  {
    hide PaddedHeight, PaddedWidth, Base;
    var i, j := Index(im, k, y, x), Index(im, l, v, u);
    if i <= j < i + w {
      IndexInjective(im, k, y, x + (j - i), l, v, u);
    }
  }

  /** How often block i is visited before the MCU at row r, column c. */
  function Visits(im: Image, sc: seq<nat>, r: nat, c: nat, i: nat): nat
    requires Selects(im, sc)
    decreases r, c
  {
    if c > 0 then Visits(im, sc, r, c - 1, i) + Count(Mcu(im, sc, r, c - 1), i)
    else if r > 0 then Visits(im, sc, r - 1, McuCols(im, sc), i)
    else 0
  }

  /** Blocks of component k across and down in one MCU of the scan. */
  function McuWidth(im: Image, sc: seq<nat>, k: nat): (w: nat)
    requires k < |im.comps|
    ensures w > 0
  {
    if |sc| == 1 then 1 else im.comps[k].h
  }

  function McuHeight(im: Image, sc: seq<nat>, k: nat): (h: nat)
    requires k < |im.comps|
    ensures h > 0
  {
    if |sc| == 1 then 1 else im.comps[k].v
  }

  lemma RectFits(im: Image, k: nat, r: nat, c: nat)
    requires k < |im.comps| && r < TotalImcuRows(im) && c < TotalImcuCols(im)
    ensures Times(r, im.comps[k].v) + im.comps[k].v <= PaddedHeight(im, k)
    ensures Times(c, im.comps[k].h) + im.comps[k].h <= PaddedWidth(im, k)
  {
    hide TotalImcuRows, TotalImcuCols, PaddedHeight, PaddedWidth;
    ComponentsAgree(im, k);
    RowsApart(r, TotalImcuRows(im), im.comps[k].v);
    RowsApart(c, TotalImcuCols(im), im.comps[k].h);
  }

  lemma {:induction false} CountInPart(im: Image, sc: seq<nat>, r: nat, c: nat, n: nat, l: nat, v: nat, u: nat)
    requires Selects(im, sc) && n <= |sc| && r < TotalImcuRows(im) && c < TotalImcuCols(im) && InGrid(im, l, v, u)
    ensures Count(McuPart(im, sc, r, c, n), Index(im, l, v, u))
         == if Inside(v, u, Times(r, im.comps[l].v), Times(c, im.comps[l].h), im.comps[l].v, im.comps[l].h) then Count(sc[..n], l) else 0
  {
    hide Count, Inside, Index, PaddedHeight, PaddedWidth, TotalImcuRows, TotalImcuCols, CompList;
    var i := Index(im, l, v, u);
    CountNone(i);
    CountNone(l);
    if n > 0 {
      var k := sc[n - 1];
      var comp := im.comps[k];
      CountInPart(im, sc, r, c, n - 1, l, v, u);
      RectFits(im, k, r, c);
      var rect := CompList(im, k, Times(r, comp.v), Times(c, comp.h), comp.h, comp.v);
      CountInRect(im, k, Times(r, comp.v), Times(c, comp.h), comp.h, comp.v, l, v, u);
      CountAppend(McuPart(im, sc, r, c, n - 1), rect, i);
      assert sc[..n] == sc[..n - 1] + [k];
      CountAppend(sc[..n - 1], [k], l);
      CountOne(k, l);
    }
  }

  lemma CountNone(i: nat)
    ensures Count([], i) == 0
  {
  }

  lemma CountOne(k: nat, i: nat)
    ensures Count([k], i) == if k == i then 1 else 0
  {
  }

  lemma CountInMcu(im: Image, sc: seq<nat>, r: nat, c: nat, l: nat, v: nat, u: nat)
    requires Selects(im, sc) && r < McuRows(im, sc) && c < McuCols(im, sc) && InGrid(im, l, v, u)
    ensures Count(Mcu(im, sc, r, c), Index(im, l, v, u))
         == if Inside(v, u, Times(r, McuHeight(im, sc, l)), Times(c, McuWidth(im, sc, l)), McuHeight(im, sc, l), McuWidth(im, sc, l))
            then Count(sc, l) else 0
  {
    hide Count, Index, PaddedHeight, PaddedWidth, TotalImcuRows, TotalImcuCols, HeightInBlocks, WidthInBlocks, McuPart;
    if |sc| == 1 {
      TimesIs(r, 1);
      TimesIs(c, 1);
      ComponentsAgree(im, sc[0]);
      IndexInjective(im, sc[0], r, c, l, v, u);
      CountOne(Index(im, sc[0], r, c), Index(im, l, v, u));
      assert sc == [sc[0]];
      CountOne(sc[0], l);
    } else {
      CountInPart(im, sc, r, c, |sc|, l, v, u);
      assert sc[..|sc|] == sc;
    }
  }

  predicate VisitedBefore(im: Image, sc: seq<nat>, r: nat, c: nat, k: nat, y: nat, x: nat)
    requires Selects(im, sc) && k < |im.comps|
  {
    var h, w := McuHeight(im, sc, k), McuWidth(im, sc, k);
    (y < Times(r, h) && x < Times(McuCols(im, sc), w)) || (Times(r, h) <= y < Times(r, h) + h && x < Times(c, w))
  }

  lemma {:induction false} VisitsSoFar(im: Image, sc: seq<nat>, r: nat, c: nat, k: nat, y: nat, x: nat)
    requires Selects(im, sc) && InGrid(im, k, y, x)
    requires r <= McuRows(im, sc) && c <= McuCols(im, sc) && (r == McuRows(im, sc) ==> c == 0)
    ensures Visits(im, sc, r, c, Index(im, k, y, x)) == if VisitedBefore(im, sc, r, c, k, y, x) then Count(sc, k) else 0
    decreases r, c
  {
    hide Count, Index, InGrid, McuRows, McuCols, Mcu, McuHeight, McuWidth;
    if c > 0 {
      VisitsSoFar(im, sc, r, c - 1, k, y, x);
      CountInMcu(im, sc, r, c - 1, k, y, x);
    } else if r > 0 {
      VisitsSoFar(im, sc, r - 1, McuCols(im, sc), k, y, x);
    }
  }

  /** A scan visits every block of each of its components once: the whole padded grid when it is
      interleaved, the unpadded one when it is not; and no others. */
  lemma ScanVisitsOnce(im: Image, sc: seq<nat>, k: nat, y: nat, x: nat)
    requires Selects(im, sc) && InGrid(im, k, y, x)
    ensures Visits(im, sc, McuRows(im, sc), 0, Index(im, k, y, x))
         == if |sc| > 1 || (y < HeightInBlocks(im, k) && x < WidthInBlocks(im, k)) then multiset(sc)[k] else 0
  {
    hide Visits, Index, PaddedHeight, PaddedWidth, TotalImcuRows, TotalImcuCols, HeightInBlocks, WidthInBlocks;
    VisitsSoFar(im, sc, McuRows(im, sc), 0, k, y, x);
    ComponentsAgree(im, k);
    if |sc| == 1 {
      TimesIs(McuRows(im, sc), 1);
      TimesIs(McuCols(im, sc), 1);
      assert sc == [sc[0]];
      CountOne(sc[0], k);
    }
  }

  // ----- an MCU names blocks that exist, as many as there are membership entries -----

  ghost predicate AllBelow(s: seq<nat>, n: nat) {
    forall i :: 0 <= i < |s| ==> s[i] < n
  }

  lemma {:induction false} RectInside(im: Image, k: nat, y: nat, x: nat, w: nat, h: nat)
    requires k < |im.comps| && w > 0 && y + h <= PaddedHeight(im, k) && x + w <= PaddedWidth(im, k)
    ensures AllBelow(CompList(im, k, y, x, w, h), TotalBlocks(im))
  {
    hide PaddedHeight, PaddedWidth, TotalBlocks;
    if h > 0 {
      RectInside(im, k, y, x, w, h - 1);
      RowEntries(Index(im, k, y + h - 1, x), w);
      IndexInside(im, k, y + h - 1, x + w - 1);
    }
  }

  lemma {:induction false} PartInside(im: Image, sc: seq<nat>, r: nat, c: nat, n: nat)
    requires Selects(im, sc) && n <= |sc| && r < TotalImcuRows(im) && c < TotalImcuCols(im)
    ensures AllBelow(McuPart(im, sc, r, c, n), TotalBlocks(im))
  {
    hide TotalBlocks, TotalImcuRows, TotalImcuCols, PaddedHeight, PaddedWidth, CompList;
    if n > 0 {
      var k := sc[n - 1];
      var comp := im.comps[k];
      PartInside(im, sc, r, c, n - 1);
      RectFits(im, k, r, c);
      RectInside(im, k, Times(r, comp.v), Times(c, comp.h), comp.h, comp.v);
    }
  }

  /** The component (by its place in the scan) of each block of an MCU. */
  function Membership(im: Image, sc: seq<nat>, n: nat): (m: seq<nat>)
    requires Selects(im, sc) && n <= |sc|
    ensures forall i :: 0 <= i < |m| ==> m[i] < n
  {
    if n == 0 then []
    else
      Membership(im, sc, n - 1) + seq(Times(McuHeight(im, sc, sc[n - 1]), McuWidth(im, sc, sc[n - 1])), _ => n - 1)
  }

  lemma {:induction false} PartLength(im: Image, sc: seq<nat>, r: nat, c: nat, n: nat)
    requires Selects(im, sc) && n <= |sc| != 1
    ensures |McuPart(im, sc, r, c, n)| == |Membership(im, sc, n)|
  {
    hide CompList;
    if n > 0 {
      PartLength(im, sc, r, c, n - 1);
    }
  }

  /** Every MCU of a scan names blocks inside the arrays, one for each membership entry. */
  lemma McuInside(im: Image, sc: seq<nat>, r: nat, c: nat)
    requires Selects(im, sc) && r < McuRows(im, sc) && c < McuCols(im, sc)
    ensures AllBelow(Mcu(im, sc, r, c), TotalBlocks(im))
    ensures |Mcu(im, sc, r, c)| == |Membership(im, sc, |sc|)|
  {
    hide TotalBlocks, TotalImcuRows, TotalImcuCols, PaddedHeight, PaddedWidth, McuPart, HeightInBlocks, WidthInBlocks, Index;
    if |sc| == 1 {
      ComponentsAgree(im, sc[0]);
      IndexInside(im, sc[0], r, c);
      assert Membership(im, sc, 0) == [];
      assert Times(0, 1) == 0;
      assert Times(1, 1) == 1;
    } else {
      PartInside(im, sc, r, c, |sc|);
      PartLength(im, sc, r, c, |sc|);
    }
  }

  // ----- per_scan_setup -----

  datatype ScanLayout = ScanLayout(mcusPerRow: nat, mcuRows: nat, mcuWidth: seq<nat>, mcuHeight: seq<nat>,
                                   lastColWidth: seq<nat>, lastRowHeight: seq<nat>, membership: seq<nat>)

  /** The size of the last of the parts of size h that n is cut into. */
  function LastPart(n: nat, h: nat): nat
    requires h > 0
  {
    if n % h == 0 then h else n % h
  }

  lemma LastPartIs(n: nat, h: nat)
    requires n > 0 && h > 0
    ensures 1 <= LastPart(n, h) <= h && (CeilDiv(n, h) - 1) * h + LastPart(n, h) == n
  {
    var q, t := CeilDiv(n, h), LastPart(n, h);
    var d := n / h;
    assert n == d * h + n % h;
    var e := if n % h == 0 then d - 1 else d;
    assert e * h + t == n;
    assert (e + 1) * h == e * h + h;
    CeilIs(n, h, e + 1);
  }

  /** What the last MCU column and row of a component hold, in terms of its size. */
  ghost predicate LastPartsRight(im: Image, sc: seq<nat>, i: nat, s: ScanLayout)
    requires Selects(im, sc) && i < |sc|
    requires i < |s.mcuWidth| && i < |s.mcuHeight| && i < |s.lastColWidth| && i < |s.lastRowHeight|
  {
    var k := sc[i];
    && s.mcuWidth[i] == McuWidth(im, sc, k) && s.mcuHeight[i] == McuHeight(im, sc, k)
    && (McuCols(im, sc) - 1) * s.mcuWidth[i] + s.lastColWidth[i] == WidthInBlocks(im, k)
    && 1 <= s.lastColWidth[i] <= s.mcuWidth[i]
    && (TotalImcuRows(im) - 1) * im.comps[k].v + s.lastRowHeight[i] == HeightInBlocks(im, k)
    && 1 <= s.lastRowHeight[i] <= im.comps[k].v
  }

  lemma {:induction false} MembershipGrows(im: Image, sc: seq<nat>, n: nat, m: nat)
    requires Selects(im, sc) && n <= m <= |sc|
    ensures |Membership(im, sc, n)| <= |Membership(im, sc, m)|
    decreases m
  {
    if n < m {
      MembershipGrows(im, sc, n, m - 1);
    }
  }

  lemma LastParts(im: Image, sc: seq<nat>, k: nat)
    requires Selects(im, sc) && k < |im.comps| && (|sc| == 1 ==> sc[0] == k)
    ensures var w := McuWidth(im, sc, k); var t := if |sc| == 1 then 1 else LastPart(WidthInBlocks(im, k), w);
            (McuCols(im, sc) - 1) * w + t == WidthInBlocks(im, k) && 1 <= t <= w
    ensures var v := im.comps[k].v; var t := LastPart(HeightInBlocks(im, k), v);
            (TotalImcuRows(im) - 1) * v + t == HeightInBlocks(im, k) && 1 <= t <= v
  {
    hide WidthInBlocks, HeightInBlocks, TotalImcuCols, TotalImcuRows, PaddedWidth, PaddedHeight, CeilDiv, LastPart;
    ComponentsAgree(im, k);
    LastPartIs(WidthInBlocks(im, k), im.comps[k].h);
    LastPartIs(HeightInBlocks(im, k), im.comps[k].v);
  }

  /** per_scan_setup: refuses an interleaved scan of over four components or ten blocks per MCU;
      otherwise the layout of the scan's MCUs. */
  method PerScanSetup(im: Image, sc: seq<nat>) returns (ok: bool, s: ScanLayout)
    requires Selects(im, sc)
    ensures ok <==> |sc| == 1 || (|sc| <= MAX_COMPS_IN_SCAN && |Membership(im, sc, |sc|)| <= D_MAX_BLOCKS_IN_MCU)
    ensures ok ==> |s.mcuWidth| == |s.mcuHeight| == |s.lastColWidth| == |s.lastRowHeight| == |sc|
    ensures ok ==> forall i :: 0 <= i < |sc| ==> LastPartsRight(im, sc, i, s)
    ensures ok ==> s.mcusPerRow == McuCols(im, sc) && s.mcuRows == McuRows(im, sc)
    ensures ok ==> s.membership == Membership(im, sc, |sc|)
  {
    hide WidthInBlocks, HeightInBlocks, LastPart, McuCols, McuRows, TotalImcuCols, TotalImcuRows;
    s := ScanLayout(McuCols(im, sc), McuRows(im, sc), [], [], [], [], []);
    if |sc| == 1 {
      var k := sc[0];
      var v := im.comps[k].v;
      LastParts(im, sc, k);
      s := ScanLayout(McuCols(im, sc), McuRows(im, sc), [1], [1], [1], [LastPart(HeightInBlocks(im, k), v)], [0]);
      assert Membership(im, sc, 0) == [] && Times(0, 1) == 0 && Times(1, 1) == 1;
      assert Membership(im, sc, 1) == [0];
      return true, s;
    }
    if |sc| > MAX_COMPS_IN_SCAN {
      return false, s;
    }
    var ci := 0;
    while ci < |sc|
      invariant 0 <= ci <= |sc|
      invariant |s.mcuWidth| == |s.mcuHeight| == |s.lastColWidth| == |s.lastRowHeight| == ci
      invariant forall i :: 0 <= i < ci ==> LastPartsRight(im, sc, i, s)
      invariant s.mcusPerRow == McuCols(im, sc) && s.mcuRows == McuRows(im, sc)
      invariant s.membership == Membership(im, sc, ci) && |s.membership| <= D_MAX_BLOCKS_IN_MCU
    {
      var k := sc[ci];
      var w, h := im.comps[k].h, im.comps[k].v;
      var mcublks := h * w;
      TimesIs(h, w);
      LastParts(im, sc, k);
      if |s.membership| + mcublks > D_MAX_BLOCKS_IN_MCU {
        MembershipGrows(im, sc, ci + 1, |sc|);
        return false, s;
      }
      ghost var before := s;
      s := s.(mcuWidth := s.mcuWidth + [w], mcuHeight := s.mcuHeight + [h],
              lastColWidth := s.lastColWidth + [LastPart(WidthInBlocks(im, k), w)],
              lastRowHeight := s.lastRowHeight + [LastPart(HeightInBlocks(im, k), h)],
              membership := s.membership + seq(mcublks, _ => ci));
      forall i | 0 <= i <= ci
        ensures LastPartsRight(im, sc, i, s)
      {
        assert i < ci ==> LastPartsRight(im, sc, i, before);
      }
      ci := ci + 1;
    }
    ok := true;
  }
}
