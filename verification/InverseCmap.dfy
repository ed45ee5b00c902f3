/** The lazily filled inverse colormap of the two-pass quantiser: Heckbert's locality test and
    Thomas' incremental distances against brute force (jquant2.c). */
module InverseCmap {
  import opened HuffmanTable

  const C0_SCALE := 2
  const C1_SCALE := 3
  const C2_SCALE := 1
  const MAX_INT32 := 0x7FFF_FFFF

  // cells of the histogram are 8 x 4 x 8 sample values, update boxes are 4 x 8 x 4 cells
  const STEP_C0 := 16
  const STEP_C1 := 12
  const STEP_C2 := 8
  const CELLS := 128

  /** A colour, or the centre of a histogram cell. */
  datatype Point = Point(c0: int, c1: int, c2: int)

  predicate IsColor(p: Point) {
    0 <= p.c0 < 256 && 0 <= p.c1 < 256 && 0 <= p.c2 < 256
  }

  type Colormap = m: seq<Point> | 1 <= |m| <= 256 && forall i :: 0 <= i < |m| ==> IsColor(m[i])
    witness [Point(0, 0, 0)]

  function Sq(x: int): (r: int)
    ensures r >= 0
  {
    x * x
  }

  /** The scaled squared distance. */
  function Dist(p: Point, q: Point): (d: int)
    ensures d >= 0
  {
    Sq((p.c0 - q.c0) * C0_SCALE) + Sq((p.c1 - q.c1) * C1_SCALE) + Sq((p.c2 - q.c2) * C2_SCALE)
  }

  /** Differences in red count twice, those in green three times. */
  lemma WeighedDist(p: Point, q: Point)
    ensures Dist(p, q) == 4 * Sq(p.c0 - q.c0) + 9 * Sq(p.c1 - q.c1) + Sq(p.c2 - q.c2)
  {
    SqTimes(p.c0 - q.c0, 2);
    SqTimes(p.c1 - q.c1, 3);
  }

  lemma SqTimes(x: int, n: int)
    ensures Sq(x * n) == n * n * Sq(x)
  {
  }

  /** Brute force: entry b is the lowest-numbered of those closest to p. */
  ghost predicate IsNearest(m: Colormap, p: Point, b: int) {
    && 0 <= b < |m|
    && (forall i :: 0 <= i < |m| ==> Dist(p, m[b]) <= Dist(p, m[i]))
    && (forall i :: 0 <= i < b ==> Dist(p, m[b]) < Dist(p, m[i]))
  }

  /** There is exactly one such entry, whatever order anything was looked up in. */
  lemma NearestUnique(m: Colormap, p: Point, a: int, b: int)
    requires IsNearest(m, p, a) && IsNearest(m, p, b)
    ensures a == b
  {
    hide Dist;
    assert Dist(p, m[a]) <= Dist(p, m[b]) <= Dist(p, m[a]);
  }

  lemma {:induction false} NearestExists(m: Colormap, p: Point, n: nat) returns (b: nat)
    requires 1 <= n <= |m|
    ensures b < n && (forall i :: 0 <= i < n ==> Dist(p, m[b]) <= Dist(p, m[i]))
    ensures forall i :: 0 <= i < b ==> Dist(p, m[b]) < Dist(p, m[i])
  {
    hide Dist;
    if n == 1 {
      b := 0;
    } else {
      b := NearestExists(m, p, n - 1);
      if Dist(p, m[n - 1]) < Dist(p, m[b]) {
        b := n - 1;
      }
    }
  }

  // ----- Heckbert's criterion -----

  lemma SqMonotone(a: int, b: int)
    requires -b <= a <= b || b <= a <= -b
    ensures Sq(a) <= Sq(b)
  {
    SquareBetween(if a < 0 then -a else a, if b < 0 then -b else b);
  }

  lemma SquareBetween(x: nat, y: nat)
    requires x <= y
    ensures x * x <= y * y
  {
    assert y * y == x * x + (y - x) * (y + x);
  }

  /** Least and greatest squared distance along one axis from x to the range lo..hi. */
  function MinTerm(x: int, lo: int, hi: int, scale: int): int {
    if x < lo then Sq((x - lo) * scale) else if x > hi then Sq((x - hi) * scale) else 0
  }

  function MaxTerm(x: int, lo: int, hi: int, scale: int): int {
    if x < lo then Sq((x - hi) * scale)
    else if x > hi then Sq((x - lo) * scale)
    else if x <= (lo + hi) / 2 then Sq((x - hi) * scale)
    else Sq((x - lo) * scale)
  }

  lemma TermBounds(x: int, lo: int, hi: int, scale: int, p: int)
    requires lo <= p <= hi && 1 <= scale <= 3
    ensures MinTerm(x, lo, hi, scale) <= Sq((p - x) * scale) <= MaxTerm(x, lo, hi, scale)
  {
    hide Sq;
    var near := if x < lo then lo else if x > hi then hi else x;
    var far := if x < lo || (x <= hi && x <= (lo + hi) / 2) then hi else lo;
    ScaledMonotone(x - near, p - x, scale);
    ScaledMonotone(p - x, x - far, scale);
    if near == x {
      SqZero(scale);
    }
  }

  lemma SqZero(scale: int)
    ensures Sq(0 * scale) == 0
  {
  }

  lemma ScaledMonotone(a: int, b: int, scale: int)
    requires (-b <= a <= b || b <= a <= -b) && 1 <= scale <= 3
    ensures Sq(a * scale) <= Sq(b * scale)
  {
    SqMonotone(a * scale, b * scale);
  }

  /** The opposite corner cell of the update box at lo. */
  function Corner(lo: Point): Point {
    Point(lo.c0 + 24, lo.c1 + 28, lo.c2 + 24)
  }

  function MinDist(x: Point, lo: Point): int {
    var hi := Corner(lo);
    MinTerm(x.c0, lo.c0, hi.c0, C0_SCALE) + MinTerm(x.c1, lo.c1, hi.c1, C1_SCALE) + MinTerm(x.c2, lo.c2, hi.c2, C2_SCALE)
  }

  function MaxDist(x: Point, lo: Point): int {
    var hi := Corner(lo);
    MaxTerm(x.c0, lo.c0, hi.c0, C0_SCALE) + MaxTerm(x.c1, lo.c1, hi.c1, C1_SCALE) + MaxTerm(x.c2, lo.c2, hi.c2, C2_SCALE)
  }

  predicate InBox(p: Point, lo: Point) {
    lo.c0 <= p.c0 <= lo.c0 + 24 && lo.c1 <= p.c1 <= lo.c1 + 28 && lo.c2 <= p.c2 <= lo.c2 + 24
  }

  lemma DistBounds(p: Point, x: Point, lo: Point)
    requires InBox(p, lo)
    ensures MinDist(x, lo) <= Dist(p, x) <= MaxDist(x, lo)
  {
    hide Sq, MinTerm, MaxTerm;
    TermBounds(x.c0, lo.c0, lo.c0 + 24, C0_SCALE, p.c0);
    TermBounds(x.c1, lo.c1, lo.c1 + 28, C1_SCALE, p.c1);
    TermBounds(x.c2, lo.c2, lo.c2 + 24, C2_SCALE, p.c2);
  }

  /** Both bounds are attained: by the point of the range nearest to x, and by one of its ends. */
  lemma TermsAttained(x: int, lo: int, hi: int, scale: int) returns (near: int, far: int)
    requires lo <= hi && 1 <= scale <= 3
    ensures lo <= near <= hi && MinTerm(x, lo, hi, scale) == Sq((near - x) * scale)
    ensures (far == lo || far == hi) && MaxTerm(x, lo, hi, scale) == Sq((far - x) * scale)
  {
    hide Sq;
    near := if x < lo then lo else if x > hi then hi else x;
    far := if x < lo || (x <= hi && x <= (lo + hi) / 2) then hi else lo;
    SqZero(scale);
    SqOpposite(x - near, scale);
    SqOpposite(x - far, scale);
  }

  lemma SqOpposite(x: int, scale: int)
    ensures Sq(x * scale) == Sq(-x * scale)
  {
    assert -x * scale == -(x * scale);
  }

  /** So the least and the greatest distance to a box are those of points in it. */
  lemma DistAttained(x: Point, lo: Point) returns (near: Point, far: Point)
    ensures InBox(near, lo) && Dist(near, x) == MinDist(x, lo)
    ensures InBox(far, lo) && Dist(far, x) == MaxDist(x, lo)
  {
    hide Sq, MinTerm, MaxTerm;
    var n0, f0 := TermsAttained(x.c0, lo.c0, lo.c0 + 24, C0_SCALE);
    var n1, f1 := TermsAttained(x.c1, lo.c1, lo.c1 + 28, C1_SCALE);
    var n2, f2 := TermsAttained(x.c2, lo.c2, lo.c2 + 24, C2_SCALE);
    near, far := Point(n0, n1, n2), Point(f0, f1, f2);
  }

  /** The colours no farther at best than every colour is at worst. */
  ghost predicate Candidate(m: Colormap, lo: Point, i: int) {
    0 <= i < |m| && forall j :: 0 <= j < |m| ==> MinDist(m[i], lo) <= MaxDist(m[j], lo)
  }

  /** Pruning never loses a colour that is nearest to some cell of the box. */
  lemma NearestIsCandidate(m: Colormap, lo: Point, p: Point, b: int)
    requires InBox(p, lo) && IsNearest(m, p, b)
    ensures Candidate(m, lo, b)
  {
    hide Dist, MinDist, MaxDist;
    DistBounds(p, m[b], lo);
    forall j | 0 <= j < |m|
      ensures MinDist(m[b], lo) <= MaxDist(m[j], lo)
    {
      DistBounds(p, m[j], lo);
    }
  }

  ghost predicate Increasing(list: seq<Byte>) {
    forall i, j :: 0 <= i < j < |list| ==> list[i] < list[j]
  }

  /** The candidate list: in colormap order, nothing missing, nothing else. */
  ghost predicate Nearby(m: Colormap, lo: Point, list: seq<Byte>) {
    && Increasing(list)
    && (forall k :: 0 <= k < |list| ==> Candidate(m, lo, list[k]))
    && (forall i: Byte :: Candidate(m, lo, i) ==> i in list)
  }

  /** One axis of find_nearby_colors: the contributions to the least and the greatest distance. */
  method AxisTerms(x: int, minc: int, maxc: int, scale: int) returns (least: int, most: int)
    requires minc <= maxc
    ensures least == MinTerm(x, minc, maxc, scale) && most == MaxTerm(x, minc, maxc, scale)
  {
    var centerc := (minc + maxc) / 2;
    var tdist;
    if x < minc {
      tdist := (x - minc) * scale;
      least := tdist * tdist;
      tdist := (x - maxc) * scale;
      most := tdist * tdist;
    } else if x > maxc {
      tdist := (x - maxc) * scale;
      least := tdist * tdist;
      tdist := (x - minc) * scale;
      most := tdist * tdist;
    } else {
      least := 0;
      tdist := if x <= centerc then (x - maxc) * scale else (x - minc) * scale;
      most := tdist * tdist;
    }
  }

  lemma MaxDistSmall(x: Point, lo: Point)
    requires IsColor(x) && IsColor(lo) && IsColor(Corner(lo))
    ensures MaxDist(x, lo) < MAX_INT32
  {
    hide Sq;
    MaxTermSmall(x.c0, lo.c0, lo.c0 + 24, C0_SCALE);
    MaxTermSmall(x.c1, lo.c1, lo.c1 + 28, C1_SCALE);
    MaxTermSmall(x.c2, lo.c2, lo.c2 + 24, C2_SCALE);
  }

  lemma MaxTermSmall(x: int, lo: int, hi: int, scale: int)
    requires 0 <= x < 256 && 0 <= lo <= hi < 256 && 1 <= scale <= 3
    ensures MaxTerm(x, lo, hi, scale) <= 585225
  {
    SqMonotone((x - hi) * scale, 765);
    SqMonotone((x - lo) * scale, 765);
  }

  /** find_nearby_colors */
  method FindNearbyColors(m: Colormap, lo: Point, colorlist: array<Byte>) returns (ncolors: nat)
    requires colorlist.Length == 256 && IsColor(lo) && IsColor(Corner(lo))
    modifies colorlist
    ensures ncolors <= 256 && Nearby(m, lo, colorlist[..ncolors])
  {
    hide MinTerm, MaxTerm, MinDist, MaxDist;
    var hi := Corner(lo);
    var mindist := new int[256];
    var minmaxdist, i := MAX_INT32, 0;
    ghost var closest := 0;
    while i < |m|
      invariant 0 <= i <= |m|
      invariant forall k :: 0 <= k < i ==> mindist[k] == MinDist(m[k], lo)
      invariant forall k :: 0 <= k < i ==> minmaxdist <= MaxDist(m[k], lo)
      invariant i == 0 ==> minmaxdist == MAX_INT32
      invariant i > 0 ==> 0 <= closest < i && minmaxdist == MaxDist(m[closest], lo)
    {
      var least, most := BoxDistances(m[i], lo);
      mindist[i] := least;
      MaxDistSmall(m[i], lo);
      if most < minmaxdist {
        minmaxdist := most;
        closest := i;
      }
      i := i + 1;
    }
    assert forall k :: 0 <= k < |m| ==> (Candidate(m, lo, k) <==> mindist[k] <= minmaxdist);
    ncolors := CollectNearby(m, lo, mindist, minmaxdist, colorlist);
  }

  /** The colours whose least distance is small enough. */
  method CollectNearby(m: Colormap, lo: Point, mindist: array<int>, minmaxdist: int, colorlist: array<Byte>) returns (ncolors: nat)
    requires colorlist.Length == mindist.Length == 256
    requires forall k :: 0 <= k < |m| ==> (Candidate(m, lo, k) <==> mindist[k] <= minmaxdist)
    modifies colorlist
    ensures ncolors <= 256 && Nearby(m, lo, colorlist[..ncolors])
  {
    hide Candidate;
    var i := 0;
    ncolors := 0;
    NothingNearby(m, lo, colorlist[..0]);
    while i < |m|
      invariant 0 <= i <= |m| && ncolors <= i && NearbyBelow(m, lo, colorlist[..ncolors], i)
    {
      ghost var before := colorlist[..ncolors];
      NearbyNext(m, lo, before, i);
      if mindist[i] <= minmaxdist {
        colorlist[ncolors] := i;
        ncolors := ncolors + 1;
        assert colorlist[..ncolors] == before + [i];
      }
      i := i + 1;
    }
    NearbyAll(m, lo, colorlist[..ncolors]);
  }

  /** The list is right as far as colours below n go. */
  ghost predicate NearbyBelow(m: Colormap, lo: Point, list: seq<Byte>, n: nat) {
    && Increasing(list)
    && (forall k :: 0 <= k < |list| ==> list[k] < n && Candidate(m, lo, list[k]))
    && (forall i: Byte :: i < n && Candidate(m, lo, i) ==> i in list)
  }

  lemma NothingNearby(m: Colormap, lo: Point, list: seq<Byte>)
    requires list == []
    ensures NearbyBelow(m, lo, list, 0)
  {
  }

  lemma NearbyNext(m: Colormap, lo: Point, list: seq<Byte>, n: Byte)
    requires NearbyBelow(m, lo, list, n)
    ensures NearbyBelow(m, lo, if Candidate(m, lo, n) then list + [n] else list, n + 1)
  {
    hide Candidate;
  }

  lemma NearbyAll(m: Colormap, lo: Point, list: seq<Byte>)
    requires NearbyBelow(m, lo, list, |m|)
    ensures Nearby(m, lo, list)
  {
    hide MinDist, MaxDist;
  }

  method BoxDistances(x: Point, lo: Point) returns (least: int, most: int)
    ensures least == MinDist(x, lo) && most == MaxDist(x, lo)
  {
    hide MinTerm, MaxTerm;
    var hi := Corner(lo);
    var a, b, c, d;
    least, most := AxisTerms(x.c0, lo.c0, hi.c0, C0_SCALE);
    a, b := AxisTerms(x.c1, lo.c1, hi.c1, C1_SCALE);
    c, d := AxisTerms(x.c2, lo.c2, hi.c2, C2_SCALE);
    least, most := least + a + c, most + b + d;
  }

  // ----- Thomas' incremental distances -----

  /** How the distance to x grows from one cell to the next along each axis. */
  lemma NextDist(p: Point, x: Point)
    ensures Dist(Point(p.c0 + 8, p.c1, p.c2), x) == Dist(p, x) + 2 * STEP_C0 * ((p.c0 - x.c0) * C0_SCALE) + STEP_C0 * STEP_C0
    ensures Dist(Point(p.c0, p.c1 + 4, p.c2), x) == Dist(p, x) + 2 * STEP_C1 * ((p.c1 - x.c1) * C1_SCALE) + STEP_C1 * STEP_C1
    ensures Dist(Point(p.c0, p.c1, p.c2 + 8), x) == Dist(p, x) + 2 * STEP_C2 * ((p.c2 - x.c2) * C2_SCALE) + STEP_C2 * STEP_C2
  {
    SqPlus((p.c0 - x.c0) * C0_SCALE, STEP_C0);
    SqPlus((p.c1 - x.c1) * C1_SCALE, STEP_C1);
    SqPlus((p.c2 - x.c2) * C2_SCALE, STEP_C2);
  }

  lemma SqPlus(x: int, s: int)
    ensures Sq(x + s) == Sq(x) + 2 * s * x + s * s
  {
  }

  /** Cell j of the update box at lo, counted as the work arrays are. */
  function Cell(lo: Point, j: nat): Point {
    Point(lo.c0 + 8 * (j / 32), lo.c1 + 4 * (j / 4 % 8), lo.c2 + 8 * (j % 4))
  }

  function CellAt(lo: Point, a: nat, b: nat, c: nat): Point {
    Point(lo.c0 + 8 * a, lo.c1 + 4 * b, lo.c2 + 8 * c)
  }

  lemma CellIsAt(lo: Point, a: nat, b: nat, c: nat)
    requires a < 4 && b < 8 && c < 4
    ensures Cell(lo, 32 * a + 4 * b + c) == CellAt(lo, a, b, c) && InBox(CellAt(lo, a, b, c), lo)
  {
  }

  ghost predicate ListOf(m: Colormap, list: seq<Byte>) {
    forall k :: 0 <= k < |list| ==> list[k] < |m|
  }

  /** dist and color are the least distance among the first n listed colours and the first to attain it. */
  ghost predicate BestAmong(m: Colormap, list: seq<Byte>, n: nat, p: Point, dist: int, color: Byte)
    requires n <= |list| && ListOf(m, list)
  {
    if n == 0 then dist == MAX_INT32
    else
      exists k ::
        && 0 <= k < n && color == list[k] && dist == Dist(p, m[list[k]])
        && (forall i :: 0 <= i < n ==> dist <= Dist(p, m[list[i]]))
        && (forall i :: 0 <= i < k ==> dist < Dist(p, m[list[i]]))
  }

  lemma BestNext(m: Colormap, list: seq<Byte>, n: nat, p: Point, dist: int, color: Byte)
    requires n < |list| && ListOf(m, list) && BestAmong(m, list, n, p, dist, color) && Dist(p, m[list[n]]) < MAX_INT32
    ensures var d := Dist(p, m[list[n]]);
            if d < dist then BestAmong(m, list, n + 1, p, d, list[n]) else BestAmong(m, list, n + 1, p, dist, color)
  {
    hide Dist;
    var d := Dist(p, m[list[n]]);
    if n > 0 {
      var k :|
        && 0 <= k < n && color == list[k] && dist == Dist(p, m[list[k]])
        && (forall i :: 0 <= i < n ==> dist <= Dist(p, m[list[i]]))
        && (forall i :: 0 <= i < k ==> dist < Dist(p, m[list[i]]));
      if d >= dist {
        assert k < n + 1;
      }
    }
    if d < dist {
      assert list[n] == list[n] && n < n + 1;
    }
  }

  /** With the candidates in colormap order, the best of them is the brute-force nearest. */
  lemma BestIsNearest(m: Colormap, lo: Point, list: seq<Byte>, p: Point, dist: int, color: Byte)
    requires Nearby(m, lo, list) && InBox(p, lo) && ListOf(m, list)
    requires BestAmong(m, list, |list|, p, dist, color)
    ensures IsNearest(m, p, color)
  {
    hide Dist, Candidate, InBox;
    var b := NearestExists(m, p, |m|);
    NearestIsCandidate(m, lo, p, b);
    var j :| 0 <= j < |list| && list[j] == b;
    var k :|
      && 0 <= k < |list| && color == list[k] && dist == Dist(p, m[list[k]])
      && (forall i :: 0 <= i < |list| ==> dist <= Dist(p, m[list[i]]))
      && (forall i :: 0 <= i < k ==> dist < Dist(p, m[list[i]]));
    assert dist <= Dist(p, m[list[j]]);
  }

  lemma DistSmall(p: Point, x: Point)
    requires IsColor(p) && IsColor(x)
    ensures Dist(p, x) < MAX_INT32
  {
    hide Sq;
    SqMonotone((p.c0 - x.c0) * C0_SCALE, 510);
    SqMonotone((p.c1 - x.c1) * C1_SCALE, 765);
    SqMonotone((p.c2 - x.c2) * C2_SCALE, 255);
    SqValues();
  }

  lemma SqValues()
    ensures Sq(510) == 260100 && Sq(765) == 585225 && Sq(255) == 65025
  {
  }

  /** Cells from..to are up to date with the first n listed colours. */
  ghost predicate Best(m: Colormap, list: seq<Byte>, n: nat, lo: Point, bestdist: seq<int>, bestcolor: seq<Byte>, from: nat, to: nat)
    requires n <= |list| && ListOf(m, list) && |bestdist| == |bestcolor| == CELLS
  {
    forall j :: from <= j < to && j < CELLS ==> BestAmong(m, list, n, Cell(lo, j), bestdist[j], bestcolor[j])
  }

  /** find_best_colors for one colour: its distance to cell after cell, each from the one before. */
  method RelaxColor(m: Colormap, list: seq<Byte>, n: nat, lo: Point, bestdist: array<int>, bestcolor: array<Byte>)
    requires n < |list| && ListOf(m, list) && bestdist.Length == bestcolor.Length == CELLS
    requires IsColor(lo) && IsColor(Corner(lo))
    requires Best(m, list, n, lo, bestdist[..], bestcolor[..], 0, CELLS)
    modifies bestdist, bestcolor
    ensures Best(m, list, n + 1, lo, bestdist[..], bestcolor[..], 0, CELLS)
  {
    hide Best, Dist, Corner;
    var icolor := list[n];
    var x := m[icolor];
    var inc0 := (lo.c0 - x.c0) * C0_SCALE;
    var dist0 := inc0 * inc0;
    var inc1 := (lo.c1 - x.c1) * C1_SCALE;
    dist0 := dist0 + inc1 * inc1;
    var inc2 := (lo.c2 - x.c2) * C2_SCALE;
    dist0 := dist0 + inc2 * inc2;
    FirstDist(lo, x);
    inc0 := inc0 * (2 * STEP_C0) + STEP_C0 * STEP_C0;
    inc1 := inc1 * (2 * STEP_C1) + STEP_C1 * STEP_C1;
    inc2 := inc2 * (2 * STEP_C2) + STEP_C2 * STEP_C2;
    var xx0, ic0 := inc0, 0;
    NoneYet(m, list, n + 1, lo, bestdist[..], bestcolor[..]);
    while ic0 < 4
      invariant 0 <= ic0 <= 4
      invariant dist0 == Dist(CellAt(lo, ic0, 0, 0), x)
      invariant xx0 == 2 * STEP_C0 * ((lo.c0 + 8 * ic0 - x.c0) * C0_SCALE) + STEP_C0 * STEP_C0
      invariant Best(m, list, n + 1, lo, bestdist[..], bestcolor[..], 0, 32 * ic0)
      invariant Best(m, list, n, lo, bestdist[..], bestcolor[..], 32 * ic0, CELLS)
    {
      RelaxPlane(m, list, n, lo, ic0, dist0, inc1, inc2, bestdist, bestcolor);
      NextDist(CellAt(lo, ic0, 0, 0), x);
      dist0 := dist0 + xx0;
      xx0 := xx0 + 2 * STEP_C0 * STEP_C0;
      ic0 := ic0 + 1;
    }
  }

  lemma FirstDist(lo: Point, x: Point)
    ensures CellAt(lo, 0, 0, 0) == lo
    ensures var d0, d1, d2 := (lo.c0 - x.c0) * C0_SCALE, (lo.c1 - x.c1) * C1_SCALE, (lo.c2 - x.c2) * C2_SCALE;
            d0 * d0 + d1 * d1 + d2 * d2 == Dist(lo, x)
  {
  }

  lemma NoneYet(m: Colormap, list: seq<Byte>, n: nat, lo: Point, bestdist: seq<int>, bestcolor: seq<Byte>)
    requires n <= |list| && ListOf(m, list) && |bestdist| == |bestcolor| == CELLS
    ensures Best(m, list, n, lo, bestdist, bestcolor, 0, 0)
  {
  }

  method RelaxPlane(m: Colormap, list: seq<Byte>, n: nat, lo: Point, ic0: nat, dist0: int, inc1: int, inc2: int,
                    bestdist: array<int>, bestcolor: array<Byte>)
    requires n < |list| && ListOf(m, list) && bestdist.Length == bestcolor.Length == CELLS
    requires IsColor(lo) && IsColor(Corner(lo)) && ic0 < 4
    requires dist0 == Dist(CellAt(lo, ic0, 0, 0), m[list[n]])
    requires inc1 == 2 * STEP_C1 * ((lo.c1 - m[list[n]].c1) * C1_SCALE) + STEP_C1 * STEP_C1
    requires inc2 == 2 * STEP_C2 * ((lo.c2 - m[list[n]].c2) * C2_SCALE) + STEP_C2 * STEP_C2
    requires Best(m, list, n + 1, lo, bestdist[..], bestcolor[..], 0, 32 * ic0)
    requires Best(m, list, n, lo, bestdist[..], bestcolor[..], 32 * ic0, CELLS)
    modifies bestdist, bestcolor
    ensures Best(m, list, n + 1, lo, bestdist[..], bestcolor[..], 0, 32 * ic0 + 32)
    ensures Best(m, list, n, lo, bestdist[..], bestcolor[..], 32 * ic0 + 32, CELLS)
  {
    hide Best, Dist, Corner;
    ghost var x := m[list[n]];
    var dist1, xx1, ic1 := dist0, inc1, 0;
    while ic1 < 8
      invariant 0 <= ic1 <= 8
      invariant dist1 == Dist(CellAt(lo, ic0, ic1, 0), x)
      invariant xx1 == 2 * STEP_C1 * ((lo.c1 + 4 * ic1 - x.c1) * C1_SCALE) + STEP_C1 * STEP_C1
      invariant Best(m, list, n + 1, lo, bestdist[..], bestcolor[..], 0, 32 * ic0 + 4 * ic1)
      invariant Best(m, list, n, lo, bestdist[..], bestcolor[..], 32 * ic0 + 4 * ic1, CELLS)
    {
      RelaxLine(m, list, n, lo, ic0, ic1, dist1, inc2, bestdist, bestcolor);
      NextDist(CellAt(lo, ic0, ic1, 0), x);
      dist1 := dist1 + xx1;
      xx1 := xx1 + 2 * STEP_C1 * STEP_C1;
      ic1 := ic1 + 1;
    }
  }

  method RelaxLine(m: Colormap, list: seq<Byte>, n: nat, lo: Point, ic0: nat, ic1: nat, dist1: int, inc2: int,
                   bestdist: array<int>, bestcolor: array<Byte>)
    requires n < |list| && ListOf(m, list) && bestdist.Length == bestcolor.Length == CELLS
    requires IsColor(lo) && IsColor(Corner(lo)) && ic0 < 4 && ic1 < 8
    requires dist1 == Dist(CellAt(lo, ic0, ic1, 0), m[list[n]])
    requires inc2 == 2 * STEP_C2 * ((lo.c2 - m[list[n]].c2) * C2_SCALE) + STEP_C2 * STEP_C2
    requires Best(m, list, n + 1, lo, bestdist[..], bestcolor[..], 0, 32 * ic0 + 4 * ic1)
    requires Best(m, list, n, lo, bestdist[..], bestcolor[..], 32 * ic0 + 4 * ic1, CELLS)
    modifies bestdist, bestcolor
    ensures Best(m, list, n + 1, lo, bestdist[..], bestcolor[..], 0, 32 * ic0 + 4 * ic1 + 4)
    ensures Best(m, list, n, lo, bestdist[..], bestcolor[..], 32 * ic0 + 4 * ic1 + 4, CELLS)
  {
    hide Best, Dist, BestAmong;
    var icolor := list[n];
    ghost var x := m[icolor];
    var dist2, xx2, ic2 := dist1, inc2, 0;
    var ptr := 32 * ic0 + 4 * ic1;
    while ic2 < 4
      invariant 0 <= ic2 <= 4 && ptr == 32 * ic0 + 4 * ic1 + ic2
      invariant dist2 == Dist(CellAt(lo, ic0, ic1, ic2), x)
      invariant xx2 == 2 * STEP_C2 * ((lo.c2 + 8 * ic2 - x.c2) * C2_SCALE) + STEP_C2 * STEP_C2
      invariant Best(m, list, n + 1, lo, bestdist[..], bestcolor[..], 0, ptr)
      invariant Best(m, list, n, lo, bestdist[..], bestcolor[..], ptr, CELLS)
    {
      CellIsAt(lo, ic0, ic1, ic2);
      DistSmall(CellAt(lo, ic0, ic1, ic2), x);
      BestSplit(m, list, n, lo, bestdist[..], bestcolor[..], ptr);
      BestNext(m, list, n, Cell(lo, ptr), bestdist[ptr], bestcolor[ptr]);
      ghost var bd, bc := bestdist[..], bestcolor[..];
      if dist2 < bestdist[ptr] {
        bestdist[ptr] := dist2;
        bestcolor[ptr] := icolor;
      }
      BestJoin(m, list, n, lo, bd, bc, bestdist[..], bestcolor[..], ptr);
      NextDist(CellAt(lo, ic0, ic1, ic2), x);
      dist2 := dist2 + xx2;
      xx2 := xx2 + 2 * STEP_C2 * STEP_C2;
      ptr := ptr + 1;
      ic2 := ic2 + 1;
    }
  }

  lemma BestSplit(m: Colormap, list: seq<Byte>, n: nat, lo: Point, bd: seq<int>, bc: seq<Byte>, j: nat)
    requires n <= |list| && ListOf(m, list) && |bd| == |bc| == CELLS && j < CELLS
    requires Best(m, list, n, lo, bd, bc, j, CELLS)
    ensures BestAmong(m, list, n, Cell(lo, j), bd[j], bc[j])
  {
  }

  lemma BestJoin(m: Colormap, list: seq<Byte>, n: nat, lo: Point, bd: seq<int>, bc: seq<Byte>, bd': seq<int>, bc': seq<Byte>, j: nat)
    requires n < |list| && ListOf(m, list) && |bd| == |bc| == |bd'| == |bc'| == CELLS && j < CELLS
    requires Best(m, list, n + 1, lo, bd, bc, 0, j) && Best(m, list, n, lo, bd, bc, j, CELLS)
    requires bd' == bd[j := bd'[j]] && bc' == bc[j := bc'[j]]
    requires BestAmong(m, list, n + 1, Cell(lo, j), bd'[j], bc'[j])
    ensures Best(m, list, n + 1, lo, bd', bc', 0, j + 1) && Best(m, list, n, lo, bd', bc', j + 1, CELLS)
  {
    hide BestAmong, Cell;
  }

  /** find_best_colors */
  method FindBestColors(m: Colormap, lo: Point, list: seq<Byte>, bestcolor: array<Byte>)
    requires IsColor(lo) && IsColor(Corner(lo)) && Nearby(m, lo, list) && bestcolor.Length == CELLS
    modifies bestcolor
    ensures forall j :: 0 <= j < CELLS ==> IsNearest(m, Cell(lo, j), bestcolor[j])
  {
    hide Dist, Cell, IsNearest, MinDist, MaxDist;
    var bestdist := new int[CELLS](_ => MAX_INT32);
    var i := 0;
    assert ListOf(m, list);
    while i < |list|
      invariant 0 <= i <= |list| && Best(m, list, i, lo, bestdist[..], bestcolor[..], 0, CELLS)
    {
      RelaxColor(m, list, i, lo, bestdist, bestcolor);
      i := i + 1;
    }
    forall j | 0 <= j < CELLS
      ensures IsNearest(m, Cell(lo, j), bestcolor[j])
    {
      CellInBox(lo, j);
      BestIsNearest(m, lo, list, Cell(lo, j), bestdist[j], bestcolor[j]);
    }
  }

  lemma CellInBox(lo: Point, j: nat)
    requires j < CELLS
    ensures InBox(Cell(lo, j), lo)
  {
  }

  // ----- the cache -----

  const HIST_C0 := 32
  const HIST_C1 := 64
  const HIST_C2 := 32

  /** The centre of histogram cell c0, c1, c2. */
  function Center(c0: nat, c1: nat, c2: nat): Point {
    Point(8 * c0 + 4, 4 * c1 + 2, 8 * c2 + 4)
  }

  /** The centre of the cell that a pixel falls into. */
  function CellOf(r: Byte, g: Byte, b: Byte): Point {
    Center(r / 8, g / 4, b / 8)
  }

  /** The centre is within half a cell, 8 by 4 by 8 sample values, of the pixel. */
  lemma CenterNear(r: Byte, g: Byte, b: Byte)
    ensures var p := CellOf(r, g, b); -4 <= r - p.c0 < 4 && -2 <= g - p.c1 < 2 && -4 <= b - p.c2 < 4
  {
  }

  /** A cache entry, if filled, is the brute-force nearest colour plus one. */
  ghost predicate Right(m: Colormap, p: Point, entry: nat) {
    entry != 0 ==> IsNearest(m, p, entry - 1)
  }

  class ColorCache {
    const colormap: Colormap
    /** The histogram reused as cache: 0 where nothing is known yet, else a colour index plus one. */
    const cache: array3<nat>

    ghost predicate Valid()
      reads cache
    {
      && cache.Length0 == HIST_C0 && cache.Length1 == HIST_C1 && cache.Length2 == HIST_C2
      && forall c0: nat, c1: nat, c2: nat :: c0 < HIST_C0 && c1 < HIST_C1 && c2 < HIST_C2 ==>
           Right(colormap, Center(c0, c1, c2), cache[c0, c1, c2])
    }

    /** start_pass for the mapping pass: the cache is cleared. */
    constructor (colormap: Colormap)
      ensures Valid() && this.colormap == colormap && fresh(cache)
    {
      this.colormap := colormap;
      cache := new nat[HIST_C0, HIST_C1, HIST_C2]((_, _, _) => 0);
    }

    /** In the update box with ID b0, b1, b2? */
    static predicate Covers(b0: nat, b1: nat, b2: nat, c0: nat, c1: nat, c2: nat) {
      4 * b0 <= c0 < 4 * b0 + 4 && 8 * b1 <= c1 < 8 * b1 + 8 && 4 * b2 <= c2 < 4 * b2 + 4
    }

    /** fill_inverse_cmap: fills the update box that the cell lies in, and nothing else. */
    method FillInverseCmap(c0: nat, c1: nat, c2: nat)
      requires Valid() && c0 < HIST_C0 && c1 < HIST_C1 && c2 < HIST_C2
      modifies cache
      ensures Valid() && cache[c0, c1, c2] != 0
      ensures forall a: nat, b: nat, c: nat :: a < HIST_C0 && b < HIST_C1 && c < HIST_C2 ==>
                cache[a, b, c] == old(cache[a, b, c]) || Covers(c0 / 4, c1 / 8, c2 / 4, a, b, c)
    {
      hide IsNearest, Cell;
      var b0, b1, b2 := c0 / 4, c1 / 8, c2 / 4;
      var lo := Point(32 * b0 + 4, 32 * b1 + 2, 32 * b2 + 4);
      var colorlist, bestcolor := new Byte[256], new Byte[CELLS];
      var numcolors := FindNearbyColors(colormap, lo, colorlist);
      FindBestColors(colormap, lo, colorlist[..numcolors], bestcolor);
      StoreBox(b0, b1, b2, lo, bestcolor[..]);
    }

    method StoreBox(b0: nat, b1: nat, b2: nat, lo: Point, bestcolor: seq<Byte>)
      requires Valid() && b0 < 8 && b1 < 8 && b2 < 8 && |bestcolor| == CELLS && lo == Center(4 * b0, 8 * b1, 4 * b2)
      requires forall j :: 0 <= j < CELLS ==> IsNearest(colormap, Cell(lo, j), bestcolor[j])
      modifies cache
      ensures Valid()
      ensures forall a: nat, b: nat, c: nat :: a < HIST_C0 && b < HIST_C1 && c < HIST_C2 ==>
                if Covers(b0, b1, b2, a, b, c) then cache[a, b, c] != 0 else cache[a, b, c] == old(cache[a, b, c])
    {
      hide IsNearest, Cell, Right;
      var ptr, ic0 := 0, 0;
      while ic0 < 4
        invariant 0 <= ic0 <= 4 && ptr == 32 * ic0 && Valid()
        invariant forall a: nat, b: nat, c: nat :: a < HIST_C0 && b < HIST_C1 && c < HIST_C2 ==>
                    if Covers(b0, b1, b2, a, b, c) && a < 4 * b0 + ic0 then cache[a, b, c] != 0
                    else cache[a, b, c] == old(cache[a, b, c])
      {
        var ic1 := 0;
        while ic1 < 8
          invariant 0 <= ic1 <= 8 && ptr == 32 * ic0 + 4 * ic1 && Valid()
          invariant forall a: nat, b: nat, c: nat :: a < HIST_C0 && b < HIST_C1 && c < HIST_C2 ==>
                      if Covers(b0, b1, b2, a, b, c) && (a < 4 * b0 + ic0 || (a == 4 * b0 + ic0 && b < 8 * b1 + ic1))
                      then cache[a, b, c] != 0 else cache[a, b, c] == old(cache[a, b, c])
        {
          var line := bestcolor[ptr..ptr + 4];
          forall k: nat | k < 4
            ensures IsNearest(colormap, Center(4 * b0 + ic0, 8 * b1 + ic1, 4 * b2 + k), line[k])
          {
            CellIsAt(lo, ic0, ic1, k);
          }
          StoreLine(4 * b0 + ic0, 8 * b1 + ic1, 4 * b2, line);
          ptr := ptr + 4;
          ic1 := ic1 + 1;
        }
        ic0 := ic0 + 1;
      }
    }

    method StoreLine(c0: nat, c1: nat, c2: nat, colors: seq<Byte>)
      requires Valid() && c0 < HIST_C0 && c1 < HIST_C1 && c2 + 4 <= HIST_C2 && |colors| == 4
      requires forall k: nat :: k < 4 ==> IsNearest(colormap, Center(c0, c1, c2 + k), colors[k])
      modifies cache
      ensures Valid()
      ensures forall a: nat, b: nat, c: nat :: a < HIST_C0 && b < HIST_C1 && c < HIST_C2 ==>
                if a == c0 && b == c1 && c2 <= c < c2 + 4 then cache[a, b, c] != 0 else cache[a, b, c] == old(cache[a, b, c])
    {
      hide IsNearest;
      var ic2 := 0;
      while ic2 < 4
        invariant 0 <= ic2 <= 4 && Valid()
        invariant forall a: nat, b: nat, c: nat :: a < HIST_C0 && b < HIST_C1 && c < HIST_C2 ==>
                    if a == c0 && b == c1 && c2 <= c < c2 + ic2 then cache[a, b, c] != 0 else cache[a, b, c] == old(cache[a, b, c])
      {
        var color: nat := colors[ic2];
        cache[c0, c1, c2 + ic2] := color + 1;
        ic2 := ic2 + 1;
      }
    }

    /** pass2_no_dither: every pixel becomes the brute-force nearest colour of its cell. */
    method Pass2NoDither(input: seq<seq<Byte>>, width: nat, output: array2<Byte>)
      requires Valid() && output.Length0 == |input| && output.Length1 == width
      requires forall r :: 0 <= r < |input| ==> |input[r]| == 3 * width
      modifies cache, output
      ensures Valid()
      ensures forall r, x :: 0 <= r < |input| && 0 <= x < width ==>
                IsNearest(colormap, CellOf(input[r][3 * x], input[r][3 * x + 1], input[r][3 * x + 2]), output[r, x])
    {
      hide IsNearest, CellOf;
      var row := 0;
      while row < |input|
        invariant 0 <= row <= |input| && Valid()
        invariant forall r, x :: 0 <= r < row && 0 <= x < width ==>
                    IsNearest(colormap, CellOf(input[r][3 * x], input[r][3 * x + 1], input[r][3 * x + 2]), output[r, x])
      {
        var col := 0;
        while col < width
          invariant 0 <= col <= width && Valid()
          invariant forall r, x :: 0 <= r < row && 0 <= x < width ==>
                      IsNearest(colormap, CellOf(input[r][3 * x], input[r][3 * x + 1], input[r][3 * x + 2]), output[r, x])
          invariant forall x :: 0 <= x < col ==>
                      IsNearest(colormap, CellOf(input[row][3 * x], input[row][3 * x + 1], input[row][3 * x + 2]), output[row, x])
        {
          var index := Lookup(input[row][3 * col], input[row][3 * col + 1], input[row][3 * col + 2]);
          output[row, col] := index;
          col := col + 1;
        }
        row := row + 1;
      }
    }

    /** The colour index for one pixel, from the cache or freshly found. */
    method Lookup(r: Byte, g: Byte, b: Byte) returns (index: Byte)
      requires Valid()
      modifies cache
      ensures Valid() && IsNearest(colormap, CellOf(r, g, b), index)
    {
      hide IsNearest;
      var c0, c1, c2 := r / 8, g / 4, b / 8;
      if cache[c0, c1, c2] == 0 {
        FillInverseCmap(c0, c1, c2);
      }
      assert Right(colormap, Center(c0, c1, c2), cache[c0, c1, c2]);
      NearestInMap(colormap, CellOf(r, g, b), cache[c0, c1, c2] - 1);
      index := cache[c0, c1, c2] - 1;
    }
  }

  lemma NearestInMap(m: Colormap, p: Point, b: int)
    requires IsNearest(m, p, b)
    ensures 0 <= b < 256
  {
  }
}
