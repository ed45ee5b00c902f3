/** The record of coefficient precision that a progressive scan is checked against (jdphuff.c). */
module ProgressionCheck {
  import opened Coefficients
  import opened EntropySpec
  import opened BitPlanes
  import opened PointTransform
  import opened ScanEncoder
  import opened ScanGeometry
  import opened RoundTrip
  import opened Progression

  /** The al of the last scan of each coefficient of a component, in zigzag order; -1 if there was none. */
  type Row = r: seq<int> | |r| == 64 witness seq(64, _ => -1)

  /** Spectral selection and successive approximation make sense. */
  predicate ParametersFine(ss: nat, se: nat, ah: nat, al: nat, comps: nat) {
    && (if ss == 0 then se == 0 else ss <= se < 64 && comps == 1)
    && (ah != 0 ==> al == ah - 1) && al <= 13
  }

  /** The Ah that continues from this precision. */
  function Expected(bits: int): int {
    if bits < 0 then 0 else bits
  }

  function Noted(row: Row, ss: nat, se: nat, al: nat): Row {
    seq(64, i requires 0 <= i < 64 => if ss <= i <= se then al else row[i])
  }

  /** For this component, the scan is the next in order as far as the record tells. */
  ghost predicate InOrder(row: Row, ss: nat, se: nat, ah: nat) {
    && (ss > 0 ==> row[0] >= 0)
    && forall i: nat :: i < 64 && ss <= i <= se ==> ah == Expected(row[i])
  }

  /** One component of the check: reads and updates its row. */
  method NoteComponent(coefBits: array<Row>, k: nat, ss: nat, se: nat, ah: nat, al: nat) returns (warned: bool)
    requires k < coefBits.Length && ss <= se < 64
    modifies coefBits
    ensures coefBits[..] == old(coefBits[..])[k := Noted(old(coefBits[k]), ss, se, al)]
    ensures !warned <==> InOrder(old(coefBits[k]), ss, se, ah)
  {
    ghost var row := coefBits[k];
    warned := ss > 0 && coefBits[k][0] < 0;
    var coefi := ss;
    while coefi <= se
      invariant ss <= coefi <= se + 1
      invariant coefBits[..] == old(coefBits[..])[k := coefBits[k]]
      invariant forall i :: 0 <= i < 64 ==> coefBits[k][i] == if ss <= i < coefi then al else row[i]
      invariant !warned <==> (ss > 0 ==> row[0] >= 0) && forall i: nat :: i < 64 && ss <= i < coefi ==> ah == Expected(row[i])
    {
      var expected := Expected(coefBits[k][coefi]);
      if ah != expected {
        warned := true;
      }
      coefBits[k] := coefBits[k][coefi := al];
      coefi := coefi + 1;
    }
    assert coefBits[k] == Noted(row, ss, se, al);
  }

  /** The checks of start_pass_phuff_decoder: parameters that make no sense are an error; a scan that is not the
      next in order for some component is warned about, and in any case recorded. */
  method StartPass(coefBits: array<Row>, comps: seq<nat>, ss: nat, se: nat, ah: nat, al: nat) returns (ok: bool, warned: bool)
    requires AllBelow(comps, coefBits.Length) && NoRepeats(comps)
    modifies coefBits
    ensures ok <==> ParametersFine(ss, se, ah, al, |comps|)
    ensures !ok ==> coefBits[..] == old(coefBits[..])
    ensures ok ==> forall k :: 0 <= k < coefBits.Length ==>
                     coefBits[k] == if k in comps then Noted(old(coefBits[k]), ss, se, al) else old(coefBits[k])
    ensures ok ==> (!warned <==> forall k :: k in comps ==> InOrder(old(coefBits[k]), ss, se, ah))
  {
    hide Noted, InOrder;
    ok, warned := false, false;
    var isDcBand := ss == 0;
    var bad := false;
    if isDcBand {
      if se != 0 {
        bad := true;
      }
    } else {
      if ss > se || se >= 64 {
        bad := true;
      }
      if |comps| != 1 {
        bad := true;
      }
    }
    if ah != 0 && al != ah - 1 {
      bad := true;
    }
    if al > 13 {
      bad := true;
    }
    if bad {
      return;
    }
    ok := true;
    var ci := 0;
    while ci < |comps|
      invariant 0 <= ci <= |comps|
      invariant forall k :: 0 <= k < coefBits.Length ==>
                  coefBits[k] == if k in comps[..ci] then Noted(old(coefBits[k]), ss, se, al) else old(coefBits[k])
      invariant !warned <==> forall k :: k in comps[..ci] ==> InOrder(old(coefBits[k]), ss, se, ah)
    {
      var cindex := comps[ci];
      assert cindex !in comps[..ci];
      ghost var before := coefBits[..];
      var w := NoteComponent(coefBits, cindex, ss, se, ah, al);
      warned := warned || w;
      assert comps[..ci + 1] == comps[..ci] + [cindex];
      forall k | 0 <= k < coefBits.Length
        ensures coefBits[k] == if k in comps[..ci + 1] then Noted(old(coefBits[k]), ss, se, al) else old(coefBits[k])
      {
        assert coefBits[..][k] == before[cindex := Noted(before[cindex], ss, se, al)][k];
      }
      ci := ci + 1;
    }
    assert comps[..|comps|] == comps;
  }

  // ----- what the record means -----

  function Precision(a: Accuracy): int {
    match a
    case Nothing => -1
    case AllBut(al) => al
  }

  /** A block that is part of the image proper, not of its padding. */
  predicate Real(im: Image, k: nat, y: nat, x: nat) {
    InGrid(im, k, y, x) && y < HeightInBlocks(im, k) && x < WidthInBlocks(im, k)
  }

  /** The record tells how accurately every coefficient of every block is known. */
  ghost predicate Matches(bits: seq<Row>, passes: seq<Pass>, im: Image) {
    && |bits| == |im.comps|
    && forall k: nat, y: nat, x: nat, i: nat :: Real(im, k, y, x) && i < 64 ==>
         bits[k][ZigzagOrder(i)] == Precision(After(passes, im, Index(im, k, y, x), i))
  }

  /** A progressive scan with the parameters that its kind goes by. */
  ghost predicate Progressive(c: Scan, ss: nat, se: nat, ah: nat) {
    && !c.mode.Baseline? && ss <= se < 64
    && (if c.mode.DCFirst? || c.mode.DCRefine? then ss == 0 && se == 0 else ss == c.ss && se == c.se)
    && ah == (if c.mode.DCRefine? || c.mode.ACRefine? then c.al + 1 else 0)
  }

  lemma SendsBand(c: Scan, ss: nat, se: nat, ah: nat, i: nat)
    requires Progressive(c, ss, se, ah) && i < 64
    ensures Sends(c, i) <==> ss <= ZigzagOrder(i) <= se
  {
    hide ZigzagOrder, NaturalOrder;
    NaturalOfZigzag(i);
    FirstOfAll();
  }

  lemma FirstOfAll()
    ensures NaturalOrder(0) == 0 && ZigzagOrder(0) == 0
  {
  }

  /** A scan sends all real blocks of its components. */
  lemma TouchesReal(p: Pass, im: Image, ss: nat, se: nat, ah: nat, k: nat, y: nat, x: nat, i: nat)
    requires Selects(im, p.sc) && Progressive(p.c, ss, se, ah) && Real(im, k, y, x) && i < 64
    ensures Touches(p, im, Index(im, k, y, x), i) <==> k in p.sc && ss <= ZigzagOrder(i) <= se
  {
    hide Index, Flat, Rest, Sends, HeightInBlocks, WidthInBlocks, PaddedHeight, PaddedWidth;
    ScanCovers(im, p.sc, k, y, x);
    SendsBand(p.c, ss, se, ah, i);
  }

  /** Recording a scan keeps the record right. */
  lemma RecordStaysRight(bits: seq<Row>, now: seq<Row>, passes: seq<Pass>, p: Pass, im: Image, ss: nat, se: nat, ah: nat)
    requires Matches(bits, passes, im) && Selects(im, p.sc) && Progressive(p.c, ss, se, ah) && |now| == |bits|
    requires forall k :: 0 <= k < |now| ==> now[k] == if k in p.sc then Noted(bits[k], ss, se, p.c.al) else bits[k]
    ensures Matches(now, passes + [p], im)
  {
    hide Index, Real, Touches, ZigzagOrder;
    assert (passes + [p])[..|passes|] == passes;
    forall k: nat, y: nat, x: nat, i: nat | Real(im, k, y, x) && i < 64
      ensures k < |now| && now[k][ZigzagOrder(i)] == Precision(After(passes + [p], im, Index(im, k, y, x), i))
    {
      assert k < |im.comps| by { RealInside(im, k, y, x); }
      TouchesReal(p, im, ss, se, ah, k, y, x, i);
    }
  }

  lemma RealInside(im: Image, k: nat, y: nat, x: nat)
    requires Real(im, k, y, x)
    ensures k < |im.comps|
  {
  }

  /** A scan that is not warned about follows on what is known of the real blocks it sends: a refinement on one bit less,
      a first scan on nothing, or on coefficients already complete; and an AC scan on some DC scan. Conversely, where
      this holds for all blocks of its components, there is no warning. */
  lemma UnwarnedFollows(bits: seq<Row>, passes: seq<Pass>, p: Pass, im: Image, ss: nat, se: nat, ah: nat, k: nat, y: nat, x: nat)
    requires Matches(bits, passes, im) && Selects(im, p.sc) && Progressive(p.c, ss, se, ah) && Real(im, k, y, x) && k in p.sc
    ensures var b := Index(im, k, y, x);
            InOrder(bits[k], ss, se, ah) <==>
              && (ss > 0 ==> After(passes, im, b, 0) != Nothing)
              && forall i: nat :: i < 64 && Touches(p, im, b, i) ==>
                   Follows(p.c, After(passes, im, b, i)) || (ah == 0 && After(passes, im, b, i) == AllBut(0))
  {
    hide Index, Real, Touches, ZigzagOrder, NaturalOrder, After;
    RealInside(im, k, y, x);
    var b := Index(im, k, y, x);
    FirstOfAll();
    assert bits[k][ZigzagOrder(0)] == Precision(After(passes, im, b, 0));
    forall i: nat | i < 64
      ensures Touches(p, im, b, i) <==> ss <= ZigzagOrder(i) <= se
      ensures bits[k][ZigzagOrder(i)] == Precision(After(passes, im, b, i))
    {
      TouchesReal(p, im, ss, se, ah, k, y, x, i);
    }
    forall j: nat | j < 64
      ensures j == ZigzagOrder(NaturalOrder(j))
    {
      ZigzagOfNatural(j);
    }
    var fine := forall i: nat :: i < 64 && Touches(p, im, b, i) ==>
                  Follows(p.c, After(passes, im, b, i)) || (ah == 0 && After(passes, im, b, i) == AllBut(0));
    if InOrder(bits[k], ss, se, ah) {
      forall i: nat | i < 64 && Touches(p, im, b, i)
        ensures Follows(p.c, After(passes, im, b, i)) || (ah == 0 && After(passes, im, b, i) == AllBut(0))
      {
        assert ah == Expected(bits[k][ZigzagOrder(i)]);
      }
    }
    if fine {
      forall j: nat | j < 64 && ss <= j <= se
        ensures ah == Expected(bits[k][j])
      {
        var i := NaturalOrder(j);
        assert Touches(p, im, b, i);
      }
    }
  }

  /** Where the record says that all bits of a component have been sent, its blocks have been restored. */
  lemma CompleteIsRestored(bits: seq<Row>, passes: seq<Pass>, im: Image, img: seq<Block>, coefs: seq<Block>, k: nat, y: nat, x: nat)
    requires Matches(bits, passes, im) && KnownTo(passes, im, img, coefs) && |img| == TotalBlocks(im)
    requires Real(im, k, y, x) && forall i :: 0 <= i < 64 ==> bits[k][i] == 0
    ensures Index(im, k, y, x) < |img| && coefs[Index(im, k, y, x)] == img[Index(im, k, y, x)]
  {
    hide After, ZigzagOrder, HeightInBlocks, WidthInBlocks, PaddedHeight, PaddedWidth;
    IndexInside(im, k, y, x);
    var b := Index(im, k, y, x);
    hide Index;
    forall i | 0 <= i < 64
      ensures coefs[b][i] == img[b][i]
    {
      assert bits[k][ZigzagOrder(i)] == Precision(After(passes, im, b, i));
      Whole(img[b][i]);
    }
  }
}
