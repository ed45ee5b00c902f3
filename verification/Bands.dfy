/** What a legal stream keeps to: the runs of a band end inside it, and its values fit in 16 bits once they are shifted
    (sections G.1.2.2 and G.1.2.3 of ITU-T T.81; jdphuff.c checks neither). */
module Bands {
  import opened HuffmanTable
  import opened ByteStream
  import opened Coefficients
  import opened EntropySpec
  import opened BitPlanes

  /** No run of a first pass leads past the end of its band. */
  ghost predicate FirstInside(t: JHuffTbl, s: seq<bool>, p: nat, k: nat, se: nat)
    requires se <= 63
    decreases 64 - k
  {
    if k > se then true
    else
      var p1, rs := p + SymbolLength(t, s, p), NextSymbol(t, s, p);
      var run, size := rs / 16, rs % 16;
      if size != 0 then k + run <= se && FirstInside(t, s, p1 + size, k + run + 1, se)
      else if run == 15 then FirstInside(t, s, p1, k + 16, se)
      else true
  }

  ghost predicate McuInBand(c: Scan, mcu: seq<nat>, coefs: seq<Block>, s: seq<bool>, p: nat, eobrun: nat)
    requires McuFits(c, mcu, |coefs|)
  {
    match c.mode
    case ACFirst => eobrun > 0 || FirstInside(c.acTbl[0], s, p, c.ss, c.se)
    case ACRefine => LegalRefinement(c, mcu, coefs, s, p, eobrun)
    case _ => true
  }

  /** The runs of an MCU, if it is decoded, stay in the band. */
  ghost predicate StepInBand(c: Scan, mcu: seq<nat>, file: seq<Byte>, st: State, coefs: seq<Block>)
    requires McuFits(c, mcu, |coefs|)
  {
    var b := Begin(c, file, st);
    b.stream.Running? && !b.starved ==> McuInBand(c, mcu, coefs, b.stream.seg.bits, b.stream.at, b.eobrun)
  }

  /** All values of a band fit in 16 bits once they are shifted, as their sizes tell. */
  ghost predicate SizesFit(t: JHuffTbl, s: seq<bool>, p: nat, k: nat, se: nat, al: nat)
    requires se <= 63
    decreases 64 - k
  {
    if k > se then true
    else
      var p1, rs := p + SymbolLength(t, s, p), NextSymbol(t, s, p);
      var run, size := rs / 16, rs % 16;
      if size != 0 then size + al <= 15 && SizesFit(t, s, p1 + size, k + run + 1, se, al)
      else if run == 15 then SizesFit(t, s, p1, k + 16, se, al)
      else true
  }

  ghost predicate StepSizesFit(c: Scan, mcu: seq<nat>, file: seq<Byte>, st: State, coefs: seq<Block>)
    requires McuFits(c, mcu, |coefs|)
  {
    var b := Begin(c, file, st);
    c.mode.ACFirst? && b.stream.Running? && !b.starved && b.eobrun == 0 ==>
      SizesFit(c.acTbl[0], b.stream.seg.bits, b.stream.at, c.ss, c.se, c.al)
  }
}
