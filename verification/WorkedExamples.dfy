/** Streams written out and what decoding makes of them, one of each kind of AC coding
    (jdhuff.c, jdphuff.c; sections F.2.2 and G.2 of ITU-T T.81). The tables give each symbol the eight-bit code of its own number. */
module WorkedExamples {
  import opened Bits
  import opened HuffmanTable
  import opened ByteStream
  import opened Coefficients
  import opened EntropySpec
  import opened BaselineEncoder
  import opened BitPlanes
  import opened ProgressiveEncoder
  import opened Encodable
  import Overflow

  const DC: JHuffTbl := FlatTable(12)
  const AC: JHuffTbl := FlatTable(251)

  lemma {:induction false} FlatFirst(n: nat, l: nat)
    requires l <= 8
    ensures FirstCode(FlatTable(n), l) == 0
  {
    if l > 1 {
      FlatFirst(n, l - 1);
    }
  }

  lemma {:induction false} FlatFind(n: nat, sym: nat, p: nat)
    requires p <= sym < n <= 255
    ensures Offset(FlatTable(n), 17) == n && FindSymbol(FlatTable(n), sym, p) == sym
    decreases sym - p
  {
    hide Offset;
    FlatOffset(n, 17);
    if p < sym {
      FlatFind(n, sym, p + 1);
    }
  }

  /** The code of a symbol is its number. */
  lemma FlatCode(n: nat, sym: nat)
    requires sym < n <= 255
    ensures Codes(FlatTable(n), sym) && Code(FlatTable(n), sym) == LowBits(sym, 8)
  {
    hide Offset, FirstCode, LowBits, FindSymbol, FlatTable, Codes, Code;
    FlatFind(n, sym, 0);
    FlatOffset(n, 8);
    FlatOffset(n, 9);
    FlatFirst(n, 8);
    CodeOfEight(FlatTable(n), sym);
  }

  lemma CodeOfEight(t: JHuffTbl, sym: nat)
    requires sym < Offset(t, 9) == Offset(t, 17) <= 256 && FindSymbol(t, sym, 0) == sym && Offset(t, 8) == 0 && FirstCode(t, 8) == 0
    ensures Codes(t, sym) && Code(t, sym) == LowBits(sym, 8)
  {
    hide Offset, FirstCode, LowBits, FindSymbol;
    LengthUnique(t, sym, 8);
  }

  /** Reading eight bits as a symbol. */
  lemma Next(t: JHuffTbl, s: seq<bool>, p: nat, sym: nat)
    requires (t == DC && sym < 12) || (t == AC && sym < 251)
    requires HasAt(s, p, LowBits(sym, 8))
    ensures SymbolLength(t, s, p) == 8 && NextSymbol(t, s, p) == sym
  {
    hide Offset, FirstCode, LowBits, FindSymbol, CodesFit, Codes, Code, SymbolLength, NextSymbol, HasAt, FlatTable;
    TablesExist();
    FlatCode(12, if sym < 12 then sym else 0);
    FlatCode(251, sym);
    SymbolComesBack(t, s, p, sym);
  }

  lemma One(s: seq<bool>, p: nat, a: bool)
    requires HasAt(s, p, [a])
    ensures Receive(s, p, 1) == (if a then 1 else -1) && Peek(s, p, 1) == if a then 1 else 0
  {
    BitAt(s, p, a);
    assert Shl(1, 1) == 2 && Shl(1, 0) == 1;
  }

  /** Eight appended bits: a byte from 128 on is itself, one below it negative. */
  lemma Eight(s: seq<bool>, p: nat, x: Byte)
    requires HasAt(s, p, LowBits(x, 8))
    ensures Receive(s, p, 8) == (if x >= 128 then x else x - 255) && Peek(s, p, 8) == x
  {
    hide LowBits, Value, HasAt, Window;
    WindowAt(s, p, LowBits(x, 8));
    PowersOfTwo();
    ValueOfSmall(x, 8);
    assert Shl(1, 8) == 2 * Shl(1, 7);
  }

  // ----- bytes -----

  /** Bytes as they are transmitted, without stuffing. */
  function Spelt(data: seq<Byte>): seq<bool> {
    if data == [] then [] else LowBits(data[0], 8) + Spelt(data[1..])
  }

  lemma NextByte(s: seq<bool>, p: nat, data: seq<Byte>)
    requires data != [] && HasAt(s, p, Spelt(data))
    ensures HasAt(s, p, LowBits(data[0], 8)) && HasAt(s, p + 8, Spelt(data[1..]))
  {
    hide LowBits, HasAt;
    HasParts(s, p, LowBits(data[0], 8), Spelt(data[1..]));
  }

  lemma ByteRead(file: seq<Byte>, pos: nat)
    requires pos + 1 < |file|
    ensures file[pos] < 255 ==> var r := SegmentAt(file, pos + 1); SegmentAt(file, pos) == Segment(LowBits(file[pos], 8) + r.bits, r.marker, r.after)
    ensures file[pos] == 255 && file[pos + 1] == 0 ==>
              var r := SegmentAt(file, pos + 2); SegmentAt(file, pos) == Segment(LowBits(255, 8) + r.bits, r.marker, r.after)
    ensures file[pos] == 255 && 0 < file[pos + 1] < 255 ==> SegmentAt(file, pos) == Segment([], file[pos + 1], pos + 2)
  {
    hide LowBits, ReadDatum;
    BytesMean(file, pos);
  }

  // ----- a sequential MCU, from its bytes -----

  const SEQUENTIAL: Scan := ScanRaw.Scan(Baseline, 0, 63, 0, 0, [0], [DC], [AC], [true], [true])

  /** DC category 8 and 0x35, run 2 of size 8 and 0xFF, end of block. */
  const SENT: seq<Byte> := [0x08, 0x35, 0x28, 0xFF, 0x00]

  /** In the file the byte FF has a zero after it; EOI follows. */
  lemma SentAsBytes()
    ensures SegmentAt([0x08, 0x35, 0x28, 0xFF, 0x00, 0x00, 0xFF, 0xD9], 0) == Segment(Spelt(SENT), 0xD9, 8)
  {
    hide LowBits, SegmentAt;
    var file: seq<Byte> := [0x08, 0x35, 0x28, 0xFF, 0x00, 0x00, 0xFF, 0xD9];
    ByteRead(file, 0);
    ByteRead(file, 1);
    ByteRead(file, 2);
    ByteRead(file, 3);
    ByteRead(file, 5);
    ByteRead(file, 6);
    SpeltOut();
  }

  lemma SpeltOut()
    ensures Spelt(SENT) == LowBits(0x08, 8) + (LowBits(0x35, 8) + (LowBits(0x28, 8) + (LowBits(0xFF, 8) + (LowBits(0x00, 8) + []))))
    ensures |Spelt(SENT)| == 40
  {
    hide LowBits;
    assert SENT[1..] == [0x35, 0x28, 0xFF, 0x00] && SENT[1..][1..] == [0x28, 0xFF, 0x00];
    assert SENT[1..][1..][1..] == [0xFF, 0x00] && SENT[1..][1..][1..][1..] == [0x00];
    assert SENT[1..][1..][1..][1..][1..] == [];
  }

  /** Decoding it: DC -202, and 255 in row 2, column 0 of the block. */
  lemma SequentialExample(coefs: seq<Block>, dc: Predictions)
    requires |coefs| == 1 && dc[0] == 0
    ensures McuOutcome(SEQUENTIAL, [0], coefs, Spelt(SENT), 0, 0, dc) == Outcome([Put(0, 0, -202), Put(0, 16, 255)], 40, 0, dc[0 := -202])
  {
    hide LowBits, HasAt, Receive, SymbolLength, NextSymbol, FlatTable, BaselineEdits, AcEdits, Spelt;
    SentSymbols();
    AcExample(Spelt(SENT));
    BlockExample(SEQUENTIAL, Spelt(SENT), dc);
  }

  lemma SentSymbols()
    ensures var s := Spelt(SENT);
            && SymbolLength(DC, s, 0) == 8 && NextSymbol(DC, s, 0) == 8 && Receive(s, 8, 8) == -202
            && SymbolLength(AC, s, 16) == 8 && NextSymbol(AC, s, 16) == 0x28 && Receive(s, 24, 8) == 255
            && SymbolLength(AC, s, 32) == 8 && NextSymbol(AC, s, 32) == 0
  {
    hide LowBits, HasAt, Receive, SymbolLength, NextSymbol, FlatTable, Spelt;
    var s := Spelt(SENT);
    assert HasAt(s, 0, s) by { Overflow.Whole(s); }
    NextByte(s, 0, SENT);
    NextByte(s, 8, SENT[1..]);
    NextByte(s, 16, SENT[2..]);
    NextByte(s, 24, SENT[3..]);
    assert SENT[1..][1..] == SENT[2..] && SENT[2..][1..] == SENT[3..] && SENT[3..][1..] == SENT[4..];
    NextByte(s, 32, SENT[4..]);
    Next(DC, s, 0, 8);
    Eight(s, 8, 0x35);
    Next(AC, s, 16, 0x28);
    Eight(s, 24, 0xFF);
    Next(AC, s, 32, 0);
  }

  lemma AcExample(s: seq<bool>)
    requires SymbolLength(AC, s, 16) == 8 && NextSymbol(AC, s, 16) == 0x28 && Receive(s, 24, 8) == 255
    requires SymbolLength(AC, s, 32) == 8 && NextSymbol(AC, s, 32) == 0
    ensures AcEdits(AC, s, 16, 1, 0) == ([Put(0, 16, 255)], 40)
  {
    hide Receive, SymbolLength, NextSymbol, AcEdits;
    AcUnfold(AC, s, 16, 1, 0);
    AcUnfold(AC, s, 32, 4, 0);
    assert NaturalOrder(3) == 16 && Wrap16(255) == 255;
    var e := Put(0, 16, 255);
    assert [e] + [] == [e];
  }

  lemma BlockExample(c: Scan, s: seq<bool>, dc: Predictions)
    requires c.mode.Baseline? && c.membership == [0] && c.dcNeeded == c.acNeeded == [true] && dc[0] == 0
    requires SymbolLength(c.dcTbl[0], s, 0) == 8 && NextSymbol(c.dcTbl[0], s, 0) == 8 && Receive(s, 8, 8) == -202
    requires AcEdits(c.acTbl[0], s, 16, 1, 0) == ([Put(0, 16, 255)], 40)
    ensures BaselineEdits(c, [0], s, 0, 0, dc, 0) == Outcome([Put(0, 0, -202), Put(0, 16, 255)], 40, 0, dc[0 := -202])
  {
    hide Receive, SymbolLength, NextSymbol, AcEdits;
    var all := [Put(0, 0, -202)] + [Put(0, 16, 255)];
    assert all + [] == all;
  }

  // ----- a first scan of a band -----

  const FIRST: Scan := ScanRaw.Scan(ACFirst, 1, 5, 1, 0, [0], [DC], [AC], [true], [true])

  /** A value of size 8 and 0x01, then an EOB run of 2^8 and 0x05 blocks. */
  const FIRST_SENT: seq<Byte> := [0x08, 0x01, 0x80, 0x05]

  lemma FirstSymbols()
    ensures var s := Spelt(FIRST_SENT);
            && SymbolLength(AC, s, 0) == 8 && NextSymbol(AC, s, 0) == 0x08 && Receive(s, 8, 8) == -254
            && SymbolLength(AC, s, 16) == 8 && NextSymbol(AC, s, 16) == 0x80 && Peek(s, 24, 8) == 5
  {
    hide LowBits, HasAt, Receive, SymbolLength, NextSymbol, FlatTable, Spelt, Peek;
    var s := Spelt(FIRST_SENT);
    assert HasAt(s, 0, s) by { Overflow.Whole(s); }
    NextByte(s, 0, FIRST_SENT);
    NextByte(s, 8, FIRST_SENT[1..]);
    assert FIRST_SENT[1..][1..] == FIRST_SENT[2..] && FIRST_SENT[2..][1..] == FIRST_SENT[3..];
    NextByte(s, 16, FIRST_SENT[2..]);
    NextByte(s, 24, FIRST_SENT[3..]);
    Next(AC, s, 0, 0x08);
    Eight(s, 8, 0x01);
    Next(AC, s, 16, 0x80);
    Eight(s, 24, 0x05);
  }

  /** -254 is stored shifted by 1, and 260 blocks are left of the run of 261. */
  lemma FirstExample(coefs: seq<Block>, dc: Predictions)
    requires |coefs| == 1
    ensures McuOutcome(FIRST, [0], coefs, Spelt(FIRST_SENT), 0, 0, dc) == Outcome([Put(0, 1, -508)], 32, 260, dc)
  {
    hide LowBits, Receive, SymbolLength, NextSymbol, FlatTable, AcFirstEdits, Spelt, Peek;
    FirstSymbols();
    FirstRead(AC, Spelt(FIRST_SENT), dc);
  }

  lemma FirstRead(t: JHuffTbl, s: seq<bool>, dc: Predictions)
    requires SymbolLength(t, s, 0) == 8 && NextSymbol(t, s, 0) == 0x08 && Receive(s, 8, 8) == -254
    requires SymbolLength(t, s, 16) == 8 && NextSymbol(t, s, 16) == 0x80 && Peek(s, 24, 8) == 5
    ensures AcFirstEdits(t, s, 0, 1, 5, 1, 0, dc) == Outcome([Put(0, 1, -508)], 32, 260, dc)
  {
    hide Receive, SymbolLength, NextSymbol, AcFirstEdits, Peek;
    FirstUnfold(t, s, 0, 1, 5, 1, 0, dc);
    FirstUnfold(t, s, 16, 2, 5, 1, 0, dc);
    PowersOfTwo();
    assert NaturalOrder(1) == 1 && Shl(-254, 1) == -508 && Wrap16(-508) == -508;
    var e := Put(0, 1, -508);
    assert [e] + [] == [e];
  }

  // ----- a refinement of a band -----

  const SECOND: Scan := ScanRaw.Scan(ACRefine, 1, 3, 0, 0, [0], [DC], [AC], [true], [true])

  /** Run 1 of size 1, its sign bit 0, and a correction bit 1. */
  function SecondSent(): seq<bool> {
    LowBits(0x11, 8) + [false, true]
  }

  /** The coefficient known to be 2 is corrected to 3; the run of one zero skips the next, and the one after it becomes -1. */
  lemma SecondExample(coefs: seq<Block>, dc: Predictions)
    requires |coefs| == 1 && coefs[0][1] == 2 && coefs[0][8] == 0 && coefs[0][16] == 0
    ensures var o := McuOutcome(SECOND, [0], coefs, SecondSent(), 0, 0, dc);
            && o == Outcome([Raise(0, 1, 0), Put(0, 16, -1)], 10, 0, dc)
            && Raised(2, 0) == 3
  {
    hide LowBits, HasAt, SymbolLength, NextSymbol, FlatTable, BandEdits, Peek, NonZero;
    var s := SecondSent();
    assert HasAt(s, 0, s) by { Overflow.Whole(s); }
    HasParts(s, 0, LowBits(0x11, 8), [false, true]);
    assert [false, true] == [false] + [true];
    HasParts(s, 8, [false], [true]);
    Next(AC, s, 0, 0x11);
    BitAt(s, 8, false);
    BitAt(s, 9, true);
    SecondPattern(coefs[0]);
    SecondRead(AC, s, NonZero(coefs[0]));
  }

  lemma SecondPattern(b: Block)
    requires b[1] == 2 && b[8] == 0 && b[16] == 0
    ensures var nz := NonZero(b); nz[NaturalOrder(1)] && !nz[NaturalOrder(2)] && !nz[NaturalOrder(3)]
  {
  }

  lemma SecondRead(t: JHuffTbl, s: seq<bool>, nz: Pattern)
    requires SymbolLength(t, s, 0) == 8 && NextSymbol(t, s, 0) == 0x11 && Peek(s, 8, 1) == 0 && Peek(s, 9, 1) == 1
    requires nz[NaturalOrder(1)] && !nz[NaturalOrder(2)] && !nz[NaturalOrder(3)]
    ensures BandEdits(t, s, 0, 1, 3, 0, 0, nz) == Refined([Raise(0, 1, 0), Put(0, 16, -1)], 10, 4, 0)
  {
    hide SymbolLength, NextSymbol, BandEdits, Peek;
    BandUnfold(t, s, 0, 1, 3, 0, 0, nz);
    BandUnfold(t, s, 10, 4, 3, 0, 0, nz);
    assert NaturalOrder(1) == 1 && NaturalOrder(3) == 16;
    assert Advance(s, 10, 3, 3, 0, 0, 0, nz) == Refined([], 10, 3, 0);
    assert Advance(s, 10, 2, 3, 1, 0, 0, nz) == Refined([], 10, 3, 0);
    var fix, new1 := Raise(0, 1, 0), Put(0, 16, -1);
    assert Advance(s, 9, 1, 3, 1, 0, 0, nz) == Refined([fix] + [], 10, 3, 0);
    assert Shl(-1, 0) == -1 && Wrap16(-1) == -1;
    assert [fix] + [] + [new1] + [] == [fix, new1];
  }
}
