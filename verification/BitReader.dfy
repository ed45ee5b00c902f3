/** The bit buffer of the entropy decoders over a byte source of which only a growing
    prefix is available (jdhuff.h, jdhuff.c), and the restart-marker reader (jdmarker.c). */
module BitReader {
  import opened Bits
  import opened HuffmanTable
  import opened ByteStream

  const BIT_BUF_SIZE := 32
  const MIN_GET_BITS: nat := 25

  /** A 32-bit two's-complement register. */
  function Wrap32(x: int): (r: int)
    ensures -0x8000_0000 <= r < 0x8000_0000
  {
    (x + 0x8000_0000) % 0x1_0000_0000 - 0x8000_0000
  }

  lemma Shl32(q: int)
    ensures Shl(q, 32) == 0x1_0000_0000 * q
  {
    Shl16(q);
    Shl16(0x1_0000 * q);
    ShlShl(q, 16, 16);
  }

  /** Wrapping to 32 bits keeps the low 32 bits. */
  lemma WrapKeepsBits(x: int, n: nat)
    requires n <= 32
    ensures LowBits(Wrap32(x), n) == LowBits(x, n)
  {
    var q := (x + 0x8000_0000) / 0x1_0000_0000;
    Shl32(q);
    ShlShl(q, 32 - n, n);
    LowBitsModulo(Wrap32(x), Shl(q, 32 - n), n);
  }

  lemma {:induction false} ZeroBits(k: nat)
    ensures LowBits(0, k) == seq(k, _ => false)
  {
    if k > 0 {
      ZeroBits(k - 1);
    }
  }

  /** Shifting in the next byte of the stream extends the buffered window by 8 bits. */
  lemma ShiftInByte(s: seq<bool>, p: nat, buffer: int, bits: nat, c: Byte)
    requires LowBits(buffer, bits) == Window(s, p, bits) && bits < MIN_GET_BITS
    requires p + bits <= |s| && LowBits(c, 8) <= s[p + bits..]
    ensures LowBits(Wrap32(Shl(buffer, 8) + c), bits + 8) == Window(s, p, bits + 8)
  {
    PowersOfTwo();
    LowBitsAppend(buffer, c, bits, 8);
    WrapKeepsBits(Shl(buffer, 8) + c, bits + 8);
    WindowOfPrefix(s, p + bits, LowBits(c, 8));
    JoinWindow(s, p, bits, 8);
  }

  lemma JoinWindow(s: seq<bool>, p: nat, n: nat, k: nat)
    ensures Window(s, p, n) + Window(s, p + n, k) == Window(s, p, n + k)
  {
  }

  /** Shifting in zeros extends a window that already covers the stream. */
  lemma ShiftInZeros(s: seq<bool>, p: nat, buffer: int, bits: nat, k: nat)
    requires LowBits(buffer, bits) == Window(s, p, bits) && p + bits >= |s| && bits + k <= 32
    ensures LowBits(Wrap32(Shl(buffer, k)), bits + k) == Window(s, p, bits + k)
  {
    ShlPositive(k);
    LowBitsAppend(buffer, 0, bits, k);
    WrapKeepsBits(Shl(buffer, k), bits + k);
    ZeroBits(k);
    assert Window(s, p + bits, k) == LowBits(0, k);
    JoinWindow(s, p, bits, k);
  }

  /** GET_BITS: shift and mask deliver the leading n bits and leave the others. */
  lemma ShiftAndMask(s: seq<bool>, p: nat, buffer: int, bits: nat, n: nat)
    requires LowBits(buffer, bits) == Window(s, p, bits) && n <= bits
    ensures Mask(Shr(buffer, bits - n), n) == Peek(s, p, n) < Shl(1, n)
    ensures LowBits(buffer, bits - n) == Window(s, p + n, bits - n)
  {
    LowBitsSplit(buffer, bits, n);
    WindowSplit(s, p, bits, n);
    ValueOfLowBits(Shr(buffer, bits - n), n);
    ShrMask(Shr(buffer, bits - n), n);
  }

  /** Position, buffer and bit count together stand at bit p of segment seg of the file. */
  ghost predicate StandsAt(file: seq<Byte>, seg: Segment, unread: Byte, pos: nat, buffer: int, bits: nat, p: nat) {
    && bits <= BIT_BUF_SIZE && -0x8000_0000 <= buffer < 0x8000_0000
    && LowBits(buffer, bits) == Window(seg.bits, p, bits)
    && (unread == 0 ==>
          && p + bits <= |seg.bits|
          && SegmentAt(file, pos) == Segment(seg.bits[p + bits..], seg.marker, seg.after))
    && (unread != 0 ==> p + bits >= |seg.bits| && unread == seg.marker && pos == seg.after)
  }

  lemma LoadByte(file: seq<Byte>, seg: Segment, start: nat, next: nat, buffer: int, bits: nat, p: nat, c: Byte)
    requires StandsAt(file, seg, 0, start, buffer, bits, p) && bits < MIN_GET_BITS
    requires ReadDatum(file, start) == Data(c, next)
    ensures StandsAt(file, seg, 0, next, Wrap32(Shl(buffer, 8) + c), bits + 8, p)
  {
    hide LowBits, Window, ReadDatum, Shl, Wrap32;
    var rest := SegmentAt(file, next).bits;
    assert seg.bits[p + bits..] == LowBits(c, 8) + rest;
    assert seg.bits[p + bits + 8..] == rest;
    ShiftInByte(seg.bits, p, buffer, bits, c);
  }

  lemma MeetMarker(file: seq<Byte>, seg: Segment, start: nat, next: nat, buffer: int, bits: nat, p: nat, m: Marker)
    requires StandsAt(file, seg, 0, start, buffer, bits, p) && ReadDatum(file, start) == Mark(m, next)
    ensures StandsAt(file, seg, m, next, buffer, bits, p) && p + bits == |seg.bits|
  {
  }

  lemma Starve(file: seq<Byte>, seg: Segment, unread: Byte, pos: nat, buffer: int, bits: nat, p: nat)
    requires StandsAt(file, seg, unread, pos, buffer, bits, p) && unread != 0 && bits <= MIN_GET_BITS
    ensures StandsAt(file, seg, unread, pos, Wrap32(Shl(buffer, MIN_GET_BITS - bits)), MIN_GET_BITS, p)
  {
    ShiftInZeros(seg.bits, p, buffer, bits, MIN_GET_BITS - bits);
  }

  lemma StandsWithin(file: seq<Byte>, seg: Segment, unread: Byte, pos: nat, buffer: int, bits: nat, p: nat)
    requires StandsAt(file, seg, unread, pos, buffer, bits, p)
    ensures unread == 0 ==> p + bits <= |seg.bits|
    ensures unread == 0 && seg.marker != 0 ==> !ReadDatum(file, pos).Exhausted?
    ensures unread != 0 ==> p + bits >= |seg.bits|
  {
  }

  /** GET_BITS: shift and mask deliver the next n bits, and the rest of the buffer stands n further. */
  lemma DropBits(file: seq<Byte>, seg: Segment, unread: Byte, pos: nat, buffer: int, bits: nat, p: nat, n: nat)
    requires StandsAt(file, seg, unread, pos, buffer, bits, p) && n <= bits
    ensures Mask(Shr(buffer, bits - n), n) == Peek(seg.bits, p, n) < Shl(1, n)
    ensures StandsAt(file, seg, unread, pos, buffer, bits - n, p + n)
  {
    ShiftAndMask(seg.bits, p, buffer, bits, n);
    assert p + bits == (p + n) + (bits - n);
  }

  lemma FreshSegment(file: seq<Byte>, unread: Byte, pos: nat, buffer: int)
    requires -0x8000_0000 <= buffer < 0x8000_0000
    ensures StandsAt(file, SegmentFrom(file, unread, pos), unread, pos, buffer, 0, 0)
  {
    var s := SegmentFrom(file, unread, pos);
    assert s.bits[0..] == s.bits;
  }

  class BitReader {
    const file: seq<Byte>
    /** How much of the file the data source has delivered so far. */
    var avail: nat
    var unreadMarker: Byte
    var insufficientData: bool
    var nextRestartNum: nat

    // permanent state, as of the last completed MCU
    var srcPos: nat
    var permBuffer: int
    var permBits: nat
    ghost var permAt: nat

    // working state within an MCU
    var nextInput: nat
    var getBuffer: int
    var bitsLeft: nat
    ghost var at: nat

    /** The entropy-coded segment being read; `at` and `permAt` count the bits consumed from it. */
    ghost var seg: Segment

    ghost predicate AtRest()
      reads this
    {
      && srcPos <= avail <= |file|
      && StandsAt(file, seg, unreadMarker, srcPos, permBuffer, permBits, permAt)
      && (permAt + permBits > |seg.bits| ==> insufficientData)
    }

    ghost predicate Working()
      reads this
    {
      && nextInput <= avail <= |file|
      && StandsAt(file, seg, unreadMarker, nextInput, getBuffer, bitsLeft, at)
      && (at + bitsLeft > |seg.bits| ==> insufficientData)
    }

    /** The permanent state, the segment and the delivered prefix are as they were. */
    twostate predicate SameRest()
      reads this
    {
      && srcPos == old(srcPos) && permBuffer == old(permBuffer) && permBits == old(permBits) && permAt == old(permAt)
      && avail == old(avail) && seg == old(seg) && nextRestartNum == old(nextRestartNum)
    }

    /** A marker once met stays, and only running into one can starve the decoder. */
    twostate predicate KeptMarker()
      reads this
    {
      && (old(unreadMarker) != 0 ==> unreadMarker == old(unreadMarker))
      && (unreadMarker == 0 ==> insufficientData == old(insufficientData))
    }

    /** Bits were consumed; the decoder is starved exactly when they went past the segment. */
    twostate predicate Advanced()
      reads this
    {
      && Working() && SameRest() && KeptMarker() && at >= old(at)
      && insufficientData == (old(insufficientData) || at > |seg.bits|)
    }

    /** Giving up for want of bytes, which happens before any marker, leaves all but the working state. */
    twostate predicate Abandoned()
      reads this
    {
      && SameRest() && unreadMarker == 0 && old(unreadMarker) == 0 && insufficientData == old(insufficientData)
      && (avail == |file| ==> seg.marker == 0)
    }

    /** A source of which a part has been delivered, read as far as the end of a scan header. */
    constructor (file: seq<Byte>, avail: nat, pos: nat)
      requires pos <= avail <= |file|
      ensures this.file == file && this.avail == avail && AfterHeader(pos)
    {
      this.file, this.avail, srcPos := file, avail, pos;
      unreadMarker, nextRestartNum, insufficientData := 0, 0, false;
      permBuffer, permBits, permAt := 0, 0, 0;
      nextInput, getBuffer, bitsLeft, at := pos, 0, 0, 0;
      seg := SegmentAt(file, pos);
    }

    /** The marker reader has just taken a scan header: it holds no marker, and the first restart will be RST0. */
    predicate AfterHeader(pos: nat)
      reads this
    {
      srcPos == pos <= avail <= |file| && unreadMarker == 0 && nextRestartNum == 0
    }

    /** The marker reader takes the next scan header, which ends at byte pos. */
    method TakeHeader(pos: nat)
      requires pos <= avail <= |file|
      modifies this`srcPos, this`unreadMarker, this`nextRestartNum
      ensures AfterHeader(pos)
    {
      srcPos, unreadMarker, nextRestartNum := pos, 0, 0;
    }

    /** The parameters of a marker have been read as far as byte pos; the next marker comes after them. */
    method SkipTo(pos: nat)
      requires pos <= avail <= |file|
      modifies this`srcPos, this`unreadMarker
      ensures srcPos == pos && unreadMarker == 0
    {
      srcPos, unreadMarker := pos, 0;
    }

    /** Fresh bit state at the start of a scan: the segment from here on, none of its bits consumed. */
    method Reset()
      requires srcPos <= avail <= |file|
      modifies this`permBuffer, this`permBits, this`permAt, this`seg, this`insufficientData
      ensures AtRest() && permAt == 0 && !insufficientData && seg == SegmentFrom(file, unreadMarker, srcPos)
    {
      permBits, permBuffer := 0, 0;
      insufficientData := false;
      seg, permAt := SegmentFrom(file, unreadMarker, srcPos), 0;
      FreshSegment(file, unreadMarker, srcPos, 0);
    }

    /** BITREAD_LOAD_STATE */
    method Load()
      requires AtRest()
      modifies this`nextInput, this`getBuffer, this`bitsLeft, this`at
      ensures Working() && at == permAt && SameRest()
    {
      nextInput, getBuffer, bitsLeft, at := srcPos, permBuffer, permBits, permAt;
    }

    /** BITREAD_SAVE_STATE */
    method Save()
      requires Working()
      modifies this`srcPos, this`permBuffer, this`permBits, this`permAt
      ensures AtRest() && permAt == at
    {
      srcPos, permBuffer, permBits, permAt := nextInput, getBuffer, bitsLeft, at;
    }

    /** One data byte or marker from position pos, unless the source has not delivered all of it. */
    method NextDatum(pos: nat) returns (ok: bool, d: Datum)
      requires pos <= avail <= |file|
      ensures ok ==> d == ReadDatum(file, pos) && !d.Exhausted? && d.next <= avail
      ensures avail == |file| && !ReadDatum(file, pos).Exhausted? ==> ok
    {
      ok, d := false, Exhausted;
      var next := pos;
      if next == avail {
        return;
      }
      var c: Byte := file[next];
      next := next + 1;
      if c != FILL {
        return true, Data(c, next);
      }
      while c == FILL
        invariant pos < next <= avail && c == file[next - 1]
        invariant SkipFill(file, pos + 1) == SkipFill(file, if c == FILL then next else next - 1)
        invariant c != FILL ==> next > pos + 1
        decreases avail - next, c == FILL
      {
        if next == avail {
          return;
        }
        c := file[next];
        next := next + 1;
      }
      return true, if c == 0 then Data(FILL, next) else Mark(c, next);
    }

    /** jm_jpeg_fill_bit_buffer: on success the buffer holds nbits bits of the same segment at the
        same place; it fails only for want of bytes, before any marker, and changes nothing then. */
    method FillBitBuffer(nbits: nat) returns (ok: bool)
      requires Working() && nbits <= MIN_GET_BITS
      modifies this
      ensures ok ==> Working() && SameRest() && KeptMarker() && at == old(at) && bitsLeft >= nbits
      ensures ok ==> insufficientData == (old(insufficientData) || at + nbits > |seg.bits|)
      ensures !ok ==> Abandoned()
    {
      hide StandsAt, LowBits, Window;
      StandsWithin(file, seg, unreadMarker, nextInput, getBuffer, bitsLeft, at);
      var next: nat, buffer: int, bits: nat := nextInput, getBuffer, bitsLeft;
      var marker := unreadMarker;
      while marker == 0 && bits < MIN_GET_BITS
        invariant unchanged(this)
        invariant next <= avail && StandsAt(file, seg, marker, next, buffer, bits, at)
        invariant unreadMarker != 0 ==> marker == unreadMarker && bits == bitsLeft
        invariant unreadMarker == 0 ==> at + bits <= |seg.bits|
        decreases avail - next, marker == 0
      {
        StandsWithin(file, seg, 0, next, buffer, bits, at);
        var ready, d := NextDatum(next);
        if !ready {
          return false;
        }
        match d {
          case Mark(m, q) =>
            MeetMarker(file, seg, next, q, buffer, bits, at, m);
            marker, next := m, q;
          case Data(c, q) =>
            LoadByte(file, seg, next, q, buffer, bits, at, c);
            buffer, bits, next := Wrap32(Shl(buffer, 8) + c), bits + 8, q;
            StandsWithin(file, seg, 0, next, buffer, bits, at);
        }
      }
      StandsWithin(file, seg, marker, next, buffer, bits, at);
      unreadMarker := marker;
      if marker != 0 && nbits > bits {
        Starve(file, seg, marker, next, buffer, bits, at);
        insufficientData := true;
        buffer := Wrap32(Shl(buffer, MIN_GET_BITS - bits));
        bits := MIN_GET_BITS;
      }
      nextInput, getBuffer, bitsLeft := next, buffer, bits;
      ok := true;
    }

    /** GET_BITS on a buffer that is full enough. */
    method GetBits(n: nat) returns (r: nat)
      requires Working() && n <= bitsLeft
      modifies this`bitsLeft, this`at
      ensures Working() && SameRest() && at == old(at) + n && r == Peek(seg.bits, old(at), n) < Shl(1, n)
    {
      DropBits(file, seg, unreadMarker, nextInput, getBuffer, bitsLeft, at, n);
      bitsLeft := bitsLeft - n;
      r := Mask(Shr(getBuffer, bitsLeft), n);
      at := at + n;
    }

    /** CHECK_BIT_BUFFER followed by GET_BITS: the next n bits of the segment, zero-extended. */
    method TakeBits(n: nat) returns (ok: bool, r: nat)
      requires Working() && n <= 16
      modifies this
      ensures ok ==> Advanced() && at == old(at) + n && r == Peek(seg.bits, old(at), n) < Shl(1, n)
      ensures !ok ==> Abandoned()
    {
      ok, r := true, 0;
      if bitsLeft < n {
        ok := FillBitBuffer(n);
        if !ok {
          return;
        }
      }
      r := GetBits(n);
    }

    /** jm_jpeg_huff_decode: bit by bit from minBits on, per Figure F.16. */
    method HuffDecodeSlow(d: DerivedTbl, ghost t: JHuffTbl, minBits: nat) returns (ok: bool, sym: Byte)
      requires Working() && Derives(d, t) && 1 <= minBits <= 9 && minBits <= SymbolLength(t, seg.bits, at)
      modifies this
      ensures ok ==> Advanced() && at == old(at) + SymbolLength(t, seg.bits, old(at))
      ensures ok ==> sym == NextSymbol(t, seg.bits, old(at))
      ensures !ok ==> Abandoned()
    {
      hide StandsAt, Derives, Peek, CodeLength;
      sym := 0;
      ghost var p := at;
      var l: nat, code: nat := minBits, 0;
      ok, code := TakeBits(l);
      if !ok {
        return;
      }
      MaxCodeTest(t, d, seg.bits, p, l);
      while code > d.maxcode[l]
        invariant Advanced() && 1 <= l <= SymbolLength(t, seg.bits, p) && at == p + l
        invariant code == Peek(seg.bits, p, l)
        invariant code > d.maxcode[l] <==> l != SymbolLength(t, seg.bits, p)
        decreases 17 - l
      {
        var bit;
        ok, bit := TakeBits(1);
        if !ok {
          return;
        }
        NextBit(seg.bits, p, l);
        code := 2 * code + bit;
        l := l + 1;
        MaxCodeTest(t, d, seg.bits, p, l);
      }
      ok := true;
      if l <= 16 {
        SymbolAtOffset(t, d, seg.bits, p, l);
        sym := d.huffval[code + d.valoffset[l]];
      }
    }

    /** HUFF_DECODE: by lookahead, or bit by bit from 9 bits, or, near the end of the segment, from 1 bit. */
    method HuffDecode(d: DerivedTbl, ghost t: JHuffTbl) returns (ok: bool, sym: Byte)
      requires Working() && Derives(d, t)
      modifies this
      ensures ok ==> Advanced() && at == old(at) + SymbolLength(t, seg.bits, old(at))
      ensures ok ==> sym == NextSymbol(t, seg.bits, old(at))
      ensures !ok ==> Abandoned()
    {
      hide StandsAt, Derives, Peek, CodeLength, NextSymbol, Shl, Shr, Mask;
      sym := 0;
      if bitsLeft < HUFF_LOOKAHEAD {
        ok := FillBitBuffer(0);
        if !ok {
          return;
        }
        if bitsLeft < HUFF_LOOKAHEAD {
          ok, sym := HuffDecodeSlow(d, t, 1);
          return;
        }
      }
      DropBits(file, seg, unreadMarker, nextInput, getBuffer, bitsLeft, at, HUFF_LOOKAHEAD);
      LookaheadTest(t, d, seg.bits, at);
      var look := Mask(Shr(getBuffer, bitsLeft - HUFF_LOOKAHEAD), HUFF_LOOKAHEAD);
      var nb := d.lookNbits[look];
      if nb != 0 {
        sym := d.lookSym[look];
        var _ := GetBits(nb);
        ok := true;
      } else {
        ok, sym := HuffDecodeSlow(d, t, HUFF_LOOKAHEAD + 1);
      }
    }

    // ----- restart markers -----

    /** How the restart that is due will turn out, given the marker already read (if any). */
    ghost function Pending(desired: nat): Resumed
      requires desired < 8
      reads this
    {
      var s := SegmentFrom(file, unreadMarker, srcPos);
      Resync(file, s.marker, s.after, desired)
    }

    /** The marker that reading on from here meets first. */
    ghost function Ahead(): Ending
      reads this`unreadMarker, this`srcPos
    {
      EndOf(SegmentFrom(file, unreadMarker, srcPos))
    }

    /** next_marker: skip to the next marker; giving up only moves the position within the same segment. */
    method NextMarker() returns (ok: bool)
      requires srcPos <= avail <= |file|
      modifies this`srcPos, this`unreadMarker
      ensures srcPos <= avail
      ensures ok ==> 0 < unreadMarker == SegmentAt(file, old(srcPos)).marker && srcPos == SegmentAt(file, old(srcPos)).after
      ensures !ok ==> unreadMarker == old(unreadMarker) && SameEnd(file, old(srcPos), srcPos)
      ensures !ok && avail == |file| ==> SegmentAt(file, srcPos).marker == 0
    {
      hide SegmentAt, ReadDatum, SkipFill;
      var next := srcPos;
      var c: Byte := 0;
      while c == 0
        invariant next <= avail && unreadMarker == old(unreadMarker)
        invariant c == 0 ==> srcPos == next && SameEnd(file, old(srcPos), next)
        invariant c != 0 ==> SegmentAt(file, old(srcPos)).marker == c && SegmentAt(file, old(srcPos)).after == next
        decreases avail - next, c == 0
      {
        if next == avail {
          EndOfFile(file, srcPos);
          return false;
        }
        c := file[next];
        next := next + 1;
        while c != FILL
          invariant srcPos + 1 == next <= avail && c == file[srcPos]
          invariant SameEnd(file, old(srcPos), srcPos) && unreadMarker == old(unreadMarker)
          decreases avail - next
        {
          SkipByte(file, srcPos);
          srcPos := next;
          if next == avail {
            EndOfFile(file, srcPos);
            return false;
          }
          c := file[next];
          next := next + 1;
        }
        while c == FILL
          invariant srcPos < next <= avail && c == file[next - 1] && SameEnd(file, old(srcPos), srcPos)
          invariant forall i :: srcPos <= i < next - 1 ==> file[i] == FILL
          invariant unreadMarker == old(unreadMarker)
          invariant file[srcPos] == FILL && (c != FILL ==> srcPos < next - 1)
          decreases avail - next, c == FILL
        {
          if next == avail {
            FillToEnd(file, srcPos, next);
            return false;
          }
          c := file[next];
          next := next + 1;
        }
        AfterFill(file, srcPos, next - 1);
        if c == 0 {
          srcPos := next;
        }
      }
      unreadMarker := c;
      srcPos := next;
      ok := true;
    }

    /** jm_jpeg_resync_to_restart */
    method ResyncToRestart(desired: nat) returns (ok: bool)
      requires srcPos <= avail <= |file| && desired < 8 && unreadMarker != 0
      modifies this`srcPos, this`unreadMarker
      ensures srcPos <= avail
      ensures ok ==> At(unreadMarker, srcPos) == Resync(file, old(unreadMarker), old(srcPos), desired)
      ensures !ok ==> Pending(desired) == old(Pending(desired)) && (avail == |file| ==> Pending(desired) == Never)
    {
      while true
        invariant srcPos <= avail && unreadMarker != 0
        invariant Resync(file, unreadMarker, srcPos, desired) == Resync(file, old(unreadMarker), old(srcPos), desired)
        decreases |file| - srcPos
      {
        match RecoveryAction(unreadMarker, desired) {
          case Discard =>
            unreadMarker := 0;
            return true;
          case LeaveUnread =>
            return true;
          case ScanOn =>
            ok := NextMarker();
            if !ok {
              return;
            }
        }
      }
    }

    /** read_restart_marker */
    method ReadRestartMarker() returns (ok: bool)
      requires srcPos <= avail <= |file| && nextRestartNum < 8
      modifies this`srcPos, this`unreadMarker, this`nextRestartNum
      ensures srcPos <= avail
      ensures ok ==> old(Pending(nextRestartNum)) == At(unreadMarker, srcPos)
      ensures ok ==> nextRestartNum == (old(nextRestartNum) + 1) % 8
      ensures !ok ==> nextRestartNum == old(nextRestartNum) && Pending(nextRestartNum) == old(Pending(nextRestartNum))
      ensures !ok && avail == |file| ==> Pending(nextRestartNum) == Never
    {
      hide Resync;
      if unreadMarker == 0 {
        ok := NextMarker();
        if !ok {
          NoMarkerNoRestart(file, SegmentAt(file, srcPos).after, nextRestartNum);
          return;
        }
      }
      RestartIsResync(file, unreadMarker, srcPos, nextRestartNum);
      if unreadMarker == M_RST0 + nextRestartNum {
        unreadMarker := 0;
      } else {
        ok := ResyncToRestart(nextRestartNum);
        if !ok {
          return;
        }
      }
      nextRestartNum := (nextRestartNum + 1) % 8;
      ok := true;
    }
  }

  lemma NoMarkerNoRestart(file: seq<Byte>, after: nat, desired: nat)
    requires desired < 8
    ensures Resync(file, 0, after, desired) == Never
  {
  }

  /** Two positions of one segment see the same marker after it. */
  ghost predicate SameEnd(file: seq<Byte>, p: nat, q: nat) {
    SegmentAt(file, p).marker == SegmentAt(file, q).marker && SegmentAt(file, p).after == SegmentAt(file, q).after
  }

  lemma SkipByte(file: seq<Byte>, p: nat)
    requires p < |file| && file[p] != FILL
    ensures SameEnd(file, p, p + 1)
  {
  }

  lemma EndOfFile(file: seq<Byte>, p: nat)
    requires p <= |file|
    ensures p == |file| ==> SegmentAt(file, p).marker == 0
  {
  }

  lemma {:induction false} SkipRun(file: seq<Byte>, p: nat, q: nat)
    requires p <= q <= |file| && forall i :: p <= i < q ==> file[i] == FILL
    ensures SkipFill(file, p) == SkipFill(file, q)
    decreases q - p
  {
    if p < q {
      SkipRun(file, p + 1, q);
    }
  }

  lemma FillToEnd(file: seq<Byte>, p: nat, q: nat)
    requires p < q <= |file| && forall i :: p <= i < q ==> file[i] == FILL
    ensures q == |file| ==> SegmentAt(file, p).marker == 0
  {
    SkipRun(file, p + 1, q);
  }

  /** A run of fill bytes and what follows: a stuffed FF, or the marker. */
  lemma AfterFill(file: seq<Byte>, p: nat, q: nat)
    requires p < q < |file| && (forall i :: p <= i < q ==> file[i] == FILL) && file[q] != FILL
    ensures file[q] == 0 ==> SameEnd(file, p, q + 1)
    ensures file[q] != 0 ==> SegmentAt(file, p).marker == file[q] && SegmentAt(file, p).after == q + 1
  {
    hide LowBits;
    SkipRun(file, p + 1, q);
    assert SkipFill(file, q) == q;
  }

  lemma NextBit(s: seq<bool>, p: nat, l: nat)
    ensures Peek(s, p, l + 1) == 2 * Peek(s, p, l) + Peek(s, p + l, 1)
  {
    PeekSplit(s, p, l + 1, l);
    assert Shl(Peek(s, p, l), 1) == 2 * Shl(Peek(s, p, l), 0);
  }
}
