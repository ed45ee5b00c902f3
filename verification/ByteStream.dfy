/** The compressed byte stream: unstuffed entropy-coded segments and the
    markers between them (section B.1.1.5 of ITU-T T.81; jdhuff.c, jdmarker.c). */
module ByteStream {
  import opened Bits
  import opened HuffmanTable

  const FILL: Byte := 0xFF
  const M_SOF0 := 0xC0
  const M_RST0 := 0xD0
  const M_RST7 := 0xD7

  type Marker = m: Byte | 0 < m < 255 witness 1

  datatype Datum = Exhausted | Data(value: Byte, next: nat) | Mark(code: Marker, next: nat)

  /** First position from pos on that holds no fill byte. */
  function SkipFill(file: seq<Byte>, pos: nat): (q: nat)
    ensures pos <= q
    ensures q < |file| ==> file[q] != FILL
    ensures pos <= |file| ==> q <= |file|
    ensures forall i :: pos <= i < q ==> i < |file| && file[i] == FILL
    decreases |file| - pos
  {
    if pos < |file| && file[pos] == FILL then SkipFill(file, pos + 1) else pos
  }

  /** One data byte or marker: FF..FF 00 is a single FF, FF..FF and any other byte is a marker. */
  function ReadDatum(file: seq<Byte>, pos: nat): (d: Datum)
    ensures d.Data? || d.Mark? ==> pos < d.next <= |file|
  {
    if pos >= |file| then Exhausted
    else if file[pos] != FILL then Data(file[pos], pos + 1)
    else
      var q := SkipFill(file, pos + 1);
      if q >= |file| then Exhausted
      else if file[q] == 0 then Data(FILL, q + 1)
      else Mark(file[q], q + 1)
  }

  /** The bits up to the next marker, that marker (0 if the file ends first), and the position after it. */
  datatype Segment = Segment(bits: seq<bool>, marker: Byte, after: nat)

  function SegmentAt(file: seq<Byte>, pos: nat): (s: Segment)
    ensures s.marker != 255
    ensures s.marker != 0 ==> pos < s.after <= |file|
    decreases |file| - pos
  {
    match ReadDatum(file, pos)
    case Exhausted => Segment([], 0, |file|)
    case Data(c, q) => var r := SegmentAt(file, q); Segment(LowBits(c, 8) + r.bits, r.marker, r.after)
    case Mark(m, q) => Segment([], m, q)
  }

  /** The segment seen by a decoder that stands at pos and may already hold an unread marker. */
  function SegmentFrom(file: seq<Byte>, unread: Byte, pos: nat): Segment {
    if unread == 0 then SegmentAt(file, pos) else Segment([], unread, pos)
  }

  /** The next marker, 0 if there is none, and the position after it. */
  datatype Ending = Ending(marker: Byte, after: nat)

  function EndOf(s: Segment): Ending {
    Ending(s.marker, s.after)
  }

  // ----- resynchronisation at restart markers -----

  datatype Action = Discard | ScanOn | LeaveUnread

  /** The recovery decision of jm_jpeg_resync_to_restart. */
  function RecoveryAction(marker: Byte, desired: nat): Action
    requires desired < 8
  {
    if marker < M_SOF0 then ScanOn
    else if marker < M_RST0 || marker > M_RST7 then LeaveUnread
    else if marker == M_RST0 + (desired + 1) % 8 || marker == M_RST0 + (desired + 2) % 8 then LeaveUnread
    else if marker == M_RST0 + (desired + 7) % 8 || marker == M_RST0 + (desired + 6) % 8 then ScanOn
    else Discard
  }

  /** Where decoding goes on after a restart: the unread marker (if any) and the position. */
  datatype Resumed = Never | At(unread: Byte, pos: nat)

  /** The outcome of resynchronising when `marker` was found just before `after`. */
  function Resync(file: seq<Byte>, marker: Byte, after: nat, desired: nat): Resumed
    requires desired < 8
    decreases |file| - after
  {
    if marker == 0 then Never
    else
      match RecoveryAction(marker, desired)
      case Discard => At(0, after)
      case LeaveUnread => At(marker, after)
      case ScanOn =>
        var s := SegmentAt(file, after);
        if s.marker == 0 then Never else Resync(file, s.marker, s.after, desired)
  }

  /** read_restart_marker as a function of the segment it ends. */
  function Restart(file: seq<Byte>, marker: Byte, after: nat, desired: nat): Resumed
    requires desired < 8
  {
    if marker == M_RST0 + desired then At(0, after) else Resync(file, marker, after, desired)
  }

  /** The expected marker needs no special case: resynchronising discards it too. */
  lemma RestartIsResync(file: seq<Byte>, marker: Byte, after: nat, desired: nat)
    requires desired < 8
    ensures Restart(file, marker, after, desired) == Resync(file, marker, after, desired)
  {
    if marker == M_RST0 + desired {
      assert (desired + 1) % 8 != desired && (desired + 2) % 8 != desired;
      assert (desired + 7) % 8 != desired && (desired + 6) % 8 != desired;
    }
  }

  /** What is done about a marker depends on how far it is from the one expected: RSTn is discarded if it is that or too far from it
      to tell, left unread if it is one of the two to come next, and passed over if it is one of the two before. Markers of no
      restart are left unread, and those that stand for nothing passed over. */
  lemma RecoveryByDistance(marker: Byte, desired: nat, k: nat)
    requires desired < 8 && k < 8
    ensures marker == 0xD0 + (desired + k) % 8 ==>
              RecoveryAction(marker, desired) == if k == 1 || k == 2 then LeaveUnread else if k >= 6 then ScanOn else Discard
    ensures marker < 0xC0 ==> RecoveryAction(marker, desired) == ScanOn
    ensures 0xC0 <= marker < 0xD0 || marker > 0xD7 ==> RecoveryAction(marker, desired) == LeaveUnread
  {
    assert 0 <= (desired + k) % 8 < 8;
  }

  /** If one or two restart intervals have been lost, those intervals come out empty and decoding is in step again after them. */
  lemma LostIntervals(file: seq<Byte>, after: nat, desired: nat, lost: nat, n: nat)
    requires desired < 8 && 1 <= lost <= 2 && n <= lost
    ensures var marker := 0xD0 + (desired + lost) % 8;
            && Resync(file, marker, after, (desired + n) % 8) == (if n < lost then At(marker, after) else At(0, after))
            && SegmentFrom(file, marker, after) == Segment([], marker, after)
  {
    var marker := 0xD0 + (desired + lost) % 8;
    RecoveryByDistance(marker, (desired + n) % 8, lost - n);
    assert ((desired + n) % 8 + (lost - n)) % 8 == (desired + lost) % 8;
  }

  /** A restart interval that comes again, or the one before it, is passed over. */
  lemma RepeatedInterval(file: seq<Byte>, after: nat, desired: nat, back: nat)
    requires desired < 8 && 1 <= back <= 2
    ensures var s := SegmentAt(file, after);
            Resync(file, 0xD0 + (desired + 8 - back) % 8, after, desired)
            == if s.marker == 0 then Never else Resync(file, s.marker, s.after, desired)
  {
    RecoveryByDistance(0xD0 + (desired + 8 - back) % 8, desired, 8 - back);
  }

  /** In bytes: a byte below 255 is itself, 255 with a zero after it is 255, and with another byte after it a marker. */
  lemma BytesMean(file: seq<Byte>, pos: nat)
    requires pos + 1 < |file|
    ensures file[pos] < 255 ==> ReadDatum(file, pos) == Data(file[pos], pos + 1)
    ensures file[pos] == 255 && file[pos + 1] == 0 ==> ReadDatum(file, pos) == Data(255, pos + 2)
    ensures file[pos] == 255 && 0 < file[pos + 1] < 255 ==> ReadDatum(file, pos) == Mark(file[pos + 1], pos + 2)
  {
    if file[pos] == 255 && file[pos + 1] < 255 {
      assert SkipFill(file, pos + 1) == pos + 1;
    }
  }

  // ----- writing a segment -----

  /** Byte stuffing: a zero after every FF. */
  function Stuff(data: seq<Byte>): seq<Byte> {
    if data == [] then []
    else (if data[0] == FILL then [FILL, 0] else [data[0]]) + Stuff(data[1..])
  }

  function BitsOfBytes(data: seq<Byte>): (r: seq<bool>)
    ensures |r| == 8 * |data|
  {
    if data == [] then [] else LowBits(data[0], 8) + BitsOfBytes(data[1..])
  }

  /** Unstuffing undoes stuffing: a stuffed segment closed by any marker reads back as its bytes. */
  lemma {:induction false} UnstuffStuffed(pre: seq<Byte>, data: seq<Byte>, m: Marker, rest: seq<Byte>)
    ensures SegmentAt(pre + Stuff(data) + [FILL, m] + rest, |pre|)
         == Segment(BitsOfBytes(data), m, |pre| + |Stuff(data)| + 2)
    decreases |data|
  {
    var file := pre + Stuff(data) + [FILL, m] + rest;
    if data == [] {
      assert file[|pre|] == FILL && file[|pre| + 1] == m;
      assert SkipFill(file, |pre| + 1) == |pre| + 1;
    } else {
      var head := if data[0] == FILL then [FILL, 0] else [data[0]];
      assert file == (pre + head) + Stuff(data[1..]) + [FILL, m] + rest;
      UnstuffStuffed(pre + head, data[1..], m, rest);
      assert file[|pre|] == data[0];
      if data[0] == FILL {
        assert file[|pre| + 1] == 0;
        assert SkipFill(file, |pre| + 1) == |pre| + 1;
      }
      assert ReadDatum(file, |pre|) == Data(data[0], |pre| + |head|);
    }
  }
}
