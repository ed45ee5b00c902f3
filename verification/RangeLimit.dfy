/** The sample range-limit table (jdmaster.c). */
module RangeLimit {
  import opened HuffmanTable

  const MAXJSAMPLE := 255
  const CENTERJSAMPLE := 128

  function Limit(x: int): Byte {
    if x < 0 then 0 else if x > MAXJSAMPLE then MAXJSAMPLE else x
  }

  /** Subscript x of the simple table is entry 256 + x. */
  ghost predicate IsRangeLimit(table: seq<Byte>) {
    && |table| == 5 * 256 + CENTERJSAMPLE
    && forall x :: -256 <= x < 640 ==> table[x + 256] == Limit(x)
  }

  /** The part used after the inverse DCT: subscript x modulo 1024 limits x + 128 for any x of ten bits. */
  ghost predicate LimitsIdct(table: seq<Byte>) {
    && |table| == 5 * 256 + CENTERJSAMPLE
    && forall x :: -512 <= x < 512 ==> table[256 + CENTERJSAMPLE + x % 1024] == Limit(x + CENTERJSAMPLE)
  }

  /** prepare_range_limit_table */
  method PrepareRangeLimitTable() returns (table: array<Byte>)
    ensures fresh(table) && IsRangeLimit(table[..]) && LimitsIdct(table[..])
  {
    table := new Byte[5 * 256 + CENTERJSAMPLE](_ => 0);
    var i := 0;
    while i <= MAXJSAMPLE
      invariant 0 <= i <= 256
      invariant forall k :: 0 <= k < 1408 ==> table[k] == if 256 <= k < 256 + i then k - 256 else 0
    {
      table[256 + i] := i;
      i := i + 1;
    }
    i := CENTERJSAMPLE;
    while i < 512
      invariant 128 <= i <= 512
      invariant forall k :: 0 <= k < 1408 ==>
                  table[k] == if 256 <= k < 512 then k - 256 else if 512 <= k < 384 + i then 255 else 0
    {
      table[256 + CENTERJSAMPLE + i] := MAXJSAMPLE;
      i := i + 1;
    }
    i := 0;
    while i < CENTERJSAMPLE
      invariant 0 <= i <= 128
      invariant forall k :: 0 <= k < 1408 ==>
                  table[k] == if 256 <= k < 512 then k - 256 else if 512 <= k < 896 then 255
                              else if 1280 <= k < 1280 + i then k - 1280 else 0
    {
      table[256 + CENTERJSAMPLE + (1024 - CENTERJSAMPLE) + i] := table[256 + i];
      i := i + 1;
    }
  }

  lemma RangeLimited(table: seq<Byte>, x: int)
    requires IsRangeLimit(table) && -256 <= x < 640
    ensures |table| == 1408 && table[x + 256] == Limit(x)
  {
  }
}
