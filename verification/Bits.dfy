/** Shifts, masks and bit strings, most significant bit first. Shifts are
    iterated doubling and floor-halving, which is what they are on
    two's-complement integers of either sign. */
module Bits {

  /** x << n */
  function Shl(x: int, n: nat): (r: int)
    ensures x >= 0 ==> r >= 0
  {
    if n == 0 then x else 2 * Shl(x, n - 1)
  }

  /** x >> n, rounding towards minus infinity */
  function Shr(x: int, n: nat): (r: int)
    ensures x >= 0 ==> r >= 0
    decreases n
  {
    if n == 0 then x else Shr(x / 2, n - 1)
  }

  /** x & ((1 << n) - 1) */
  function Mask(x: int, n: nat): nat
    decreases n
  {
    if n == 0 then 0 else 2 * Mask(x / 2, n - 1) + x % 2
  }

  /** The n low-order bits of x in two's complement. */
  function LowBits(x: int, n: nat): (r: seq<bool>)
    ensures |r| == n
    decreases n
  {
    if n == 0 then [] else LowBits(x / 2, n - 1) + [x % 2 == 1]
  }

  function Value(b: seq<bool>): nat {
    if b == [] then 0 else 2 * Value(b[..|b| - 1]) + (if b[|b| - 1] then 1 else 0)
  }

  /** The n bits of s from position p on; s reads as zeros past its end. */
  function Window(s: seq<bool>, p: nat, n: nat): (r: seq<bool>)
    ensures |r| == n
  {
    seq(n, i requires 0 <= i < n => p + i < |s| && s[p + i])
  }

  function Peek(s: seq<bool>, p: nat, n: nat): nat {
    Value(Window(s, p, n))
  }

  // ----- shifts -----

  lemma {:induction false} ShlAdd(x: int, y: int, n: nat)
    ensures Shl(x + y, n) == Shl(x, n) + Shl(y, n)
  {
    if n > 0 {
      ShlAdd(x, y, n - 1);
    }
  }

  lemma {:induction false} ShlMonotone(x: int, y: int, n: nat)
    requires x <= y
    ensures Shl(x, n) <= Shl(y, n)
    ensures x < y ==> Shl(x, n) + Shl(1, n) <= Shl(y, n)
  {
    if n > 0 {
      ShlMonotone(x, y, n - 1);
    }
  }

  lemma {:induction false} ShlPositive(n: nat)
    ensures Shl(1, n) >= 1 && Shl(0, n) == 0
  {
    if n > 0 {
      ShlPositive(n - 1);
    }
  }

  lemma {:induction false} ShlShl(x: int, a: nat, b: nat)
    ensures Shl(Shl(x, a), b) == Shl(x, a + b)
  {
    if b > 0 {
      ShlShl(x, a, b - 1);
      assert a + (b - 1) == a + b - 1;
    }
  }

  lemma {:induction false} ShlInside(x: int, n: nat)
    ensures 2 * Shl(x, n) == Shl(2 * x, n)
  {
    if n > 0 {
      ShlInside(x, n - 1);
    }
  }

  lemma ShlBelow(c: int, l: nat, k: nat)
    ensures c < Shl(1, l) <==> Shl(c, k) < Shl(1, l + k)
  {
    ShlShl(1, l, k);
    ShlPositive(k);
    if c < Shl(1, l) {
      ShlMonotone(c, Shl(1, l), k);
    } else {
      ShlMonotone(Shl(1, l), c, k);
    }
  }

  /** Shifting right undoes shifting left and drops what was shifted in. */
  lemma {:induction false} ShrOfShl(x: int, y: int, n: nat)
    requires 0 <= y < Shl(1, n)
    ensures Shr(Shl(x, n) + y, n) == x
    decreases n
  {
    if n > 0 {
      assert (Shl(x, n) + y) / 2 == Shl(x, n - 1) + y / 2;
      ShrOfShl(x, y / 2, n - 1);
    }
  }

  lemma {:induction false} ShrShr(x: int, a: nat, b: nat)
    ensures Shr(Shr(x, a), b) == Shr(x, a + b)
    decreases a
  {
    if a > 0 {
      assert a + b - 1 == (a - 1) + b;
      ShrShr(x / 2, a - 1, b);
    }
  }

  /** An integer is its high part shifted back plus its masked low part. */
  lemma {:induction false} ShrMask(x: int, n: nat)
    ensures x == Shl(Shr(x, n), n) + Mask(x, n)
    ensures Mask(x, n) < Shl(1, n)
    decreases n
  {
    if n > 0 {
      ShrMask(x / 2, n - 1);
    }
  }

  lemma {:induction false} ShrRange(x: nat, a: nat, n: nat)
    requires x < Shl(1, a + n)
    ensures 0 <= Shr(x, n) < Shl(1, a)
    decreases n
  {
    if n > 0 {
      assert a + n - 1 == a + (n - 1);
      ShrRange(x / 2, a, n - 1);
    }
  }

  // ----- bit strings -----

  lemma {:induction false} ValueOfLowBits(x: int, n: nat)
    ensures Value(LowBits(x, n)) == Mask(x, n)
    decreases n
  {
    if n > 0 {
      ValueOfLowBits(x / 2, n - 1);
      assert LowBits(x, n)[..n - 1] == LowBits(x / 2, n - 1);
    }
  }

  lemma {:induction false} MaskOfSmall(x: nat, n: nat)
    requires x < Shl(1, n)
    ensures Mask(x, n) == x
    decreases n
  {
    if n > 0 {
      MaskOfSmall(x / 2, n - 1);
    }
  }

  lemma ValueOfSmall(x: nat, n: nat)
    requires x < Shl(1, n)
    ensures Value(LowBits(x, n)) == x
  {
    ValueOfLowBits(x, n);
    MaskOfSmall(x, n);
  }

  lemma {:induction false} ValueBound(b: seq<bool>)
    ensures Value(b) < Shl(1, |b|)
  {
    if b != [] {
      ValueBound(b[..|b| - 1]);
    }
  }

  lemma {:induction false} LowBitsOfValue(b: seq<bool>)
    ensures LowBits(Value(b), |b|) == b
  {
    if b != [] {
      LowBitsOfValue(b[..|b| - 1]);
      assert Value(b) / 2 == Value(b[..|b| - 1]);
    }
  }

  /** The leading bits of a buffer are the buffer shifted right, the rest its low end. */
  lemma {:induction false} LowBitsSplit(x: int, m: nat, n: nat)
    requires n <= m
    ensures LowBits(x, m)[..n] == LowBits(Shr(x, m - n), n)
    ensures LowBits(x, m)[n..] == LowBits(x, m - n)
    decreases m
  {
    if n < m {
      LowBitsSplit(x / 2, m - 1, n);
      var a := LowBits(x / 2, m - 1);
      assert LowBits(x, m)[..n] == a[..n];
      assert LowBits(x, m) == a + [x % 2 == 1];
      assert LowBits(x, m)[n..] == a[n..] + [x % 2 == 1];
      assert LowBits(x, m - n) == LowBits(x / 2, m - 1 - n) + [x % 2 == 1];
    }
  }

  /** Shifting k bits in appends them. */
  lemma {:induction false} LowBitsAppend(x: int, c: nat, n: nat, k: nat)
    requires c < Shl(1, k)
    ensures LowBits(Shl(x, k) + c, n + k) == LowBits(x, n) + LowBits(c, k)
    decreases k
  {
    if k > 0 {
      assert (Shl(x, k) + c) / 2 == Shl(x, k - 1) + c / 2;
      LowBitsAppend(x, c / 2, n, k - 1);
      assert n + k - 1 == n + (k - 1);
    }
  }

  /** Only the residue of x modulo 2^n matters. */
  lemma {:induction false} LowBitsModulo(x: int, k: int, n: nat)
    ensures LowBits(x + Shl(k, n), n) == LowBits(x, n)
    decreases n
  {
    if n > 0 {
      assert (x + Shl(k, n)) / 2 == x / 2 + Shl(k, n - 1);
      LowBitsModulo(x / 2, k, n - 1);
    }
  }

  lemma {:induction false} ValueAppend(a: seq<bool>, b: seq<bool>)
    ensures Value(a + b) == Shl(Value(a), |b|) + Value(b)
    decreases |b|
  {
    if b == [] {
      assert a + b == a;
    } else {
      assert (a + b)[..|a + b| - 1] == a + b[..|b| - 1];
      ValueAppend(a, b[..|b| - 1]);
    }
  }

  lemma WindowSplit(s: seq<bool>, p: nat, n: nat, k: nat)
    requires k <= n
    ensures Window(s, p, n)[..k] == Window(s, p, k)
    ensures Window(s, p, n)[k..] == Window(s, p + k, n - k)
  {
  }

  /** The first k of n peeked bits are the high part, the others the low part. */
  lemma PeekSplit(s: seq<bool>, p: nat, n: nat, k: nat)
    requires k <= n
    ensures Peek(s, p, n) == Shl(Peek(s, p, k), n - k) + Peek(s, p + k, n - k)
    ensures Shr(Peek(s, p, n), n - k) == Peek(s, p, k)
    ensures Peek(s, p, n) < Shl(1, n)
  {
    WindowSplit(s, p, n, k);
    var w := Window(s, p, n);
    assert w == w[..k] + w[k..];
    ValueAppend(w[..k], w[k..]);
    ValueBound(w);
    ValueBound(w[k..]);
    ShrOfShl(Value(w[..k]), Value(w[k..]), n - k);
  }

  /** A bit string found at p is what the next |w| bits spell. */
  lemma WindowOfPrefix(s: seq<bool>, p: nat, w: seq<bool>)
    requires p <= |s| && w <= s[p..]
    ensures Window(s, p, |w|) == w
  {
    forall i | 0 <= i < |w|
      ensures Window(s, p, |w|)[i] == w[i]
    {
      assert s[p..][i] == w[i];
    }
  }

  /** Two codes, one a prefix of the other: the shorter is the longer one shifted right. */
  lemma PrefixIsShift(u: nat, l: nat, v: nat, m: nat)
    requires l <= m && u < Shl(1, l) && v < Shl(1, m)
    ensures LowBits(u, l) <= LowBits(v, m) <==> u == Shr(v, m - l)
  {
    LowBitsSplit(v, m, l);
    ShrRange(v, l, m - l);
    assert LowBits(u, l) <= LowBits(v, m) <==> LowBits(v, m)[..l] == LowBits(u, l);
    ValueOfSmall(u, l);
    ValueOfSmall(Shr(v, m - l), l);
  }

  /** A number below 2^l and its l-bit spelling determine each other. */
  lemma SpellingOf(u: nat, l: nat, w: seq<bool>)
    requires |w| == l && u < Shl(1, l)
    ensures LowBits(u, l) == w <==> Value(w) == u
  {
    ValueOfSmall(u, l);
    LowBitsOfValue(w);
  }

  lemma {:induction false} ValueOfOnes(b: seq<bool>)
    requires forall k :: 0 <= k < |b| ==> b[k]
    ensures Value(b) == Shl(1, |b|) - 1
  {
    if b != [] {
      ValueOfOnes(b[..|b| - 1]);
    }
  }

  lemma NotAllOnes(u: nat, l: nat)
    requires u < Shl(1, l) - 1
    ensures exists k :: 0 <= k < l && !LowBits(u, l)[k]
  {
    ValueOfSmall(u, l);
    if forall k :: 0 <= k < l ==> LowBits(u, l)[k] {
      ValueOfOnes(LowBits(u, l));
    }
  }

  lemma PowersOfTwo()
    ensures Shl(1, 8) == 256 && Shl(1, 15) == 32768 && Shl(1, 16) == 65536 && Shl(1, 17) == 131072
  {
    assert Shl(1, 4) == 16;
    assert Shl(1, 8) == 256;
    assert Shl(1, 12) == 4096;
  }

  lemma Shl8(q: int)
    ensures Shl(q, 8) == 256 * q
  {
    assert Shl(q, 1) == 2 * q;
    assert Shl(q, 2) == 4 * q;
    assert Shl(q, 3) == 8 * q;
    assert Shl(q, 4) == 16 * q;
    assert Shl(q, 5) == 32 * q;
    assert Shl(q, 6) == 64 * q;
    assert Shl(q, 7) == 128 * q;
  }

  lemma Shl16(q: int)
    ensures Shl(q, 16) == 0x1_0000 * q
  {
    Shl8(q);
    Shl8(256 * q);
    ShlShl(q, 8, 8);
  }

  lemma {:induction false} ShrPlus(x: int, k: int, n: nat)
    ensures Shr(x + Shl(k, n), n) == Shr(x, n) + k
    decreases n
  {
    if n > 0 {
      assert (x + Shl(k, n)) / 2 == x / 2 + Shl(k, n - 1);
      ShrPlus(x / 2, k, n - 1);
    }
  }
}
