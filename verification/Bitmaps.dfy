/**
  Bitmaps held in byte arrays.  Both the file system's block bitmap and the
  physical memory manager's frame bitmap use bit `n % 8` of byte `n / 8`.
 */
module Bitmaps {
  import opened Words

  /** Bit `k` of `x`: `(x >> k) & 1`. */
  predicate WordBit(x: nat, k: nat) {
    if k == 0 then x % 2 == 1 else WordBit(x / 2, k - 1)
  }

  /** `x | (1 << k)` or `x & ~(1 << k)`, as `on` says. */
  function WordPut(x: nat, k: nat, on: bool): nat {
    if k == 0 then x / 2 * 2 + (if on then 1 else 0)
    else 2 * WordPut(x / 2, k - 1, on) + x % 2
  }

  function Pow2(w: nat): nat {
    if w == 0 then 1 else 2 * Pow2(w - 1)
  }

  lemma WordPutFits(x: nat, k: nat, on: bool, w: nat)
    requires k < w && x < Pow2(w)
    ensures WordPut(x, k, on) < Pow2(w)
  {
    if k > 0 {
      WordPutFits(x / 2, k - 1, on, w - 1);
    }
  }

  lemma WordPutBit(x: nat, k: nat, on: bool, j: nat)
    ensures WordBit(WordPut(x, k, on), j) == (if j == k then on else WordBit(x, j))
  {
    if k > 0 && j > 0 {
      WordPutBit(x / 2, k - 1, on, j - 1);
      assert WordPut(x, k, on) / 2 == WordPut(x / 2, k - 1, on);
    }
  }

  function BytePut(b: byte, k: nat, on: bool): byte
    requires k < 8
  {
    assert Pow2(8) == 256;
    WordPutFits(b, k, on, 8);
    WordPut(b, k, on)
  }

  /** Whether bit `n` of the bitmap is set. */
  predicate TestBit(bm: seq<byte>, n: nat)
    requires n < 8 * |bm|
  {
    WordBit(bm[n / 8], n % 8)
  }

  /** The bitmap with bit `n` set (`on`) or cleared (`!on`). */
  function PutBit(bm: seq<byte>, n: nat, on: bool): (r: seq<byte>)
    requires n < 8 * |bm|
    ensures |r| == |bm|
  {
    bm[n / 8 := BytePut(bm[n / 8], n % 8, on)]
  }

  lemma PutBitTest(bm: seq<byte>, n: nat, on: bool, m: nat)
    requires n < 8 * |bm| && m < 8 * |bm|
    ensures TestBit(PutBit(bm, n, on), m) == (if m == n then on else TestBit(bm, m))
  {
    WordPutBit(bm[n / 8], n % 8, on, m % 8);
  }

  lemma PutBitOnly(bm: seq<byte>, n: nat, on: bool)
    requires n < 8 * |bm|
    ensures forall m {:trigger TestBit(PutBit(bm, n, on), m)} {:trigger TestBit(bm, m)} ::
              0 <= m < 8 * |bm| ==> TestBit(PutBit(bm, n, on), m) == (if m == n then on else TestBit(bm, m))
  {
    forall m | 0 <= m < 8 * |bm|
      ensures TestBit(PutBit(bm, n, on), m) == (if m == n then on else TestBit(bm, m))
    {
      PutBitTest(bm, n, on, m);
    }
  }

  /** How many of the bits `0 .. n` have the value `on`. */
  function Count(bm: seq<byte>, n: nat, on: bool): (c: nat)
    requires n <= 8 * |bm|
    ensures c <= n
  {
    if n == 0 then 0 else Count(bm, n - 1, on) + (if TestBit(bm, n - 1) == on then 1 else 0)
  }

  /** Flipping bit `b` moves one unit between the two counts. */
  lemma {:induction false} CountPut(bm: seq<byte>, b: nat, on: bool, n: nat)
    requires b < 8 * |bm| && n <= 8 * |bm|
    requires TestBit(bm, b) != on
    ensures Count(PutBit(bm, b, on), n, on) == Count(bm, n, on) + (if b < n then 1 else 0)
    ensures Count(PutBit(bm, b, on), n, !on) == Count(bm, n, !on) - (if b < n then 1 else 0)
  {
    hide TestBit, PutBit;
    if n > 0 {
      CountPut(bm, b, on, n - 1);
      PutBitTest(bm, b, on, n - 1);
    }
  }

  /** Bitmaps that agree on the bits `0 .. n` have the same counts. */
  lemma {:induction false} CountSame(bm: seq<byte>, bm': seq<byte>, n: nat, on: bool)
    requires |bm| == |bm'| && n <= 8 * |bm|
    requires forall i :: 0 <= i < n ==> TestBit(bm, i) == TestBit(bm', i)
    ensures Count(bm, n, on) == Count(bm', n, on)
  {
    if n > 0 {
      CountSame(bm, bm', n - 1, on);
    }
  }

  /** The two counts cover every bit. */
  lemma {:induction false} CountBoth(bm: seq<byte>, n: nat)
    requires n <= 8 * |bm|
    ensures Count(bm, n, true) + Count(bm, n, false) == n
  {
    if n > 0 {
      CountBoth(bm, n - 1);
    }
  }

  lemma {:induction false} CountPositive(bm: seq<byte>, b: nat, n: nat, on: bool)
    requires b < n <= 8 * |bm| && TestBit(bm, b) == on
    ensures Count(bm, n, on) > 0
  {
    if b < n - 1 {
      CountPositive(bm, b, n - 1, on);
    }
  }

  /** No bit has the value exactly when the count is 0. */
  lemma {:induction false} CountZeroIff(bm: seq<byte>, n: nat, on: bool)
    requires n <= 8 * |bm|
    ensures Count(bm, n, on) == 0 <==> forall f :: 0 <= f < n ==> TestBit(bm, f) != on
  {
    if n > 0 {
      CountZeroIff(bm, n - 1, on);
    }
  }
}
