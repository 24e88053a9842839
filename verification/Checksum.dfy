/**
  The Internet checksum of RFC 1071 as the kernel computes it: 16-bit words read
  in memory order, summed in 32 bits, folded, complemented; and the packets that
  carry it.
 */
module Checksum {
  import opened Words

  /** The sum of the 16-bit words of `b`, least significant byte first; an odd last byte counts as it is. */
  function WordSum(b: seq<byte>): nat {
    if |b| == 0 then 0
    else if |b| == 1 then b[0]
    else b[0] + 256 * (b[1] as int) + WordSum(b[2..])
  }

  /** Folding carries back in until 16 bits are left. */
  function Fold(s: nat): (f: nat)
    ensures f < 65536
  {
    if s < 65536 then s else Fold(s % 65536 + s / 65536)
  }

  /** The checksum of a buffer. */
  function Sum16(b: seq<byte>): u16 {
    65535 - Fold(WordSum(b))
  }

  // ----- folding is reduction modulo 65535 -----

  lemma {:induction false} FoldKeeps(s: nat)
    ensures Fold(s) % 65535 == s % 65535
    ensures Fold(s) == 0 <==> s == 0
  {
    if s >= 65536 {
      var t := s % 65536 + s / 65536;
      FoldKeeps(t);
      assert s == 65535 * (s / 65536) + t;
      ModAdd(t, s / 65536);
    }
  }

  lemma ModAdd(x: nat, k: nat)
    ensures (65535 * k + x) % 65535 == x % 65535
  {
  }

  /** Numbers from 1 to 65535 are told apart by their remainders. */
  lemma Representative(x: nat, y: nat)
    requires 0 < x <= 65535 && 0 < y <= 65535 && x % 65535 == y % 65535
    ensures x == y
  {
  }

  lemma FoldOf(s: nat, r: nat)
    requires s > 0 && 0 < r <= 65535 && s % 65535 == r % 65535
    ensures Fold(s) == r
  {
    FoldKeeps(s);
    Representative(Fold(s), r);
  }

  // ----- no overflow -----

  lemma {:induction false} WordSumBound(b: seq<byte>)
    ensures WordSum(b) <= (|b| + 1) / 2 * 65535
    decreases |b|
  {
    if |b| > 1 {
      WordSumBound(b[2..]);
    }
  }

  lemma {:induction false} WordSumSplit(a: seq<byte>, b: seq<byte>)
    requires |a| % 2 == 0
    ensures WordSum(a + b) == WordSum(a) + WordSum(b)
    decreases |a|
  {
    if |a| == 0 {
      assert a + b == b;
    } else {
      assert (a + b)[2..] == a[2..] + b;
      WordSumSplit(a[2..], b);
    }
  }

  /**
    `calculate_checksum`.  Each intermediate sum is stored in a 32-bit variable, so the
    loop also shows that no sum of up to 65535 bytes overflows.
   */
  method Compute(b: array<byte>, from: nat, count: nat, initial: nat) returns (c: u16)
    requires from + count <= b.Length && count <= 65535 && initial <= 16 * 65535
    ensures c == 65535 - Fold(initial + WordSum(b[from .. from + count]))
  {
    var sum: u32 := initial;
    var p, left := from, count;
    ghost var all := b[from .. from + count];
    while left > 1
      invariant from <= p && 0 <= left && p + left == from + count && (p - from) % 2 == 0
      invariant sum + WordSum(b[p .. from + count]) == initial + WordSum(all)
      invariant sum <= initial + (p - from) / 2 * 65535
    {
      ghost var rest := b[p .. from + count];
      assert rest[2..] == b[p + 2 .. from + count];
      sum := sum + b[p] + 256 * (b[p + 1] as int);
      p := p + 2;
      left := left - 2;
    }
    assert |b[p .. from + count]| == left;
    if left > 0 {
      assert b[p .. from + count][0] == b[p];
      sum := sum + b[p];
    }
    assert sum == initial + WordSum(all);
    while sum >= 65536
      invariant Fold(sum) == Fold(initial + WordSum(all))
      decreases sum
    {
      sum := sum % 65536 + sum / 65536;
    }
    return 65535 - sum;
  }

  // ----- a stored checksum verifies -----

  /** The buffer with a 16-bit word stored at offset `o`. */
  function PutWord(b: seq<byte>, o: nat, w: u16): (r: seq<byte>)
    requires o + 2 <= |b|
    ensures |r| == |b|
  {
    b[o := w % 256][o + 1 := w / 256]
  }

  function WordOf(b: seq<byte>, o: nat): u16
    requires o + 2 <= |b|
  {
    b[o] + 256 * (b[o + 1] as int)
  }

  lemma {:induction false} PutWordSum(b: seq<byte>, o: nat, w: u16)
    requires o % 2 == 0 && o + 2 <= |b|
    ensures WordSum(PutWord(b, o, w)) == WordSum(b) - WordOf(b, o) + w
    ensures WordSum(b) >= WordOf(b, o)
    decreases |b|
  {
    if o == 0 {
      assert PutWord(b, o, w)[2..] == b[2..];
    } else {
      assert PutWord(b, o, w)[2..] == PutWord(b[2..], o - 2, w);
      PutWordSum(b[2..], o - 2, w);
    }
  }

  /** Storing the checksum of a buffer whose checksum word is zero makes the buffer check to 0. */
  lemma StoredVerifies(b: seq<byte>, o: nat, initial: nat)
    requires o % 2 == 0 && o + 2 <= |b| && WordOf(b, o) == 0
    ensures var c := 65535 - Fold(initial + WordSum(b));
            Fold(initial + WordSum(PutWord(b, o, c))) == 65535
  {
    var s := initial + WordSum(b);
    var c := 65535 - Fold(s);
    PutWordSum(b, o, c);
    FoldKeeps(s);
    if s == 0 {
      assert initial + WordSum(PutWord(b, o, c)) == 65535;
    } else {
      Complement(s, Fold(s));
      FoldOf(s + c, 65535);
    }
  }

  lemma Complement(s: nat, f: nat)
    requires f <= 65535 && f % 65535 == s % 65535
    ensures (s + (65535 - f)) % 65535 == 0
  {
    var q, r := s / 65535, s % 65535;
    assert s == 65535 * q + r;
    assert f == r || (f == 65535 && r == 0);
    ModAdd(r + (65535 - f), q);
  }

  /**
    Changing one word of a buffer that checks to 0 goes unnoticed exactly when the two
    words are equal modulo 65535, that is, 0 and 0xFFFF, and not every word is 0 afterwards.
   */
  lemma CorruptionNoticedIff(b: seq<byte>, o: nat, w: u16)
    requires o % 2 == 0 && o + 2 <= |b| && Sum16(b) == 0
    ensures Sum16(PutWord(b, o, w)) == 0
            <==> WordOf(b, o) % 65535 == w % 65535 && WordSum(PutWord(b, o, w)) > 0
  {
    var s, v := WordSum(b), WordOf(b, o);
    PutWordSum(b, o, w);
    FoldKeeps(s);
    FoldKeeps(s - v + w);
    assert s % 65535 == 0;
    Shift(s, v, w);
    if Fold(s - v + w) % 65535 == 0 && s - v + w > 0 {
      Representative(Fold(s - v + w), 65535);
    }
  }

  lemma Shift(s: nat, v: nat, w: nat)
    requires s % 65535 == 0 && v <= s
    ensures (s - v + w) % 65535 == 0 <==> v % 65535 == w % 65535
  {
    var q := s / 65535;
    assert s == 65535 * q;
    var a, b := v / 65535, w / 65535;
    assert v == 65535 * a + v % 65535 && w == 65535 * b + w % 65535;
    var d := w % 65535 - v % 65535;
    assert s - v + w == 65535 * (q - a + b) + d;
    assert -65535 < d < 65535;
    if d == 0 {
      assert s - v + w == 65535 * (q - a + b);
    } else if d > 0 {
      assert (65535 * (q - a + b) + d) / 65535 == q - a + b;
    } else {
      assert (65535 * (q - a + b) + d) / 65535 == q - a + b - 1;
    }
  }

  // ----- byte order -----

  /** A buffer with the two bytes of each word exchanged; an odd last byte becomes a word with a zero. */
  function SwapBytes(b: seq<byte>): seq<byte> {
    if |b| == 0 then []
    else if |b| == 1 then [0, b[0]]
    else [b[1], b[0]] + SwapBytes(b[2..])
  }

  function Swap16(w: u16): u16 {
    w % 256 * 256 + w / 256
  }

  lemma SwapIsTimes256(w: u16)
    ensures Swap16(w) % 65535 == (256 * w) % 65535
  {
    var hi, lo := w / 256, w % 256;
    assert w == 256 * hi + lo;
    assert 256 * w == 65535 * hi + (hi + 256 * lo);
    ModAdd(hi + 256 * lo, hi);
  }

  lemma ModSum(a: nat, a': nat, b: nat, b': nat)
    requires a % 65535 == a' % 65535 && b % 65535 == b' % 65535
    ensures (a + b) % 65535 == (a' + b') % 65535
  {
    var x, y := a % 65535, b % 65535;
    assert a + b == 65535 * (a / 65535 + b / 65535) + (x + y);
    assert a' + b' == 65535 * (a' / 65535 + b' / 65535) + (x + y);
    ModAdd(x + y, a / 65535 + b / 65535);
    ModAdd(x + y, a' / 65535 + b' / 65535);
  }

  lemma {:induction false} SwappedSum(b: seq<byte>)
    ensures WordSum(SwapBytes(b)) % 65535 == (256 * WordSum(b)) % 65535
    ensures WordSum(SwapBytes(b)) == 0 <==> WordSum(b) == 0
    decreases |b|
  {
    if |b| == 1 {
      assert SwapBytes(b)[2..] == [];
      assert WordSum(SwapBytes(b)) == 256 * (b[0] as int);
    } else if |b| > 1 {
      var w: u16 := b[0] + 256 * (b[1] as int);
      var rest := b[2..];
      SwappedSum(rest);
      SwapIsTimes256(w);
      assert SwapBytes(b)[2..] == SwapBytes(rest);
      assert WordSum(SwapBytes(b)) == Swap16(w) + WordSum(SwapBytes(rest));
      ModSum(Swap16(w), 256 * w, WordSum(SwapBytes(rest)), 256 * WordSum(rest));
    }
  }

  lemma SwapComplement(w: u16)
    ensures Swap16(65535 - w) == 65535 - Swap16(w)
    ensures Swap16(w) == 0 <==> w == 0
  {
    var hi, lo := w / 256, w % 256;
    assert w == 256 * hi + lo;
    assert 65535 - w == 256 * (255 - hi) + (255 - lo);
  }

  /** Exchanging the bytes of every word exchanges the bytes of the folded sum. */
  lemma SwappedFold(b: seq<byte>)
    ensures Fold(WordSum(SwapBytes(b))) == Swap16(Fold(WordSum(b)))
  {
    hide SwapBytes, Fold, Swap16;
    var s, t := WordSum(b), WordSum(SwapBytes(b));
    SwappedSum(b);
    FoldKeeps(s);
    FoldKeeps(t);
    var f := Fold(s);
    SwapComplement(f);
    if s != 0 {
      SwapIsTimes256(f);
      TimesMod(s, f);
      FoldOf(t, Swap16(f));
    }
  }

  /** Exchanging the bytes of every word exchanges the bytes of the checksum. */
  lemma SwappedChecksum(b: seq<byte>)
    ensures Sum16(SwapBytes(b)) == Swap16(Sum16(b))
  {
    hide SwapBytes, Fold, Swap16, WordSum;
    SwappedFold(b);
    SwapComplement(Fold(WordSum(b)));
  }

  lemma TimesMod(s: nat, f: nat)
    requires s % 65535 == f % 65535
    ensures (256 * s) % 65535 == (256 * f) % 65535
  {
    var r := s % 65535;
    assert 256 * s == 65535 * (256 * (s / 65535)) + 256 * r;
    assert 256 * f == 65535 * (256 * (f / 65535)) + 256 * r;
    ModAdd(256 * r, 256 * (s / 65535));
    ModAdd(256 * r, 256 * (f / 65535));
  }
}
