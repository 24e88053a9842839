/**
  Machine words as the kernel lays them out in memory: bytes, 32-bit unsigned
  integers stored least significant byte first, and fixed-size byte buffers.
 */
module Words {

  type byte = x: int | 0 <= x < 256
  type u16 = x: int | 0 <= x < 65536
  type u32 = x: int | 0 <= x < 0x1_0000_0000

  const TWO32 := 0x1_0000_0000

  /** A string without its terminating NUL. */
  type CString = s: seq<byte> | forall i :: 0 <= i < |s| ==> s[i] != 0

  /** The 32-bit unsigned value that `x` wraps to. */
  function Wrap(x: int): u32 {
    x % TWO32
  }

  lemma WrapSmall(x: int)
    requires 0 <= x < TWO32
    ensures Wrap(x) == x
  {
  }

  lemma WrapTwice(a: int, b: int)
    ensures Wrap(Wrap(a) + b) == Wrap(a + b)
  {
    assert a + b == TWO32 * (a / TWO32) + (Wrap(a) + b);
    ModShift(Wrap(a) + b, a / TWO32);
  }

  lemma ModShift(x: int, k: int)
    ensures (TWO32 * k + x) % TWO32 == x % TWO32
  {
  }

  /** Byte `k` of the little-endian representation of `w`. */
  function ByteOf(w: u32, k: nat): byte
    requires k < 4
  {
    if k == 0 then w % 256
    else if k == 1 then w / 256 % 256
    else if k == 2 then w / 65536 % 256
    else w / 16777216 % 256
  }

  /** The 32-bit value stored at offset `i` of `bytes`. */
  function WordAt(bytes: seq<byte>, i: nat): u32
    requires i + 4 <= |bytes|
  {
    (bytes[i] as int) + 256 * (bytes[i + 1] as int)
    + 65536 * (bytes[i + 2] as int) + 16777216 * (bytes[i + 3] as int)
  }

  /** The bytes of a sequence of words, one word after the other. */
  function WordBytes(words: seq<u32>): (bytes: seq<byte>)
    ensures |bytes| == 4 * |words|
  {
    seq(4 * |words|, i requires 0 <= i < 4 * |words| => ByteOf(words[i / 4], i % 4))
  }

  lemma ByteOfRecombine(w: u32)
    ensures ByteOf(w, 0) + 256 * ByteOf(w, 1) + 65536 * ByteOf(w, 2) + 16777216 * ByteOf(w, 3) == w
  {
    var low, high := w % 65536, w / 65536;
    LowBytes(w);
    HighBytes(w);
    assert ByteOf(w, 0) + 256 * ByteOf(w, 1) == low;
    assert ByteOf(w, 2) + 256 * ByteOf(w, 3) == high;
  }

  lemma LowBytes(w: nat)
    ensures w % 256 + 256 * (w / 256 % 256) == w % 65536
  {
    var high := w / 65536;
    assert w / 256 == 256 * high + w % 65536 / 256;
  }

  lemma HighBytes(w: u32)
    ensures w / 65536 % 256 + 256 * (w / 16777216 % 256) == w / 65536
  {
    assert w / 65536 / 256 == w / 16777216;
  }

  /** Reading back any word of a stored sequence of words gives that word. */
  lemma WordBytesRoundTrip(words: seq<u32>, k: nat)
    requires k < |words|
    ensures WordAt(WordBytes(words), 4 * k) == words[k]
  {
    var bytes := WordBytes(words);
    assert bytes[4 * k] == ByteOf(words[k], 0);
    assert bytes[4 * k + 1] == ByteOf(words[k], 1);
    assert bytes[4 * k + 2] == ByteOf(words[k], 2);
    assert bytes[4 * k + 3] == ByteOf(words[k], 3);
    ByteOfRecombine(words[k]);
  }
}
