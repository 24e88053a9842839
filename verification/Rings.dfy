/**
  The receive buffer of a socket: 4096 bytes used in a circle.  A producer (interrupt
  side) writes at `head` and adds to `len`; a consumer reads at `tail`, byte by byte,
  and gives the space back only when it has read everything it came for.
 */
module Rings {
  import opened Words

  const SIZE := 4096

  datatype Ring = Ring(buffer: seq<byte>, head: nat, tail: nat, len: nat)

  function EmptyRing(): Ring {
    Ring(seq(SIZE, _ => 0), 0, 0, 0)
  }

  /** Position `i` counted round the buffer from `start`. */
  function At(start: nat, i: nat): (p: nat)
    ensures p < SIZE
  {
    (start + i) % SIZE
  }

  /** Bytes are held from `start` on: nothing between `start` and `head` has been released. */
  predicate Holds(r: Ring, start: nat) {
    |r.buffer| == SIZE && r.head < SIZE && start < SIZE && r.len <= SIZE && r.head == At(start, r.len)
  }

  /** The `n` bytes from position `start` round the buffer. */
  function Window(b: seq<byte>, start: nat, n: nat): (w: seq<byte>)
    requires |b| == SIZE
    ensures |w| == n
  {
    seq(n, i requires 0 <= i < n => b[At(start, i)])
  }

  /** The bytes held, oldest first. */
  function Held(r: Ring, start: nat): (w: seq<byte>)
    requires Holds(r, start)
    ensures |w| == r.len
  {
    Window(r.buffer, start, r.len)
  }

  /** One byte stored at the head. */
  function PutByte(r: Ring, x: byte): (r': Ring)
    requires |r.buffer| == SIZE && r.head < SIZE
    ensures |r'.buffer| == SIZE && r'.head < SIZE && r'.tail == r.tail && r'.len == r.len
  {
    r.(buffer := r.buffer[r.head := x], head := (r.head + 1) % SIZE)
  }

  /** The bytes of `s` stored one after the other; `len` is not yet changed. */
  function PutAll(r: Ring, s: seq<byte>): (r': Ring)
    requires |r.buffer| == SIZE && r.head < SIZE
    ensures |r'.buffer| == SIZE && r'.head < SIZE && r'.tail == r.tail && r'.len == r.len
  {
    if s == [] then r else PutByte(PutAll(r, s[..|s| - 1]), s[|s| - 1])
  }

  /** A producer step: everything is stored, or there is no room and nothing changes. */
  function Offer(r: Ring, s: seq<byte>): (r': Ring)
    requires |r.buffer| == SIZE && r.head < SIZE
  {
    if r.len + |s| <= SIZE then PutAll(r, s).(len := r.len + |s|) else r
  }

  /** The byte at the tail. */
  function Front(r: Ring): byte
    requires |r.buffer| == SIZE && r.tail < SIZE
  {
    r.buffer[r.tail]
  }

  function Advance(r: Ring): (r': Ring) {
    r.(tail := (r.tail + 1) % SIZE)
  }

  // ----- arithmetic round the buffer -----

  lemma NextPosition(start: nat, n: nat)
    ensures (At(start, n) + 1) % SIZE == At(start, n + 1)
  {
  }

  /** Two positions less than one round apart are different. */
  lemma PositionsDiffer(start: nat, i: nat, j: nat)
    requires i < j < i + SIZE
    ensures At(start, i) != At(start, j)
  {
  }

  // ----- what a producer step does -----

  /** Storing `s` writes exactly the next `|s|` positions after the head. */
  lemma {:induction false} PutAllWrites(r: Ring, start: nat, s: seq<byte>)
    requires Holds(r, start) && r.len + |s| <= SIZE
    ensures var r' := PutAll(r, s);
            && r'.head == At(start, r.len + |s|)
            && Window(r'.buffer, start, r.len + |s|) == Held(r, start) + s
  {
    hide At;
    if s == [] {
      assert Window(r.buffer, start, r.len + 0) == Held(r, start) + s;
    } else {
      var n := |s| - 1;
      PutAllWrites(r, start, s[..n]);
      var p := PutAll(r, s[..n]);
      NextPosition(start, r.len + n);
      StoreExtends(p.buffer, start, r.len + n, s[n]);
      assert Held(r, start) + s == (Held(r, start) + s[..n]) + [s[n]];
    }
  }

  lemma StoreExtends(b: seq<byte>, start: nat, n: nat, x: byte)
    requires |b| == SIZE && n < SIZE
    ensures Window(b[At(start, n) := x], start, n + 1) == Window(b, start, n) + [x]
  {
    hide At;
    var b' := b[At(start, n) := x];
    forall i | 0 <= i < n
      ensures b'[At(start, i)] == b[At(start, i)]
    {
      PositionsDiffer(start, i, n);
    }
    assert Window(b', start, n + 1) == Window(b, start, n) + [x];
  }

  /**
    No producer step overwrites a byte that is still held, and everything accepted is held
    behind it; a step that does not fit changes nothing.
   */
  lemma OfferEffect(r: Ring, start: nat, s: seq<byte>)
    requires Holds(r, start)
    ensures var r' := Offer(r, s);
            && Holds(r', start) && r'.tail == r.tail
            && Held(r', start) == (if r.len + |s| <= SIZE then Held(r, start) + s else Held(r, start))
            && (r.len + |s| > SIZE ==> r' == r)
  {
    if r.len + |s| <= SIZE {
      PutAllWrites(r, start, s);
    }
  }

  // ----- what the consumer reads and releases -----

  /** After `k` bytes have been read, the byte at the tail is byte `k` of what is held. */
  lemma FrontIs(r: Ring, start: nat, k: nat)
    requires Holds(r, start) && k < r.len && r.tail == At(start, k)
    ensures r.tail < SIZE && Front(r) == Held(r, start)[k]
    ensures Advance(r).tail == At(start, k + 1)
    ensures Holds(Advance(r), start) && Held(Advance(r), start) == Held(r, start)
  {
    hide At;
    NextPosition(start, k);
  }

  /** Releasing the `k` bytes that were read keeps the rest. */
  lemma ReleaseEffect(r: Ring, start: nat, k: nat)
    requires Holds(r, start) && k <= r.len && r.tail == At(start, k)
    ensures var r' := r.(len := r.len - k);
            && Holds(r', r.tail) && Held(r', r.tail) == Held(r, start)[k..]
  {
    hide At;
    var r' := r.(len := r.len - k);
    Shift(start, k, r.len - k);
    forall i | 0 <= i < r.len - k
      ensures At(r.tail, i) == At(start, k + i)
    {
      Shift(start, k, i);
    }
    assert Held(r', r.tail) == Held(r, start)[k..];
  }

  lemma Shift(start: nat, k: nat, i: nat)
    ensures At(At(start, k), i) == At(start, k + i)
  {
    var q := (start + k) / SIZE;
    assert start + (k + i) == SIZE * q + ((start + k) % SIZE + i);
    Round((start + k) % SIZE + i, q);
  }

  lemma Round(x: nat, q: nat)
    ensures (SIZE * q + x) % SIZE == x % SIZE
  {
  }
}
