/** Byte strings: in-place overwriting, zero padding, and the 4-byte integer encoding. */
module Bytes {

  type byte = x: int | 0 <= x < 256

  /** `d` with the bytes from address `a` on replaced by `s`. */
  function Patch(d: seq<byte>, a: int, s: seq<byte>): (r: seq<byte>)
    requires 0 <= a && a + |s| <= |d|
    ensures |r| == |d|
    ensures forall i {:trigger r[i]} :: 0 <= i < |d| ==> r[i] == if a <= i < a + |s| then s[i - a] else d[i]
  {
    seq(|d|, i requires 0 <= i < |d| => if a <= i < a + |s| then s[i - a] else d[i])
  }

  /** `s` with `x` after its last element. */
  function Push<T>(s: seq<T>, x: T): (r: seq<T>)
    ensures |r| == |s| + 1
    ensures forall i {:trigger r[i]} :: 0 <= i < |r| ==> r[i] == if i < |s| then s[i] else x
  {
    seq(|s| + 1, i requires 0 <= i <= |s| => if i < |s| then s[i] else x)
  }

  lemma PushFront<T>(s: seq<T>, x: T)
    ensures Push(s, x)[..|s|] == s
  {
  }

  lemma PushMember<T>(s: seq<T>, x: T, y: T)
    ensures y in Push(s, x) <==> y in s || y == x
  {
    assert Push(s, x)[|s|] == x;
    if y in s {
      var i :| 0 <= i < |s| && s[i] == y;
      assert Push(s, x)[i] == y;
    }
  }

  function Zeros(n: nat): (z: seq<byte>)
    ensures |z| == n && forall i :: 0 <= i < n ==> z[i] == 0
  {
    seq(n, i => 0)
  }

  /** `s` followed by zeros up to length `n`; `s` itself when it is already that long. */
  function Pad(s: seq<byte>, n: nat): (r: seq<byte>)
    ensures |r| == if |s| < n then n else |s|
    ensures forall i {:trigger r[i]} :: 0 <= i < |r| ==> r[i] == if i < |s| then s[i] else 0
  {
    seq(if |s| < n then n else |s|, i requires 0 <= i => if i < |s| then s[i] else 0)
  }

  /** What a write at offset `off` does to a byte sequence: zero fill up to `off`, then overwrite. */
  function Splice(s: seq<byte>, off: nat, src: seq<byte>): (r: seq<byte>)
    ensures |r| == if |s| < off + |src| then off + |src| else |s|
  {
    Patch(Pad(s, off + |src|), off, src)
  }

  /** `n` bytes of `s` from `off` on; empty when `s` is too short. */
  function Chunk(s: seq<byte>, off: nat, n: nat): (r: seq<byte>)
    ensures off + n <= |s| ==> |r| == n
  {
    if off + n <= |s| then seq(n, q requires 0 <= q < n => s[off + q]) else []
  }

  predicate Int32(v: int) {
    -0x8000_0000 <= v < 0x8000_0000
  }

  /** Base-256 digit `i` of `u`, counting from the lowest. */
  function Digit(u: nat, i: nat): byte
    decreases i
  {
    if i == 0 then u % 256 else Digit(u / 256, i - 1)
  }

  /** Little-endian two's-complement image of a C int; a value out of range wraps. */
  function IntBytes(v: int): (b: seq<byte>)
    ensures |b| == 4
  {
    seq(4, i requires 0 <= i => Digit(v % 0x1_0000_0000, i))
  }

  /** The unsigned value of the bytes from address `a` up to `b`, lowest byte first. */
  function Unsigned(d: seq<byte>, a: nat, b: nat): (u: nat)
    requires a <= b <= |d|
    decreases b - a
  {
    if a == b then 0 else d[a] + 256 * Unsigned(d, a + 1, b)
  }

  /** The C int stored at address `a`. */
  function IntAt(d: seq<byte>, a: int): int {
    if 0 <= a && a + 4 <= |d| then
      var u := Unsigned(d, a, a + 4);
      if u >= 0x8000_0000 then u - 0x1_0000_0000 else u
    else 0
  }

  lemma {:induction false} UnsignedFrame(d: seq<byte>, a: nat, b: nat, d': seq<byte>, a': nat, b': nat)
    requires a <= b <= |d| && a' <= b' <= |d'| && b' - a' == b - a
    requires forall i :: a <= i < b ==> d[i] == d'[a' + (i - a)]
    ensures Unsigned(d, a, b) == Unsigned(d', a', b')
    decreases b - a
  {
    if a < b {
      UnsignedFrame(d, a + 1, b, d', a' + 1, b');
    }
  }

  lemma IntAtFrame(d: seq<byte>, d': seq<byte>, a: int)
    requires |d| == |d'|
    requires forall x :: a <= x < a + 4 && 0 <= x < |d| ==> d[x] == d'[x]
    ensures IntAt(d, a) == IntAt(d', a)
  {
    if 0 <= a && a + 4 <= |d| {
      UnsignedFrame(d, a, a + 4, d', a, a + 4);
    }
  }

  /** What `n` more digits contribute to a number. */
  function Scale(n: nat): nat {
    if n == 0 then 1 else 256 * Scale(n - 1)
  }

  lemma {:induction false} DigitsValue(d: seq<byte>, a: nat, b: nat, u: nat)
    requires a <= b <= |d| && u < Scale(b - a)
    requires forall i :: a <= i < b ==> d[i] == Digit(u, i - a)
    ensures Unsigned(d, a, b) == u
    decreases b - a
  {
    if a < b {
      assert d[a] == Digit(u, 0);
      DigitsValue(d, a + 1, b, u / 256);
    }
  }

  /** An int read back from its own bytes. */
  lemma IntRoundTrip(v: int)
    requires Int32(v)
    ensures IntAt(IntBytes(v), 0) == v
  {
    assert Scale(4) == 256 * Scale(3) && Scale(3) == 256 * Scale(2) && Scale(2) == 256 * Scale(1) == 65536;
    DigitsValue(IntBytes(v), 0, 4, v % 0x1_0000_0000);
  }

  /** The lowest byte comes first, and a negative int is stored as its value modulo 2^32. */
  lemma IntBytesValue(v: int, b0: int, b1: int, b2: int, b3: int)
    requires Int32(v) && IntBytes(v) == [b0, b1, b2, b3]
    ensures b0 + 256 * (b1 + 256 * (b2 + 256 * b3)) == if v < 0 then v + 0x1_0000_0000 else v
  {
    var b := IntBytes(v);
    assert Scale(4) == 256 * Scale(3) && Scale(3) == 256 * Scale(2) && Scale(2) == 256 * Scale(1) == 65536;
    DigitsValue(b, 0, 4, v % 0x1_0000_0000);
    assert Unsigned(b, 4, 4) == 0 && Unsigned(b, 3, 4) == b3 && Unsigned(b, 2, 4) == b2 + 256 * b3;
    assert Unsigned(b, 1, 4) == b1 + 256 * (b2 + 256 * b3);
  }

  lemma IntAtPatch(d: seq<byte>, a: int, v: int)
    requires 0 <= a && a + 4 <= |d| && Int32(v)
    ensures IntAt(Patch(d, a, IntBytes(v)), a) == v
  {
    IntRoundTrip(v);
    UnsignedFrame(Patch(d, a, IntBytes(v)), a, a + 4, IntBytes(v), 0, 4);
  }

  lemma ChunkInt(d: seq<byte>, a: nat, v: int)
    requires Int32(v) && a + 4 <= |d| && Chunk(d, a, 4) == IntBytes(v)
    ensures IntAt(d, a) == v
  {
    IntRoundTrip(v);
    forall i | 0 <= i < 4
      ensures IntBytes(v)[i] == d[a + i]
    {
      assert Chunk(d, a, 4)[i] == d[a + i];
    }
    UnsignedFrame(IntBytes(v), 0, 4, d, a, a + 4);
  }

  lemma ChunkPad(s: seq<byte>, n: nat, off: nat, len: nat)
    requires off + len <= |s|
    ensures Chunk(Pad(s, n), off, len) == Chunk(s, off, len)
  {
  }

  lemma {:induction false} ZeroUnsigned(d: seq<byte>, a: nat, b: nat)
    requires a <= b <= |d| && forall x :: a <= x < b ==> d[x] == 0
    ensures Unsigned(d, a, b) == 0
    decreases b - a
  {
    if a < b {
      ZeroUnsigned(d, a + 1, b);
    }
  }

  /** Zero bytes are the int 0. */
  lemma ZeroInt(d: seq<byte>, a: nat)
    requires a + 4 <= |d| && forall x :: a <= x < a + 4 ==> d[x] == 0
    ensures IntAt(d, a) == 0
  {
    ZeroUnsigned(d, a, a + 4);
  }

  lemma IntBytesZero()
    ensures IntBytes(0) == Zeros(4)
  {
    assert forall i :: 0 <= i < 4 ==> Digit(0, i) == 0 by {
      assert Digit(0, 1) == Digit(0, 0) && Digit(0, 2) == Digit(0, 1) && Digit(0, 3) == Digit(0, 2);
    }
  }
}
