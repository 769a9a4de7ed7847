/** Byte sequences: the value view of the `Uint8Array`s that the archive writer
    fills, and the finite chunk sequences that model its readable streams. */
module Bytes {

  /** One octet, as held by a `Uint8Array` element. */
  type Byte = b: int | 0 <= b < 256

  /** A finite readable stream: the chunks it yields, in order. */
  type Stream = seq<seq<Byte>>

  const NUL: Byte := 0x00
  const LF: Byte := 0x0A
  const SPACE: Byte := 0x20
  const SLASH: Byte := 0x2F
  const EQUALS: Byte := 0x3D

  /** `new Uint8Array(n)`: n NUL bytes. */
  function Zeros(n: nat): (r: seq<Byte>)
    ensures |r| == n
    ensures forall i :: 0 <= i < n ==> r[i] == NUL
  {
    seq(n, _ => NUL)
  }

  /** A `width`-byte NUL-filled buffer after `.set(s)` at offset 0. */
  function Place(s: seq<Byte>, width: nat): (r: seq<Byte>)
    requires |s| <= width
    ensures |r| == width && r[..|s|] == s
    ensures forall i :: |s| <= i < width ==> r[i] == NUL
  {
    s + Zeros(width - |s|)
  }

  /** `s.slice(0, n)`: the first n bytes of s, or all of s when it is shorter. */
  function Take(s: seq<Byte>, n: nat): (r: seq<Byte>)
    ensures |r| <= n && |r| <= |s|
    ensures r == s[..|r|]
    ensures |r| == if |s| <= n then |s| else n
  {
    if |s| <= n then s else s[..n]
  }

  /** Unsigned sum of the bytes of s. */
  function Sum(s: seq<Byte>): nat
  {
    if s == [] then 0 else Sum(s[..|s| - 1]) + s[|s| - 1]
  }

  lemma {:induction false} SumAppend(a: seq<Byte>, b: seq<Byte>)
    ensures Sum(a + b) == Sum(a) + Sum(b)
    decreases |b|
  {
    if b == [] {
      assert a + b == a;
    } else {
      var b' := b[..|b| - 1];
      assert (a + b)[..|a + b| - 1] == a + b';
      SumAppend(a, b');
    }
  }

  lemma {:induction false} SumBound(s: seq<Byte>)
    ensures Sum(s) <= 255 * |s|
    decreases |s|
  {
    if s != [] {
      SumBound(s[..|s| - 1]);
    }
  }

  lemma {:induction false} SumZeros(n: nat)
    ensures Sum(Zeros(n)) == 0
  {
    if n > 0 {
      assert Zeros(n)[..n - 1] == Zeros(n - 1);
      SumZeros(n - 1);
    }
  }

  /** The bytes of a stream laid end to end. */
  function Flatten(chunks: Stream): seq<Byte>
  {
    if chunks == [] then [] else chunks[0] + Flatten(chunks[1..])
  }

  lemma {:induction false} FlattenAppend(a: Stream, b: Stream)
    ensures Flatten(a + b) == Flatten(a) + Flatten(b)
    decreases |a|
  {
    if a == [] {
      assert a + b == b;
    } else {
      assert (a + b)[1..] == a[1..] + b;
      FlattenAppend(a[1..], b);
    }
  }
}
