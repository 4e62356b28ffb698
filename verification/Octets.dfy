// Byte strings, digests and the small conversions every other module uses.
module Octets {
  type byte = x: int | 0 <= x < 256

  type Bytes = seq<byte>

  /** What SHA-256 returns: exactly 32 bytes. */
  type Digest = b: Bytes | |b| == 32 witness seq(32, _ => 0)

  /** A hash stays uninterpreted: any total function from byte strings to digests. */
  type Hash = Bytes -> Digest

  datatype Option<+T> = None | Some(value: T)

  /** Two different members of `inputs` have the same hash. The set is always a finite set of
      inputs that some computation really hashed, so this is an explicit collision. */
  ghost predicate Collides(h: Hash, inputs: set<Bytes>) {
    exists x, y :: x in inputs && y in inputs && x != y && h(x) == h(y)
  }

  lemma NoCollision(h: Hash, inputs: set<Bytes>, x: Bytes, y: Bytes)
    requires !Collides(h, inputs)
    requires x in inputs && y in inputs && h(x) == h(y)
    ensures x == y
  {
  }

  /** Two-byte big-endian encoding. */
  function U16(n: nat): (b: Bytes)
    requires n < 0x1_0000
    ensures |b| == 2
    ensures FromU16(b[0], b[1]) == n
  {
    [n / 256, n % 256]
  }

  function FromU16(hi: byte, lo: byte): (n: nat)
    ensures n < 0x1_0000
  {
    256 * hi + lo
  }

  /** Big-endian encoding of n in `width` bytes (n modulo 256^width). */
  function BigEndian(n: nat, width: nat): (b: Bytes)
    ensures |b| == width
    decreases width
  {
    if width == 0 then [] else BigEndian(n / 256, width - 1) + [n % 256]
  }

  function FromBigEndian(b: Bytes): nat {
    if b == [] then 0 else 256 * FromBigEndian(b[..|b| - 1]) + b[|b| - 1]
  }

  function Pow256(e: nat): nat { if e == 0 then 1 else 256 * Pow256(e - 1) }

  lemma {:induction false} BigEndianRoundTrip(n: nat, width: nat)
    requires n < Pow256(width)
    ensures FromBigEndian(BigEndian(n, width)) == n
    decreases width
  {
    if width > 0 {
      BigEndianRoundTrip(n / 256, width - 1);
      assert BigEndian(n, width)[..width - 1] == BigEndian(n / 256, width - 1);
    }
  }

  /** The bytes of a literal such as b"continuity". */
  function Ascii(s: string): (b: Bytes)
    requires forall i :: 0 <= i < |s| ==> s[i] as int < 256
    ensures |b| == |s| && forall i :: 0 <= i < |s| ==> b[i] == s[i] as int
  {
    seq(|s|, i requires 0 <= i < |s| => s[i] as int)
  }

  /** The value of bytes read from the left, the first weighing most. */
  function ValueOf(b: Bytes): nat {
    if b == [] then 0 else b[0] * Pow256(|b| - 1) + ValueOf(b[1..])
  }

  lemma {:induction false} ValueOfAppended(b: Bytes, x: byte)
    ensures ValueOf(b + [x]) == 256 * ValueOf(b) + x
    decreases |b|
  {
    if b == [] {
      assert b + [x] == [x] && [x][1..] == [] && Pow256(0) == 1;
    } else {
      assert (b + [x])[1..] == b[1..] + [x];
      ValueOfAppended(b[1..], x);
      assert b[0] * Pow256(|b|) == 256 * (b[0] * Pow256(|b| - 1));
    }
  }

  /** The encoding is big-endian: read from the left it is n again. */
  lemma {:induction false} BigEndianValue(n: nat, width: nat)
    requires n < Pow256(width)
    ensures ValueOf(BigEndian(n, width)) == n
    decreases width
  {
    if width > 0 {
      BigEndianValue(n / 256, width - 1);
      ValueOfAppended(BigEndian(n / 256, width - 1), n % 256);
    }
  }

  lemma {:induction false} ValueRoundTrip(b: Bytes)
    ensures BigEndian(ValueOf(b), |b|) == b
    decreases |b|
  {
    if b != [] {
      var front, x := b[..|b| - 1], b[|b| - 1];
      assert b == front + [x];
      ValueOfAppended(front, x);
      ValueRoundTrip(front);
    }
  }
}
