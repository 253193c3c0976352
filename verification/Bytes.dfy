/** Byte strings, big-endian integers and the 4-byte padding shared by every wire format. */
module Bytes {

  type byte = b: int | 0 <= b < 256
  type Bytes = seq<byte>

  function Zeros(n: nat): (z: Bytes)
    ensures |z| == n
  {
    seq(n, _ => 0)
  }

  /** Number of zero bytes that bring a body of length `n` to a 4-byte boundary. */
  function PadLength(n: nat): (p: nat)
    ensures p < 4 && (n + p) % 4 == 0
  {
    if n % 4 == 0 then 0 else 4 - n % 4
  }

  function Padded(b: Bytes): (r: Bytes)
    ensures |r| % 4 == 0 && b <= r && (|b| % 4 == 0 ==> r == b)
  {
    b + Zeros(PadLength(|b|))
  }

  /** Padding adds fewer than four bytes, all zero. */
  lemma PaddedIs(b: Bytes)
    ensures var r := Padded(b);
            |b| <= |r| < |b| + 4 && r[..|b|] == b && forall i :: |b| <= i < |r| ==> r[i] == 0
  {
  }

  /** `struct.pack("!H", n)` for an `n` that fits; its callers are guarded where the original raises. */
  function PackU16(n: nat): (b: Bytes)
    ensures |b| == 2 && (n < 0x10000 ==> UnpackU16(b) == n)
  {
    [n / 256 % 256, n % 256]
  }

  function UnpackU16(b: Bytes): (n: nat)
    requires |b| == 2
    ensures n < 0x10000
  {
    (b[0] as int) * 256 + (b[1] as int)
  }

  /** `struct.pack("!HH", a, b)`, likewise. */
  function PackPair(a: nat, b: nat): (h: Bytes)
    ensures |h| == 4
  {
    [a / 256 % 256, a % 256, b / 256 % 256, b % 256]
  }

  /** `struct.unpack("!H", data[offset : offset + 2])` */
  function U16At(data: Bytes, offset: nat): (n: nat)
    requires offset + 2 <= |data|
    ensures n < 0x10000
  {
    (data[offset] as int) * 256 + (data[offset + 1] as int)
  }

  /** A packed pair is read back wherever it sits. */
  lemma PairAt(data: Bytes, n: nat, a: nat, b: nat, rest: Bytes)
    requires a < 0x10000 && b < 0x10000 && n <= |data| && data[n..] == PackPair(a, b) + rest
    ensures n + 4 <= |data| && U16At(data, n) == a && U16At(data, n + 2) == b && data[n + 4..] == rest
  {
    var tail := data[n..];
    assert data[n] == tail[0] && data[n + 1] == tail[1] && data[n + 2] == tail[2] && data[n + 3] == tail[3];
    assert data[n + 4..] == tail[4..];
  }

  function Pow256(w: nat): (p: nat)
    ensures p > 0
  {
    if w == 0 then 1 else 256 * Pow256(w - 1)
  }

  /** The low `w` bytes of `n`, most significant first. */
  function PackBE(n: nat, w: nat): (b: Bytes)
    ensures |b| == w
    decreases w
  {
    if w == 0 then [] else PackBE(n / 256, w - 1) + [n % 256]
  }

  function UnpackBE(b: Bytes): nat
  {
    if b == [] then 0 else UnpackBE(b[..|b| - 1]) * 256 + (b[|b| - 1] as int)
  }

  /** Packing a number that fits its width loses nothing. */
  lemma {:induction false} UnpackPackBE(n: nat, w: nat)
    requires n < Pow256(w)
    ensures UnpackBE(PackBE(n, w)) == n
    decreases w
  {
    if w == 0 {
    } else {
      UnpackPackBE(n / 256, w - 1);
      var b := PackBE(n, w);
      assert b[..|b| - 1] == PackBE(n / 256, w - 1);
    }
  }

  /** The first byte is the most significant. */
  lemma {:induction false} UnpackFirst(x: byte, rest: Bytes)
    ensures UnpackBE([x] + rest) == x * Pow256(|rest|) + UnpackBE(rest)
    decreases |rest|
  {
    var b := [x] + rest;
    if rest == [] {
      assert b[..0] == [];
    } else {
      var n := |rest| - 1;
      assert b[..|b| - 1] == [x] + rest[..n];
      UnpackFirst(x, rest[..n]);
    }
  }

  /** Two bytes of a stream, read as a number. */
  lemma {:induction false} U16IsBigEndian(data: Bytes, offset: nat)
    requires offset + 2 <= |data|
    ensures U16At(data, offset) == UnpackBE(data[offset..offset + 2])
    ensures UnpackBE(data[offset..offset + 2]) == 256 * (data[offset] as int) + data[offset + 1] as int
  {
    var b := data[offset..offset + 2];
    assert b[..1][..0] == [] && UnpackBE(b[..1]) == data[offset];
  }
}
