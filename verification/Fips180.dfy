/** The SHA-1 part of FIPS 180-4, written from the standard: the reference that
    the implementation in module Sha1 is proved against. */
module Fips180 {
  import opened Bytes
  import opened Power
  type Word = bv32

  /** The five working variables (and the five words of a hash value). */
  datatype State = State(a: Word, b: Word, c: Word, d: Word, e: Word)

  // Section 4.1.1: functions.

  function Ch(x: Word, y: Word, z: Word): Word { (x & y) ^ (!x & z) }

  function Parity(x: Word, y: Word, z: Word): Word { x ^ y ^ z }

  function Maj(x: Word, y: Word, z: Word): Word { (x & y) ^ (x & z) ^ (y & z) }

  function F(t: nat, x: Word, y: Word, z: Word): Word {
    if t < 20 then Ch(x, y, z)
    else if t < 40 then Parity(x, y, z)
    else if t < 60 then Maj(x, y, z)
    else Parity(x, y, z)
  }

  // Section 4.2.1: constants.

  function K(t: nat): Word {
    if t < 20 then 0x5a827999
    else if t < 40 then 0x6ed9eba1
    else if t < 60 then 0x8f1bbcdc
    else 0xca62c1d6
  }

  // Section 5.1.1: padding, counted in bytes. The length field holds the bit
  // length modulo 2^64; it is the bit length for every message in the domain
  // of the standard (fewer than 2^61 bytes).

  /** The low 64 bits of a number. */
  function Low64(n: nat): bv64 { (n % TWO_64) as bv64 }

  function BitLength(n: nat): bv64 { Low64(8 * n) }

  function BigEndian64(l: bv64): (r: seq<Byte>)
    ensures |r| == 8
  {
    [((l >> 56) & 0xff) as Byte, ((l >> 48) & 0xff) as Byte, ((l >> 40) & 0xff) as Byte, ((l >> 32) & 0xff) as Byte,
     ((l >> 24) & 0xff) as Byte, ((l >> 16) & 0xff) as Byte, ((l >> 8) & 0xff) as Byte, (l & 0xff) as Byte]
  }

  function Zeros(n: nat): (r: seq<Byte>)
    ensures |r| == n
  {
    seq(n, _ => 0)
  }

  /** The number of zero bytes between the 0x80 byte and the length field:
      the smallest solution of n + 1 + k = 56 modulo 64. */
  function ZeroCount(n: nat): (k: nat)
    ensures k < 64 && (n + 1 + k) % 64 == 56
  {
    if n % 64 < 56 then 55 - n % 64 else 119 - n % 64
  }

  /** Justifies the definition: no smaller number of zeros will do. */
  lemma ZeroCountIsLeast(n: nat, j: nat)
    requires j < ZeroCount(n)
    ensures (n + 1 + j) % 64 != 56
  {
  }

  lemma BitLengthIsExact(n: nat)
    requires n < 0x2000_0000_0000_0000
    ensures BitLength(n) == (8 * n) as bv64
  {
  }

  function PadWith(m: seq<Byte>, length: seq<Byte>): (r: seq<Byte>)
    requires |length| == 8
    ensures |r| % 64 == 0
  {
    m + [0x80] + Zeros(ZeroCount(|m|)) + length
  }

  function Pad(m: seq<Byte>): (r: seq<Byte>)
    ensures |r| % 64 == 0
  {
    PadWith(m, BigEndian64(BitLength(|m|)))
  }

  // Section 5.2.1: parsing, big-endian words.

  function BigEndian32(s: seq<Byte>): Word
    requires |s| == 4
  {
    (s[0] as Word << 24) | (s[1] as Word << 16) | (s[2] as Word << 8) | s[3] as Word
  }

  function Parse(s: seq<Byte>): (r: seq<Word>)
    requires |s| == 64
    ensures |r| == 16
  {
    seq(16, i requires 0 <= i < 16 => BigEndian32(s[4 * i..4 * i + 4]))
  }

  // Section 5.3.1: initial hash value.

  const H0: State := State(0x67452301, 0xefcdab89, 0x98badcfe, 0x10325476, 0xc3d2e1f0)

  // Section 6.1.2: hash computation.

  function NextWord(w3: Word, w8: Word, w14: Word, w16: Word): Word {
    (w3 ^ w8 ^ w14 ^ w16).RotateLeft(1)
  }

  function W(m: seq<Word>, t: nat): Word
    requires |m| == 16
  {
    if t < 16 then m[t]
    else NextWord(W(m, t - 3), W(m, t - 8), W(m, t - 14), W(m, t - 16))
  }

  /** The value T of the standard. */
  function Temp(rotated: Word, f: Word, e: Word, k: Word, w: Word): Word { rotated + f + e + k + w }

  function Round(s: State, t: nat, w: Word): State {
    State(Temp(s.a.RotateLeft(5), F(t, s.b, s.c, s.d), s.e, K(t), w), s.a, s.b.RotateLeft(30), s.c, s.d)
  }

  /** The working variables after rounds 0..t-1. */
  function Rounds(m: seq<Word>, h: State, t: nat): State
    requires |m| == 16
  {
    if t == 0 then h else Round(Rounds(m, h, t - 1), t - 1, W(m, t - 1))
  }

  /** Addition modulo 2^32. */
  function Plus(x: Word, y: Word): Word { x + y }

  lemma PlusIsModulo(x: Word, y: Word)
    ensures Plus(x, y) as bv64 == (x as bv64 + y as bv64) & 0xffff_ffff
  {
  }

  function Compress(h: State, m: seq<Word>): State
    requires |m| == 16
  {
    var s := Rounds(m, h, 80);
    State(Plus(h.a, s.a), Plus(h.b, s.b), Plus(h.c, s.c), Plus(h.d, s.d), Plus(h.e, s.e))
  }

  function HashBlocks(s: seq<Byte>): State
    requires |s| % 64 == 0
  {
    if |s| == 0 then H0
    else Compress(HashBlocks(s[..|s| - 64]), Parse(s[|s| - 64..]))
  }

  function Bytes32(w: Word): (r: seq<Byte>)
    ensures |r| == 4
  {
    [((w >> 24) & 0xff) as Byte, ((w >> 16) & 0xff) as Byte, ((w >> 8) & 0xff) as Byte, (w & 0xff) as Byte]
  }

  function Digest(h: State): (r: seq<Byte>)
    ensures |r| == 20
  {
    Bytes32(h.a) + Bytes32(h.b) + Bytes32(h.c) + Bytes32(h.d) + Bytes32(h.e)
  }

  function Sha1(m: seq<Byte>): (r: seq<Byte>)
    ensures |r| == 20
  {
    Digest(HashBlocks(Pad(m)))
  }
}
