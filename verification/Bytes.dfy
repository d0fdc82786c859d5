/** Octets, and eight of them read as one little-endian word. */
module Bytes {
  type Byte = bv8

  function LoadWord(s: seq<Byte>, i: nat): bv64
    requires i + 8 <= |s|
  {
    (s[i] as bv64) | (s[i + 1] as bv64 << 8) | (s[i + 2] as bv64 << 16) | (s[i + 3] as bv64 << 24) |
    (s[i + 4] as bv64 << 32) | (s[i + 5] as bv64 << 40) | (s[i + 6] as bv64 << 48) | (s[i + 7] as bv64 << 56)
  }
}
