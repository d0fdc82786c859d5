/** Section 4 of RFC 3629: the syntax of UTF-8 byte sequences. */
module Rfc3629 {
  import opened Bytes

  predicate IsTail(b: Byte) { 0x80 <= b <= 0xbf }

  predicate IsChar1(c: seq<Byte>) { |c| == 1 && c[0] <= 0x7f }

  predicate IsChar2(c: seq<Byte>) { |c| == 2 && 0xc2 <= c[0] <= 0xdf && IsTail(c[1]) }

  predicate IsChar3(c: seq<Byte>) {
    && |c| == 3
    && (|| (c[0] == 0xe0 && 0xa0 <= c[1] <= 0xbf)
        || (0xe1 <= c[0] <= 0xec && IsTail(c[1]))
        || (c[0] == 0xed && 0x80 <= c[1] <= 0x9f)
        || (0xee <= c[0] <= 0xef && IsTail(c[1])))
    && IsTail(c[2])
  }

  predicate IsChar4(c: seq<Byte>) {
    && |c| == 4
    && (|| (c[0] == 0xf0 && 0x90 <= c[1] <= 0xbf)
        || (0xf1 <= c[0] <= 0xf3 && IsTail(c[1]))
        || (c[0] == 0xf4 && 0x80 <= c[1] <= 0x8f))
    && IsTail(c[2]) && IsTail(c[3])
  }

  predicate IsChar(c: seq<Byte>) { IsChar1(c) || IsChar2(c) || IsChar3(c) || IsChar4(c) }

  /** UTF8-octets: any number of characters. */
  ghost predicate IsText(s: seq<Byte>)
    decreases |s|
  {
    |s| == 0 || exists n :: 1 <= n <= |s| && IsChar(s[..n]) && IsText(s[n..])
  }

  /** Bytes that more bytes can complete to a text. */
  ghost predicate IsTextPrefix(s: seq<Byte>) {
    exists rest :: IsText(s + rest)
  }
}
