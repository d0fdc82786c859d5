/** Section 4.1 of RFC 7230: the chunked transfer coding, as a decoder. Chunk
    extensions and trailer fields are refused here; the encoder writes none. */
module Rfc7230 {
  /** A decoded body and what follows the chunked message. */
  datatype Decoding = Malformed | Decoded(body: string, rest: string) {
    /** The same with data in front of the body. */
    function After(data: string): Decoding {
      if Malformed? then Malformed else Decoded(data + body, rest)
    }
  }

  const CRLF: string := ['\r', '\n']

  predicate IsHexDigit(c: char) { '0' <= c <= '9' || 'a' <= c <= 'f' || 'A' <= c <= 'F' }

  function HexValue(c: char): (v: nat)
    requires IsHexDigit(c)
    ensures v < 16
  {
    if '0' <= c <= '9' then (c as int) - ('0' as int)
    else if 'a' <= c <= 'f' then (c as int) - ('a' as int) + 10
    else (c as int) - ('A' as int) + 10
  }

  /** The digits of RFC 5234, in both cases, and nothing else. */
  lemma HexDigits(c: char)
    ensures IsHexDigit(c) <==> c in "0123456789abcdefABCDEF"
    ensures forall d :: 0 <= d < 16 ==> HexValue("0123456789abcdef"[d]) == HexValue("0123456789ABCDEF"[d]) == d
  {
  }

  /** How many hexadecimal digits s begins with. */
  function HexRun(s: string): (k: nat)
    ensures k <= |s|
    ensures forall i :: 0 <= i < k ==> IsHexDigit(s[i])
    ensures k < |s| ==> !IsHexDigit(s[k])
  {
    if |s| == 0 || !IsHexDigit(s[0]) then 0 else 1 + HexRun(s[1..])
  }

  function NumberOf(s: string): nat
    requires forall i :: 0 <= i < |s| ==> IsHexDigit(s[i])
  {
    if |s| == 0 then 0 else 16 * NumberOf(s[..|s| - 1]) + HexValue(s[|s| - 1])
  }

  /** The decoding process of section 4.1.3. */
  function Decode(s: string): (r: Decoding)
    decreases |s|
  {
    var k := HexRun(s);
    if k == 0 || !(CRLF <= s[k..]) then Malformed
    else
      var size, rest := NumberOf(s[..k]), s[k + 2..];
      if size == 0 then
        if CRLF <= rest then Decoded("", rest[2..]) else Malformed
      else if size > |rest| || !(CRLF <= rest[size..]) then Malformed
      else Decode(rest[size + 2..]).After(rest[..size])
  }
}
