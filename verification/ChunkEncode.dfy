/** The chunked encoder, include/beast/http/chunk_encode.hpp and
    include/beast/http/detail/chunk_encode.hpp. */
module ChunkEncode {
  import opened Power
  import opened Rfc7230
  import opened Sequences

  const DIGITS: string := "0123456789abcdef"
  const FINAL: string := ['0', '\r', '\n', '\r', '\n']

  /** The digits of n, none for 0. */
  function Hex(n: nat): string {
    if n == 0 then "" else Hex(n / 16) + [DIGITS[n % 16]]
  }

  function SizeField(n: nat): string {
    if n == 0 then "0" else Hex(n)
  }

  lemma SixteenDigits()
    ensures Pow(16, 16) == TWO_64
  {
    assert Pow(16, 2) == 256;
    PowAdd(16, 2, 2);
    PowAdd(16, 4, 4);
    PowAdd(16, 8, 8);
  }

  lemma {:induction false} HexLength(n: nat, k: nat)
    requires n < Pow(16, k)
    ensures |Hex(n)| <= k
    decreases k
  {
    if n > 0 {
      HexLength(n / 16, k - 1);
    }
  }

  lemma LastTwo(a: array<char>)
    requires a.Length == 18 && a[16] == '\r' && a[17] == '\n'
    ensures a[16..] == CRLF
  {
  }

  lemma SplitTail(a: array<char>, i: nat, j: nat)
    requires i <= j <= a.Length
    ensures a[i..] == a[i..j] + a[j..]
  {
  }

  /** chunk_encode_delim: the size field and line end, at the end of a buffer
      that is long enough for every 64-bit size. */
  class Delim {
    const buf: array<char>
    /** Where cb_ begins; it ends with the buffer. */
    var first: nat

    ghost predicate Valid()
      reads this
    {
      buf.Length == 18 && first <= 18
    }

    ghost function Text(): string
      requires Valid()
      reads this, buf
    {
      buf[first..]
    }

    /** Writes the digits of n backwards from last. */
    method ToHex(last0: nat, n0: nat) returns (last: nat)
      requires buf.Length == 18 && last0 == 16 && n0 < TWO_64
      modifies buf
      ensures last <= last0 && buf[last..last0] == SizeField(n0)
      ensures buf[last0..] == old(buf[last0..])
    {
      last := last0;
      var n := n0;
      if n == 0 {
        last := last - 1;
        buf[last] := '0';
        return;
      }
      SixteenDigits();
      HexLength(n, 16);
      while n != 0
        invariant |Hex(n)| <= last <= last0
        invariant Hex(n) + buf[last..last0] == Hex(n0)
        invariant buf[last0..] == old(buf[last0..])
      {
        ghost var before := buf[last..last0];
        last := last - 1;
        buf[last] := DIGITS[n % 16];
        assert buf[last..last0] == [DIGITS[n % 16]] + before;
        n := n / 16;
      }
    }

    constructor (n: nat)
      requires n < TWO_64
      ensures Valid() && Text() == SizeField(n) + CRLF && fresh(buf)
    {
      buf := new char[18](_ => '0');
      first := 0;
      new;
      buf[16] := '\r';
      buf[17] := '\n';
      LastTwo(buf);
      first := ToHex(16, n);
      SplitTail(buf, first, 16);
    }

    /** The copy refers to its own buffer. */
    constructor Copy(other: Delim)
      requires other.Valid()
      ensures Valid() && Text() == other.Text() && fresh(buf)
    {
      var n := 18 - other.first;
      buf := new char[18](i requires 0 <= i < 18 && other.buf.Length == 18 reads other.buf => other.buf[i]);
      first := 18 - n;
      new;
      assert buf[..] == other.buf[..];
    }
  }

  /** The buffers that chunk_encode strings together. */
  function Encoded(fin: bool, buffers: seq<string>): seq<string> {
    [SizeField(|Flatten(buffers)|) + CRLF] + buffers + [if fin then CRLF + FINAL else CRLF]
  }

  method Encode(fin: bool, buffers: seq<string>) returns (r: seq<string>)
    requires |Flatten(buffers)| < TWO_64
    ensures r == Encoded(fin, buffers)
  {
    var total := 0;
    for i := 0 to |buffers|
      invariant total == |Flatten(buffers[..i])|
    {
      FlattenTake(buffers, i);
      total := total + |buffers[i]|;
    }
    assert buffers[..|buffers|] == buffers;
    var d := new Delim(total);
    var tail := if fin then ['\r', '\n', '0', '\r', '\n', '\r', '\n'] else ['\r', '\n'];
    r := [d.buf[d.first..]] + buffers + [tail];
    assert tail == if fin then CRLF + FINAL else CRLF;
  }

  // ---- decoding undoes encoding ----

  /** Chunks one after another, none of them marked as the last. */
  function Stream(chunks: seq<seq<string>>): string {
    if |chunks| == 0 then "" else Flatten(Encoded(false, chunks[0])) + Stream(chunks[1..])
  }

  function Payload(chunks: seq<seq<string>>): string {
    if |chunks| == 0 then "" else Flatten(chunks[0]) + Payload(chunks[1..])
  }

  lemma EncodedText(fin: bool, buffers: seq<string>)
    ensures Flatten(Encoded(fin, buffers)) ==
            SizeField(|Flatten(buffers)|) + CRLF + Flatten(buffers) + (if fin then CRLF + FINAL else CRLF)
  {
    var head, tail := SizeField(|Flatten(buffers)|) + CRLF, if fin then CRLF + FINAL else CRLF;
    FlattenSnoc([head] + buffers, tail);
    FlattenCons(head, buffers);
  }

  /** Marking the last chunk is the same as appending the final chunk. */
  lemma FinIsFinal(buffers: seq<string>)
    ensures Flatten(Encoded(true, buffers)) == Flatten(Encoded(false, buffers)) + FINAL
  {
    EncodedText(true, buffers);
    EncodedText(false, buffers);
  }

  lemma {:induction false} HexIsNumber(n: nat)
    ensures forall i :: 0 <= i < |Hex(n)| ==> IsHexDigit(Hex(n)[i])
    ensures NumberOf(Hex(n)) == n
    ensures n > 0 ==> |Hex(n)| > 0
  {
    if n > 0 {
      HexIsNumber(n / 16);
      DigitValue(n % 16);
      assert Hex(n)[..|Hex(n)| - 1] == Hex(n / 16);
    }
  }

  /** No leading zero, and no capital digit. */
  lemma {:induction false} HexIsPlain(n: nat)
    ensures n > 0 ==> |Hex(n)| > 0 && Hex(n)[0] != '0'
    ensures forall c :: c in Hex(n) ==> !('A' <= c <= 'F')
  {
    if n > 0 {
      HexIsPlain(n / 16);
      PlainDigit(n % 16);
    }
  }

  lemma PlainDigit(d: nat)
    requires d < 16
    ensures !('A' <= DIGITS[d] <= 'F') && (DIGITS[d] == '0' <==> d == 0)
  {
  }

  lemma DigitValue(d: nat)
    requires d < 16
    ensures IsHexDigit(DIGITS[d]) && HexValue(DIGITS[d]) == d
  {
  }

  lemma SizeFieldIsNumber(n: nat)
    ensures |SizeField(n)| > 0
    ensures forall i :: 0 <= i < |SizeField(n)| ==> IsHexDigit(SizeField(n)[i])
    ensures NumberOf(SizeField(n)) == n
  {
    HexIsNumber(n);
    assert "0"[..0] == "";
  }

  lemma {:induction false} HexRunStops(digits: string, rest: string)
    requires forall i :: 0 <= i < |digits| ==> IsHexDigit(digits[i])
    requires |rest| > 0 && !IsHexDigit(rest[0])
    ensures HexRun(digits + rest) == |digits|
  {
    if |digits| == 0 {
      assert digits + rest == rest;
    } else {
      HexRunStops(digits[1..], rest);
      assert (digits + rest)[1..] == digits[1..] + rest;
    }
  }

  lemma DecodeChunk(data: string, after: string)
    ensures |data| == 0 ==>
              Decode(SizeField(0) + CRLF + data + CRLF + after) == Decoded("", after)
    ensures |data| > 0 ==>
              Decode(SizeField(|data|) + CRLF + data + CRLF + after) == Decode(after).After(data)
  {
    hide HexRun, NumberOf, SizeField;
    var field := SizeField(|data|);
    SizeFieldIsNumber(|data|);
    HexRunStops(field, CRLF + data + CRLF + after);
    Slices(field, data, after);
  }

  lemma ZeroField()
    ensures SizeField(0) == "0"
  {
  }

  lemma Slices(field: string, data: string, after: string)
    ensures var s := field + CRLF + data + CRLF + after;
            && s == field + (CRLF + data + CRLF + after)
            && s[..|field|] == field
            && CRLF <= s[|field|..]
            && s[|field| + 2..] == data + CRLF + after
            && (data + CRLF + after)[..|data|] == data
            && CRLF <= (data + CRLF + after)[|data|..]
            && (data + CRLF + after)[|data| + 2..] == after
  {
    var s := field + CRLF + data + CRLF + after;
    assert s[|field|..] == CRLF + (data + CRLF + after);
    assert (data + CRLF + after)[|data|..] == CRLF + after;
  }

  /** Decoding stops at the first empty chunk, and reads everything otherwise. */
  lemma {:induction false} DecodeStream(chunks: seq<seq<string>>, k: nat, after: string)
    requires k <= |chunks| && forall i :: 0 <= i < k ==> |Flatten(chunks[i])| > 0
    ensures k == |chunks| ==> Decode(Stream(chunks) + FINAL + after) == Decoded(Payload(chunks), after)
    ensures k < |chunks| && |Flatten(chunks[k])| == 0 ==>
              Decode(Stream(chunks) + FINAL + after) == Decoded(Payload(chunks[..k]), Stream(chunks[k + 1..]) + FINAL + after)
  {
    hide Decode, Encoded, SizeField, Flatten;
    if |chunks| == 0 {
      ZeroField();
      assert Stream(chunks) + FINAL + after == SizeField(0) + CRLF + "" + CRLF + after;
      DecodeChunk("", after);
    } else {
      var data, more := Flatten(chunks[0]), Stream(chunks[1..]) + FINAL + after;
      EncodedText(false, chunks[0]);
      assert Stream(chunks) + FINAL + after == SizeField(|data|) + CRLF + data + CRLF + more;
      DecodeChunk(data, more);
      if k > 0 {
        DecodeStream(chunks[1..], k - 1, after);
        assert chunks[..k][1..] == chunks[1..][..k - 1];
        if k < |chunks| {
          assert chunks[1..][k - 1 + 1..] == chunks[k + 1..];
        }
      } else {
        assert chunks[..0] == [];
      }
    }
  }

  /** The round trip holds exactly when no chunk is empty. */
  lemma RoundTrip(chunks: seq<seq<string>>)
    ensures Decode(Stream(chunks) + FINAL) == Decoded(Payload(chunks), "")
       <==> forall i :: 0 <= i < |chunks| ==> |Flatten(chunks[i])| > 0
  {
    assert Stream(chunks) + FINAL + "" == Stream(chunks) + FINAL;
    if forall i :: 0 <= i < |chunks| ==> |Flatten(chunks[i])| > 0 {
      DecodeStream(chunks, |chunks|, "");
    } else {
      var k := FirstEmpty(chunks);
      DecodeStream(chunks, k, "");
    }
  }

  lemma {:induction false} FirstEmpty(chunks: seq<seq<string>>) returns (k: nat)
    requires exists i :: 0 <= i < |chunks| && |Flatten(chunks[i])| == 0
    ensures k < |chunks| && |Flatten(chunks[k])| == 0
    ensures forall i :: 0 <= i < k ==> |Flatten(chunks[i])| > 0
  {
    k := 0;
    while |Flatten(chunks[k])| > 0
      invariant k < |chunks| && forall i :: 0 <= i < k ==> |Flatten(chunks[i])| > 0
      decreases |chunks| - k
    {
      k := k + 1;
    }
  }

  /** The same with the last chunk marked instead of a final chunk appended. */
  lemma RoundTripFin(chunks: seq<seq<string>>, last: seq<string>)
    ensures Decode(Stream(chunks) + Flatten(Encoded(true, last))) == Decoded(Payload(chunks + [last]), "")
       <==> forall i :: 0 <= i < |chunks + [last]| ==> |Flatten((chunks + [last])[i])| > 0
  {
    hide *;
    FinIsFinal(last);
    StreamSnoc(chunks, last);
    assert Stream(chunks) + (Flatten(Encoded(false, last)) + FINAL) == Stream(chunks + [last]) + FINAL;
    RoundTrip(chunks + [last]);
  }

  lemma StreamCons(chunk: seq<string>, chunks: seq<seq<string>>)
    ensures Stream([]) == "" && Stream([chunk] + chunks) == Flatten(Encoded(false, chunk)) + Stream(chunks)
  {
    assert ([chunk] + chunks)[1..] == chunks;
  }

  lemma {:induction false} StreamSnoc(chunks: seq<seq<string>>, last: seq<string>)
    ensures Stream(chunks + [last]) == Stream(chunks) + Flatten(Encoded(false, last))
  {
    hide *;
    StreamCons(last, []);
    if |chunks| == 0 {
      assert chunks == [] && [] + [last] == [last] == [last] + [];
      assert Flatten(Encoded(false, last)) + "" == "" + Flatten(Encoded(false, last));
    } else {
      var head, tail := chunks[0], chunks[1..];
      StreamSnoc(tail, last);
      StreamCons(head, tail);
      StreamCons(head, tail + [last]);
      assert chunks == [head] + tail && chunks + [last] == [head] + (tail + [last]);
      assert Flatten(Encoded(false, head)) + (Stream(tail) + Flatten(Encoded(false, last))) ==
             (Flatten(Encoded(false, head)) + Stream(tail)) + Flatten(Encoded(false, last));
    }
  }
}
