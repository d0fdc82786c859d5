/** Decimal conversion: max_digits of include/beast/core/detail/static_string.hpp
    and to_static_string of include/beast/core/impl/static_string.ipp. */
module Decimal {
  import opened Power

  // ---- the specification: decimal numerals ----

  function Digit(d: nat): char
    requires d < 10
  {
    "0123456789"[d]
  }

  /** The numeral of n, without leading zeros. */
  function Numeral(n: nat): (s: string)
    ensures |s| > 0
  {
    if n < 10 then [Digit(n)] else Numeral(n / 10) + [Digit(n % 10)]
  }

  function SignedNumeral(x: int): string {
    if x < 0 then "-" + Numeral(-x) else Numeral(x)
  }

  /** How long a numeral is, in terms of powers of ten. */
  lemma {:induction false} NumeralLength(n: nat, k: nat)
    requires k > 0
    ensures |Numeral(n)| <= k <==> n < Pow(10, k)
  {
    if n >= 10 {
      if k == 1 {
        assert Pow(10, 1) == 10;
      } else {
        NumeralLength(n / 10, k - 1);
        assert n / 10 < Pow(10, k - 1) <==> n < 10 * Pow(10, k - 1);
      }
    } else {
      PowExponentMonotone(10, 1, k);
      assert Pow(10, 1) == 10;
    }
  }

  // ---- max_digits ----

  /** bytes * 2.41, cut off, plus one. */
  function MaxDigits(bytes: nat): (r: nat)
    ensures r > 0
  {
    bytes * 241 / 100 + 1
  }

  /** One more than the whole part of 2.41 times the width. */
  lemma MaxDigitsIs(bytes: nat)
    ensures 100 * (MaxDigits(bytes) - 1) <= 241 * bytes < 100 * MaxDigits(bytes)
  {
  }

  /** 256^100 <= 10^241. */
  lemma HundredBytes()
    ensures Pow(256, 100) <= Pow(10, 241)
  {
    hide Pow;
    FiveBytes();
    PowPow(256, 5, 20);
    PowBaseMonotone(Pow(256, 5), 11 * Pow(10, 11), 20);
    PowProduct(11, Pow(10, 11), 20);
    PowPow(10, 11, 20);
    ElevenToTheTwentieth();
    ProductMonotone(Pow(11, 20), Pow(10, 21), Pow(10, 220), Pow(10, 220));
    PowAdd(10, 21, 220);
  }

  lemma FiveBytes()
    ensures Pow(256, 5) <= 11 * Pow(10, 11)
  {
    PowAdd(256, 3, 2);
    assert Pow(256, 2) == 65536 && Pow(256, 3) == 16777216;
    PowAdd(10, 6, 5);
    PowAdd(10, 3, 3);
    PowAdd(10, 3, 2);
    assert Pow(10, 3) == 1000 && Pow(10, 2) == 100;
  }

  lemma ElevenToTheTwentieth()
    ensures Pow(11, 20) <= Pow(10, 21)
  {
    assert Pow(11, 2) == 121 && Pow(11, 3) == 1331;
    PowAdd(11, 2, 3);
    PowAdd(11, 5, 5);
    PowAdd(11, 10, 10);
    assert Pow(10, 3) == 1000;
    PowAdd(10, 3, 3);
    PowAdd(10, 6, 6);
    PowAdd(10, 12, 6);
    PowAdd(10, 18, 3);
  }

  /** Every magnitude of the given width fits in max_digits characters. */
  lemma MaxDigitsSuffice(bytes: nat, n: nat)
    requires n < Pow(256, bytes)
    ensures |Numeral(n)| <= MaxDigits(bytes)
  {
    var k := MaxDigits(bytes);
    // (256^bytes)^100 = (256^100)^bytes <= (10^241)^bytes <= (10^k)^100
    PowPow(256, bytes, 100);
    PowPow(256, 100, bytes);
    HundredBytes();
    PowBaseMonotone(Pow(256, 100), Pow(10, 241), bytes);
    PowPow(10, 241, bytes);
    assert 241 * bytes <= k * 100;
    PowExponentMonotone(10, 241 * bytes, k * 100);
    PowPow(10, k, 100);
    assert bytes * 100 == 100 * bytes;
    if Pow(10, k) < Pow(256, bytes) {
      PowBaseStrict(Pow(10, k), Pow(256, bytes), 100);
      assert false;
    }
    NumeralLength(n, k);
  }

  // ---- to_static_string ----

  /** A static_string, or the length_error of assigning to one. */
  datatype Converted = Text(s: string) | LengthError

  function Reverse(s: string): (r: string)
    ensures |r| == |s|
  {
    if |s| == 0 then "" else Reverse(s[1..]) + [s[0]]
  }

  lemma {:induction false} ReverseSnoc(s: string, c: char)
    ensures Reverse(s + [c]) == [c] + Reverse(s)
  {
    if |s| == 0 {
      assert (s + [c])[1..] == "" && [c] + "" == [c];
    } else {
      ReverseSnoc(s[1..], c);
      assert (s + [c])[1..] == s[1..] + [c];
    }
  }

  lemma {:induction false} ReverseAt(s: string, k: nat)
    requires k < |s|
    ensures Reverse(s)[k] == s[|s| - 1 - k]
  {
    if k < |s| - 1 {
      ReverseAt(s[1..], k);
    }
  }

  /** The digits still to be written: none once x is 0. */
  function Pending(x: nat): string { if x == 0 then "" else Numeral(x) }

  /** The digit loop: lowest digit first, within a buffer of max_digits. */
  method StoreDigits(buf: array<char>, x0: nat) returns (p: nat)
    requires x0 > 0 && |Numeral(x0)| <= buf.Length
    modifies buf
    ensures p <= buf.Length && Reverse(buf[..p]) == Numeral(x0)
  {
    hide Numeral, Pending, Digit;
    p := 0;
    var x := x0;
    PendingStart(x0);
    while x > 0
      invariant 0 <= x && p <= buf.Length
      invariant |Pending(x)| + p == |Numeral(x0)|
      invariant Pending(x) + Reverse(buf[..p]) == Numeral(x0)
    {
      PendingStep(x);
      ghost var before := buf[..p];
      buf[p] := Digit(x % 10);
      p := p + 1;
      assert buf[..p] == before + [Digit(x % 10)];
      ReverseSnoc(before, Digit(x % 10));
      assert Pending(x / 10) + ([Digit(x % 10)] + Reverse(before)) == Pending(x) + Reverse(before);
      x := x / 10;
    }
    PendingStart(x0);
  }

  lemma PendingStart(x: nat)
    ensures Pending(0) == ""
    ensures x > 0 ==> Pending(x) == Numeral(x)
  {
  }

  lemma PendingStep(x: nat)
    requires x > 0
    ensures Pending(x) == Pending(x / 10) + [Digit(x % 10)]
  {
    hide Digit;
  }

  /** The copying loop: the stored digits in reading order. */
  method CopyBack(buf: array<char>, p0: nat) returns (s: string)
    requires p0 <= buf.Length
    ensures s == Reverse(buf[..p0])
  {
    var p := p0;
    s := "";
    while p > 0
      invariant 0 <= p <= p0
      invariant |s| == p0 - p && forall k :: 0 <= k < |s| ==> s[k] == buf[p0 - 1 - k]
    {
      p := p - 1;
      s := s + [buf[p]];
    }
    forall k | 0 <= k < p0
      ensures s[k] == Reverse(buf[..p0])[k]
    {
      ReverseAt(buf[..p0], k);
    }
  }

  /** The unsigned conversion always gives the numeral. */
  method ToStaticStringUnsigned(x: nat, bytes: nat) returns (r: Converted)
    requires x < Pow(256, bytes)
    ensures r == Text(Numeral(x))
  {
    if x == 0 {
      return Text("0");
    }
    MaxDigitsSuffice(bytes, x);
    var buf := new char[MaxDigits(bytes)](_ => '0');
    var p := StoreDigits(buf, x);
    var s := CopyBack(buf, p);
    r := Text(s);
  }

  /** Half the number of values of a width: the first magnitude out of range. */
  function Half(bytes: nat): (h: int)
    ensures h >= 0
  {
    Pow(256, bytes) / 2
  }

  /** Negation in two's complement: the smallest value is its own negative. */
  function Negated(x: int, bytes: nat): int {
    if x == -Half(bytes) then x else -x
  }

  /** The outcome of the signed conversion. */
  function SignedResult(x: int, bytes: nat): Converted {
    if x == -Half(bytes) then Text("-")
    else if |SignedNumeral(x)| <= MaxDigits(bytes) then Text(SignedNumeral(x))
    else LengthError
  }

  /** The signed conversion: the text is built with room for a sign and then
      assigned to a string of max_digits characters. */
  method ToStaticStringSigned(x0: int, bytes: nat) returns (r: Converted)
    requires bytes > 0 && -Half(bytes) <= x0 < Half(bytes)
    ensures r == SignedResult(x0, bytes)
    ensures r == Text(SignedNumeral(x0)) <==> x0 != -Half(bytes) && (x0 >= 0 || -x0 < Pow(10, MaxDigits(bytes) - 1))
  {
    HalfIsPositive(bytes);
    SignedIsRightExactly(x0, bytes);
    if x0 == 0 {
      return Text("0");
    }
    var s: string;
    var x := x0;
    var buf := new char[MaxDigits(bytes)](_ => '0');
    if x < 0 {
      x := Negated(x, bytes);
      var p := 0;
      if x > 0 {
        MaxDigitsSuffice(bytes, x);
        p := StoreDigits(buf, x);
      }
      var digits := CopyBack(buf, p);
      s := "-" + digits;
    } else {
      MaxDigitsSuffice(bytes, x);
      var p := StoreDigits(buf, x);
      s := CopyBack(buf, p);
    }
    if |s| > MaxDigits(bytes) {
      return LengthError;
    }
    r := Text(s);
  }

  lemma HalfIsPositive(bytes: nat)
    requires bytes > 0
    ensures 0 < Half(bytes) < Pow(256, bytes) == 2 * Half(bytes)
  {
    assert Pow(256, bytes) == 256 * Pow(256, bytes - 1);
  }

  /** Exactly which values of a signed type get their numeral: not the smallest,
      and a negative one only when its magnitude leaves room for the sign. */
  lemma SignedIsRightExactly(x: int, bytes: nat)
    requires bytes > 0 && -Half(bytes) <= x < Half(bytes)
    ensures SignedResult(x, bytes) == Text(SignedNumeral(x)) <==>
            x != -Half(bytes) && (x >= 0 || -x < Pow(10, MaxDigits(bytes) - 1))
  {
    hide Pow, Numeral, Half;
    HalfIsPositive(bytes);
    var k := MaxDigits(bytes);
    assert k > 1;
    if x >= 0 {
      MaxDigitsSuffice(bytes, x);
    } else {
      NumeralLength(-x, k - 1);
    }
    assert |SignedNumeral(-Half(bytes))| > 1;
  }

  /** In one byte -99 is the last value that fits with its sign. */
  lemma OneByte()
    ensures SignedResult(-99, 1) == Text("-99") && SignedResult(-100, 1) == LengthError
    ensures SignedResult(-128, 1) == Text("-")
  {
    assert Half(1) == 128 && MaxDigits(1) == 3;
    assert Numeral(99) == Numeral(9) + "9" && Numeral(9) == "9";
    assert Numeral(100) == Numeral(10) + "0" && Numeral(10) == Numeral(1) + "0";
  }

  /** All 8-byte values but the smallest fit; in narrower types the magnitudes
      from 100, 10000 and 1000000000 on do not fit with a sign. */
  lemma SignedWidths()
    ensures Half(8) <= Pow(10, MaxDigits(8) - 1)
    ensures Pow(10, MaxDigits(1) - 1) == 100 < Half(1)
    ensures Pow(10, MaxDigits(2) - 1) == 10000 < Half(2)
    ensures Pow(10, MaxDigits(4) - 1) == 1000000000 < Half(4)
  {
    hide Pow;
    assert MaxDigits(1) == 3 && MaxDigits(2) == 5 && MaxDigits(4) == 10 && MaxDigits(8) == 20;
    PowersOfTen();
    PowersOf256();
  }

  lemma PowersOfTen()
    ensures Pow(10, 2) == 100 && Pow(10, 4) == 10000 && Pow(10, 9) == 1000000000
    ensures Pow(10, 19) == 10000000000000000000
  {
    assert Pow(10, 1) == 10 && Pow(10, 2) == 100;
    PowAdd(10, 2, 2);
    PowAdd(10, 4, 4);
    PowAdd(10, 8, 1);
    PowAdd(10, 9, 9);
    PowAdd(10, 18, 1);
  }

  lemma PowersOf256()
    ensures Pow(256, 1) == 256 && Pow(256, 2) == 65536 && Pow(256, 4) == 4294967296
    ensures Pow(256, 8) == TWO_64
  {
    assert Pow(256, 1) == 256 && Pow(256, 2) == 65536;
    PowAdd(256, 2, 2);
    PowAdd(256, 4, 4);
  }

  // ---- a numeral means its number ----

  function ValueOf(s: string): int
    requires forall k :: 0 <= k < |s| ==> '0' <= s[k] <= '9'
  {
    if |s| == 0 then 0 else 10 * ValueOf(s[..|s| - 1]) + (s[|s| - 1] as int - '0' as int)
  }

  lemma DigitMeans(d: nat)
    requires d < 10
    ensures '0' <= Digit(d) <= '9' && Digit(d) as int - '0' as int == d
    ensures d > 0 ==> Digit(d) != '0'
  {
  }

  lemma {:induction false} NumeralMeans(n: nat)
    ensures forall k :: 0 <= k < |Numeral(n)| ==> '0' <= Numeral(n)[k] <= '9'
    ensures ValueOf(Numeral(n)) == n
    ensures n > 0 ==> Numeral(n)[0] != '0'
  {
    hide Digit;
    DigitMeans(n % 10);
    if n < 10 {
      assert Numeral(n)[..0] == "";
    } else {
      NumeralMeans(n / 10);
      assert Numeral(n)[..|Numeral(n)| - 1] == Numeral(n / 10);
    }
  }
}
