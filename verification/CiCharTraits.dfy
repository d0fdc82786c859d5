/** Case-insensitive order and equality,
    include/beast/core/detail/ci_char_traits.hpp. */
module CiCharTraits {
  import opened Lexicographic

  /** An unsigned char value. */
  type Code = c: int | 0 <= c < 256

  /** The table: 65..90 go to 97..122, every other entry is its own index. */
  function Tolower(c: Code): Code {
    if 65 <= c <= 90 then c + 32 else c
  }

  /** The value of a char that is compared with <: char may be signed or not. */
  function CharValue(signed: bool, c: Code): int {
    if signed && c >= 128 then c - 256 else c
  }

  function Key(signed: bool, c: Code): int { CharValue(signed, Tolower(c)) }

  function Keys(signed: bool, s: seq<Code>): (r: seq<int>)
    ensures |r| == |s|
  {
    seq(|s|, i requires 0 <= i < |s| => Key(signed, s[i]))
  }

  /** ci_less: std::lexicographical_compare with the comparison of lower-case
      characters. */
  predicate CiLess(signed: bool, lhs: seq<Code>, rhs: seq<Code>) {
    if |rhs| == 0 then false
    else if |lhs| == 0 then true
    else if Key(signed, lhs[0]) < Key(signed, rhs[0]) then true
    else if Key(signed, rhs[0]) < Key(signed, lhs[0]) then false
    else CiLess(signed, lhs[1..], rhs[1..])
  }

  /** ci_equal: boost::range::equal with ci_equal_pred. */
  predicate CiEqual(lhs: seq<Code>, rhs: seq<Code>) {
    if |lhs| == 0 || |rhs| == 0 then |lhs| == |rhs|
    else Tolower(lhs[0]) == Tolower(rhs[0]) && CiEqual(lhs[1..], rhs[1..])
  }

  lemma {:induction false} CiLessIsBefore(signed: bool, lhs: seq<Code>, rhs: seq<Code>)
    ensures CiLess(signed, lhs, rhs) <==> Before(Keys(signed, lhs), Keys(signed, rhs))
  {
    var a, b := Keys(signed, lhs), Keys(signed, rhs);
    if |lhs| == 0 || |rhs| == 0 || a[0] != b[0] {
      if CiLess(signed, lhs, rhs) {
        assert BeforeAt(a, b, 0);
      } else if |rhs| > 0 {
        assert BeforeAt(b, a, 0);
        BeforeIsAsymmetric(b, a);
      }
    } else {
      CiLessIsBefore(signed, lhs[1..], rhs[1..]);
      assert a[1..] == Keys(signed, lhs[1..]) && b[1..] == Keys(signed, rhs[1..]);
      BeforeCons(a, b);
    }
  }

  lemma {:induction false} CiEqualIsSameKeys(signed: bool, lhs: seq<Code>, rhs: seq<Code>)
    ensures CiEqual(lhs, rhs) <==> Keys(signed, lhs) == Keys(signed, rhs)
  {
    if |lhs| > 0 && |rhs| > 0 {
      var a, b := Keys(signed, lhs), Keys(signed, rhs);
      CiEqualIsSameKeys(signed, lhs[1..], rhs[1..]);
      assert a == [Key(signed, lhs[0])] + Keys(signed, lhs[1..]);
      assert b == [Key(signed, rhs[0])] + Keys(signed, rhs[1..]);
      assert a[1..] == Keys(signed, lhs[1..]) && b[1..] == Keys(signed, rhs[1..]);
    } else {
      assert |Keys(signed, lhs)| == |lhs| && |Keys(signed, rhs)| == |rhs|;
    }
  }

  /** A strict weak order whose ties are exactly the equal strings. */
  lemma CiLessIsStrictWeakOrder(signed: bool, a: seq<Code>, b: seq<Code>, c: seq<Code>)
    ensures !CiLess(signed, a, a)
    ensures CiLess(signed, a, b) && CiLess(signed, b, c) ==> CiLess(signed, a, c)
    ensures !CiLess(signed, a, b) && !CiLess(signed, b, a) <==> CiEqual(a, b)
    ensures CiEqual(a, b) && CiEqual(b, c) ==> CiEqual(a, c)
    ensures CiEqual(a, b) ==> |a| == |b|
  {
    CiLessIsBefore(signed, a, a);
    CiLessIsBefore(signed, a, b);
    CiLessIsBefore(signed, b, a);
    CiLessIsBefore(signed, b, c);
    CiLessIsBefore(signed, a, c);
    CiEqualIsSameKeys(signed, a, b);
    CiEqualIsSameKeys(signed, b, c);
    CiEqualIsSameKeys(signed, a, c);
    var x, y, z := Keys(signed, a), Keys(signed, b), Keys(signed, c);
    if Before(x, x) { BeforeIsAsymmetric(x, x); }
    if Before(x, y) { BeforeIsAsymmetric(x, y); }
    if Before(y, x) { BeforeIsAsymmetric(y, x); }
    BeforeIsTotal(x, y);
    if Before(x, y) && Before(y, z) { BeforeIsTransitive(x, y, z); }
  }

  /** The same character, or the same ASCII letter in the other case. */
  predicate SameButCase(c: Code, d: Code) {
    c == d || (65 <= c <= 90 && d == c + 32) || (65 <= d <= 90 && c == d + 32)
  }

  /** Tolower changes nothing but case, and leaves no capital letter. */
  lemma TolowerIsLowerCase(c: Code)
    ensures SameButCase(c, Tolower(c)) && !(65 <= Tolower(c) <= 90)
  {
  }

  /** A signed char has the value modulo 256 that lies in -128..127. */
  lemma CharValueIs(c: Code)
    ensures CharValue(false, c) == c
    ensures -128 <= CharValue(true, c) < 128 && (c - CharValue(true, c)) % 256 == 0
  {
  }

  ghost predicate IsCaseChange(s: seq<Code>, t: seq<Code>) {
    |s| == |t| && forall i :: 0 <= i < |s| ==> SameButCase(s[i], t[i])
  }

  /** ci_equal holds exactly between strings that differ by case changes. */
  lemma {:induction false} CiEqualIsCaseChange(s: seq<Code>, t: seq<Code>)
    ensures CiEqual(s, t) <==> IsCaseChange(s, t)
  {
    if |s| > 0 && |t| > 0 {
      CiEqualIsCaseChange(s[1..], t[1..]);
      assert SameButCase(s[0], t[0]) <==> Tolower(s[0]) == Tolower(t[0]);
      if IsCaseChange(s[1..], t[1..]) && SameButCase(s[0], t[0]) {
        forall i | 0 <= i < |s|
          ensures SameButCase(s[i], t[i])
        {
          if i > 0 { assert SameButCase(s[1..][i - 1], t[1..][i - 1]); }
        }
      }
      if IsCaseChange(s, t) {
        forall i | 0 <= i < |s| - 1
          ensures SameButCase(s[1..][i], t[1..][i])
        {
          assert SameButCase(s[i + 1], t[i + 1]);
        }
      }
    }
  }

  /** Neither answer changes when either argument changes case. */
  lemma CaseIsIgnored(signed: bool, s: seq<Code>, s': seq<Code>, t: seq<Code>, t': seq<Code>)
    requires IsCaseChange(s, s') && IsCaseChange(t, t')
    ensures CiLess(signed, s, t) <==> CiLess(signed, s', t')
    ensures CiEqual(s, t) <==> CiEqual(s', t')
  {
    CiEqualIsCaseChange(s, s');
    CiEqualIsCaseChange(t, t');
    CiEqualIsSameKeys(signed, s, s');
    CiEqualIsSameKeys(signed, t, t');
    CiEqualIsSameKeys(signed, s, t);
    CiEqualIsSameKeys(signed, s', t');
    CiLessIsBefore(signed, s, t);
    CiLessIsBefore(signed, s', t');
  }

  ghost predicate IsLowerCase(s: seq<Code>) {
    forall i :: 0 <= i < |s| ==> !(65 <= s[i] <= 90)
  }

  /** The values that the characters of a string are compared by. */
  function Values(signed: bool, s: seq<Code>): seq<int> {
    seq(|s|, i requires 0 <= i < |s| => CharValue(signed, s[i]))
  }

  /** ci_less compares strings as the strings that have every capital letter in
      lower case: in the order of the table, '_' comes before every letter. */
  lemma CiLessIsLowerCaseOrder(signed: bool, s: seq<Code>, s': seq<Code>, t: seq<Code>, t': seq<Code>)
    requires IsCaseChange(s, s') && IsCaseChange(t, t') && IsLowerCase(s') && IsLowerCase(t')
    ensures CiLess(signed, s, t) <==> Before(Values(signed, s'), Values(signed, t'))
  {
    CaseIsIgnored(signed, s, s', t, t');
    CiLessIsBefore(signed, s', t');
    assert Keys(signed, s') == Values(signed, s') && Keys(signed, t') == Values(signed, t');
  }
}
