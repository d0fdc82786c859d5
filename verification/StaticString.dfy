/** Comparison of static_strings, include/beast/core/detail/static_string.hpp
    and include/beast/core/static_string.hpp. */
module StaticString {
  import opened Lexicographic

  /** char_traits::compare on the first n characters: the sign of the first
      difference. */
  function Compare(s1: seq<int>, s2: seq<int>, n: nat): int
    requires n <= |s1| && n <= |s2|
    decreases n
  {
    if n == 0 then 0
    else if s1[0] < s2[0] then -1
    else if s1[0] > s2[0] then 1
    else Compare(s1[1..], s2[1..], n - 1)
  }

  function LexicographicalCompare(s1: seq<int>, s2: seq<int>): int {
    var n1, n2 := |s1|, |s2|;
    if n1 < n2 then (if Compare(s1, s2, n1) <= 0 then -1 else 1)
    else if n1 > n2 then (if Compare(s1, s2, n2) >= 0 then 1 else -1)
    else Compare(s1, s2, n1)
  }

  lemma {:induction false} CompareIsOrder(s1: seq<int>, s2: seq<int>, n: nat)
    requires n <= |s1| && n <= |s2|
    ensures Compare(s1, s2, n) == 0 <==> s1[..n] == s2[..n]
    ensures Compare(s1, s2, n) < 0 ==> Before(s1, s2)
    ensures Compare(s1, s2, n) > 0 ==> Before(s2, s1)
    decreases n
  {
    if n > 0 {
      if s1[0] == s2[0] {
        CompareIsOrder(s1[1..], s2[1..], n - 1);
        BeforeCons(s1, s2);
        BeforeCons(s2, s1);
        assert s1[..n] == [s1[0]] + s1[1..][..n - 1] && s2[..n] == [s2[0]] + s2[1..][..n - 1];
      } else {
        assert s1[..n][0] != s2[..n][0];
        assert BeforeAt(s1, s2, 0) || BeforeAt(s2, s1, 0);
      }
    }
  }

  /** The length-dispatched comparison is lexicographic order. */
  lemma CompareIsLexicographic(s1: seq<int>, s2: seq<int>)
    ensures LexicographicalCompare(s1, s2) < 0 <==> Before(s1, s2)
    ensures LexicographicalCompare(s1, s2) > 0 <==> Before(s2, s1)
    ensures LexicographicalCompare(s1, s2) == 0 <==> s1 == s2
  {
    var n := if |s1| < |s2| then |s1| else |s2|;
    CompareIsOrder(s1, s2, n);
    if Compare(s1, s2, n) == 0 {
      if |s1| < |s2| {
        assert BeforeAt(s1, s2, n);
      } else if |s1| > |s2| {
        assert BeforeAt(s2, s1, n);
      } else {
        assert s1[..n] == s1 && s2[..n] == s2;
      }
    }
    if Before(s1, s2) { BeforeIsAsymmetric(s1, s2); }
    if Before(s2, s1) { BeforeIsAsymmetric(s2, s1); }
  }

  /** A static_string<N>: N is part of the type, so two compared strings may
      differ in it. */
  datatype StaticString = StaticString(capacity: nat, chars: seq<int>) {
    function CompareTo(str: StaticString): int { LexicographicalCompare(chars, str.chars) }

    predicate Eq(rhs: StaticString) { CompareTo(rhs) == 0 }
    predicate Ne(rhs: StaticString) { CompareTo(rhs) != 0 }
    predicate Lt(rhs: StaticString) { CompareTo(rhs) < 0 }
    predicate Le(rhs: StaticString) { CompareTo(rhs) <= 0 }
    predicate Gt(rhs: StaticString) { CompareTo(rhs) > 0 }
    predicate Ge(rhs: StaticString) { CompareTo(rhs) >= 0 }
  }

  /** The six operators are the lexicographic order of the characters, whatever the
      capacities. */
  lemma OperatorsAgree(a: StaticString, b: StaticString)
    ensures a.CompareTo(b) < 0 <==> Before(a.chars, b.chars)
    ensures a.CompareTo(b) > 0 <==> Before(b.chars, a.chars)
    ensures a.Lt(b) <==> Before(a.chars, b.chars)
    ensures a.Gt(b) <==> Before(b.chars, a.chars)
    ensures a.Le(b) <==> !Before(b.chars, a.chars)
    ensures a.Ge(b) <==> !Before(a.chars, b.chars)
    ensures a.Eq(b) <==> a.chars == b.chars
    ensures a.Ne(b) <==> !a.Eq(b)
    ensures a.Lt(b) <==> b.Gt(a)
    ensures a.Le(b) <==> b.Ge(a)
    ensures a.Le(b) <==> a.Lt(b) || a.Eq(b)
    ensures a.Lt(b) <==> !a.Ge(b)
    ensures a.Le(b) || b.Le(a)
    ensures a.Le(b) && b.Le(a) ==> a.Eq(b)
  {
    CompareIsLexicographic(a.chars, b.chars);
    CompareIsLexicographic(b.chars, a.chars);
  }

  lemma OperatorsAreTransitive(a: StaticString, b: StaticString, c: StaticString)
    ensures a.Lt(b) && b.Lt(c) ==> a.Lt(c)
    ensures a.Le(b) && b.Le(c) ==> a.Le(c)
    ensures a.Eq(b) && b.Eq(c) ==> a.Eq(c)
  {
    CompareIsLexicographic(a.chars, b.chars);
    CompareIsLexicographic(b.chars, c.chars);
    CompareIsLexicographic(a.chars, c.chars);
    if Before(a.chars, b.chars) && Before(b.chars, c.chars) {
      BeforeIsTransitive(a.chars, b.chars, c.chars);
    }
  }
}
