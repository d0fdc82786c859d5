/** Lexicographic order on strings of character codes. */
module Lexicographic {
  /** a comes before b: they agree on the first k codes, and then a ends or has
      the smaller code. */
  ghost predicate Before(a: seq<int>, b: seq<int>) {
    exists k :: BeforeAt(a, b, k)
  }

  predicate BeforeAt(a: seq<int>, b: seq<int>, k: nat) {
    && k <= |a| && k < |b|
    && a[..k] == b[..k]
    && (k == |a| || a[k] < b[k])
  }

  lemma BeforeIsTransitive(a: seq<int>, b: seq<int>, c: seq<int>)
    requires Before(a, b) && Before(b, c)
    ensures Before(a, c)
  {
    var i: nat :| BeforeAt(a, b, i);
    var j: nat :| BeforeAt(b, c, j);
    var k := if i < j then i else j;
    assert a[..k] == a[..i][..k] == b[..k] == b[..j][..k] == c[..k];
    assert i < j ==> b[i] == b[..j][i] == c[..j][i] == c[i];
    assert j < i ==> a[j] == a[..i][j] == b[..i][j] == b[j];
    assert BeforeAt(a, c, k);
  }

  lemma BeforeIsAsymmetric(a: seq<int>, b: seq<int>)
    requires Before(a, b)
    ensures !Before(b, a) && a != b
  {
    var i: nat :| BeforeAt(a, b, i);
    forall j: nat
      ensures !BeforeAt(b, a, j)
    {
      assert i < j <= |a| ==> a[..j][i] == a[i];
      assert j < i ==> b[..i][j] == b[j];
    }
  }

  lemma {:induction false} BeforeIsTotal(a: seq<int>, b: seq<int>)
    ensures a == b || Before(a, b) || Before(b, a)
  {
    if |a| == 0 || |b| == 0 || a[0] != b[0] {
      assert a == b || BeforeAt(a, b, 0) || BeforeAt(b, a, 0);
    } else {
      BeforeIsTotal(a[1..], b[1..]);
      BeforeCons(a, b);
      BeforeCons(b, a);
      assert a == [a[0]] + a[1..] && b == [b[0]] + b[1..];
    }
  }

  lemma BeforeCons(a: seq<int>, b: seq<int>)
    requires |a| > 0 && |b| > 0 && a[0] == b[0]
    ensures Before(a, b) <==> Before(a[1..], b[1..])
  {
    if Before(a, b) {
      var k: nat :| BeforeAt(a, b, k);
      assert a[1..][..k - 1] == a[..k][1..] == b[..k][1..] == b[1..][..k - 1];
      assert BeforeAt(a[1..], b[1..], k - 1);
    }
    if Before(a[1..], b[1..]) {
      var k: nat :| BeforeAt(a[1..], b[1..], k);
      assert a[..k + 1] == [a[0]] + a[1..][..k] == b[..k + 1];
      assert BeforeAt(a, b, k + 1);
    }
  }
}
