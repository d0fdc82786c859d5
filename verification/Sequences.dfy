/** Concatenation of lists of sequences, used by every component that works on
    a message cut into pieces. */
module Sequences {
  function Min(a: nat, b: nat): (m: nat)
    ensures m <= a && m <= b && (m == a || m == b)
  {
    if a <= b then a else b
  }

  lemma SliceOfSlice<T>(s: seq<T>, p: nat, q: nat, a: nat, b: nat)
    requires p <= q <= |s| && a <= b <= q - p
    ensures s[p..q][a..b] == s[p + a..p + b]
  {
    var part := s[p..q];
    var v, w := part[a..b], s[p + a..p + b];
    forall k | 0 <= k < b - a
      ensures v[k] == w[k]
    {
      assert v[k] == part[a + k] == s[p + (a + k)];
      assert w[k] == s[(p + a) + k];
    }
    assert v == w;
  }

  function Flatten<T>(ss: seq<seq<T>>): seq<T> {
    if |ss| == 0 then [] else Flatten(ss[..|ss| - 1]) + ss[|ss| - 1]
  }

  lemma FlattenNone<T>(ss: seq<seq<T>>)
    ensures Flatten(ss[..0]) == []
  {
  }

  lemma FlattenSnoc<T>(ss: seq<seq<T>>, s: seq<T>)
    ensures Flatten(ss + [s]) == Flatten(ss) + s
  {
    assert (ss + [s])[..|ss + [s]| - 1] == ss;
  }

  lemma FlattenTake<T>(ss: seq<seq<T>>, i: nat)
    requires i < |ss|
    ensures Flatten(ss[..i + 1]) == Flatten(ss[..i]) + ss[i]
  {
    assert ss[..i + 1][..i] == ss[..i];
  }

  lemma {:induction false} FlattenAppend<T>(a: seq<seq<T>>, b: seq<seq<T>>)
    ensures Flatten(a + b) == Flatten(a) + Flatten(b)
  {
    if |b| == 0 {
      assert a + b == a;
    } else {
      FlattenAppend(a, b[..|b| - 1]);
      assert (a + b)[..|a + b| - 1] == a + b[..|b| - 1];
    }
  }

  lemma FlattenCons<T>(s: seq<T>, ss: seq<seq<T>>)
    ensures Flatten([s] + ss) == s + Flatten(ss)
  {
    FlattenAppend([s], ss);
    assert Flatten([s]) == s by {
      assert [s][..0] == [];
    }
  }

  lemma FlattenSplit<T>(ss: seq<seq<T>>, i: nat)
    requires i <= |ss|
    ensures Flatten(ss) == Flatten(ss[..i]) + Flatten(ss[i..])
  {
    FlattenAppend(ss[..i], ss[i..]);
    assert ss[..i] + ss[i..] == ss;
  }

  /** Where a byte of a piece is in the whole. */
  lemma FlattenAt<T>(ss: seq<seq<T>>, i: nat, k: nat)
    requires i < |ss| && k < |ss[i]|
    ensures |Flatten(ss[..i])| + k < |Flatten(ss)| && Flatten(ss)[|Flatten(ss[..i])| + k] == ss[i][k]
  {
    hide Flatten;
    FlattenSplit(ss, i + 1);
    FlattenTake(ss, i);
  }
}
