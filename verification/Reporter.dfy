/** The counters of extras/beast/unit_test/reporter.hpp and its list of the
    longest suites. */
module Reporter {
  /** Nanoseconds. */
  const SECOND: int := 1_000_000_000
  const MAX_TOP: nat := 10

  datatype RunTime = RunTime(name: string, elapsed: int)

  class CaseResults {
    const name: string
    var total: nat
    var failed: nat

    constructor (name: string)
      ensures this.name == name && total == 0 && failed == 0
    {
      this.name := name;
      total, failed := 0, 0;
    }
  }

  class SuiteResults {
    const name: string
    var cases: nat
    var total: nat
    var failed: nat

    constructor (name: string)
      ensures this.name == name && cases == 0 && total == 0 && failed == 0
    {
      this.name := name;
      cases, total, failed := 0, 0, 0;
    }

    method Add(r: CaseResults)
      modifies this
      ensures cases == old(cases) + 1
      ensures total == old(total) + r.total && failed == old(failed) + r.failed
    {
      cases := cases + 1;
      total := total + r.total;
      failed := failed + r.failed;
    }
  }

  // ---- the list of the longest suites: sort everything, take ten ----

  /** Longest first. */
  ghost predicate IsSorted(l: seq<RunTime>) {
    forall i, j :: 0 <= i < j < |l| ==> l[i].elapsed >= l[j].elapsed
  }

  /** x in its place in a list with the longest first; before its equals. */
  function Insert(l: seq<RunTime>, x: RunTime): (r: seq<RunTime>)
    ensures |r| == |l| + 1
  {
    if |l| == 0 || l[0].elapsed <= x.elapsed then [x] + l
    else [l[0]] + Insert(l[1..], x)
  }

  /** A history sorted by insertion, so that of two suites that took equally
      long the later one comes first. */
  function Sorted(history: seq<RunTime>): (r: seq<RunTime>)
    ensures |r| == |history|
  {
    if |history| == 0 then []
    else Insert(Sorted(history[..|history| - 1]), history[|history| - 1])
  }

  function Longest(l: seq<RunTime>): (r: seq<RunTime>) {
    if |l| <= MAX_TOP then l else l[..MAX_TOP]
  }

  /** Insertion unfolded once. */
  lemma InsertHead(l: seq<RunTime>, x: RunTime)
    ensures |l| == 0 || l[0].elapsed <= x.elapsed ==> Insert(l, x) == [x] + l
    ensures |l| > 0 && l[0].elapsed > x.elapsed ==> Insert(l, x) == [l[0]] + Insert(l[1..], x)
  {
  }

  lemma HeadAndTail<T>(l: seq<T>, x: T, i: nat)
    requires 0 < i <= |l|
    ensures l == [l[0]] + l[1..]
    ensures [l[0]] + (l[1..][..i - 1] + [x] + l[1..][i - 1..]) == l[..i] + [x] + l[i..]
  {
    assert l[..i] == [l[0]] + l[1..][..i - 1];
    assert l[1..][i - 1..] == l[i..];
  }

  /** Where a binary search for x.elapsed ends up. */
  lemma {:induction false} InsertAt(l: seq<RunTime>, x: RunTime, i: nat)
    requires i <= |l|
    requires forall k :: 0 <= k < i ==> l[k].elapsed > x.elapsed
    requires i < |l| ==> l[i].elapsed <= x.elapsed
    ensures Insert(l, x) == l[..i] + [x] + l[i..]
  {
    hide Insert;
    InsertHead(l, x);
    if i == 0 {
      assert l[..0] + [x] + l[0..] == [x] + l;
    } else {
      InsertAt(l[1..], x, i - 1);
      HeadAndTail(l, x, i);
    }
  }

  lemma {:induction false} InsertKeepsBound(l: seq<RunTime>, x: RunTime, bound: int)
    requires x.elapsed <= bound && forall i :: 0 <= i < |l| ==> l[i].elapsed <= bound
    ensures forall i :: 0 <= i < |Insert(l, x)| ==> Insert(l, x)[i].elapsed <= bound
  {
    hide Insert;
    InsertHead(l, x);
    if |l| > 0 {
      InsertKeepsBound(l[1..], x, bound);
    }
  }

  lemma {:induction false} InsertKeepsSorted(l: seq<RunTime>, x: RunTime)
    requires IsSorted(l)
    ensures IsSorted(Insert(l, x))
  {
    hide Insert;
    InsertHead(l, x);
    if |l| > 0 && l[0].elapsed > x.elapsed {
      InsertKeepsSorted(l[1..], x);
      InsertKeepsBound(l[1..], x, l[0].elapsed);
    }
  }

  lemma {:induction false} InsertAdds(l: seq<RunTime>, x: RunTime)
    ensures multiset(Insert(l, x)) == multiset(l) + multiset{x}
  {
    hide Insert;
    InsertHead(l, x);
    if |l| > 0 {
      InsertAdds(l[1..], x);
      HeadAndTail(l, x, 1);
    }
  }

  lemma SortedLast(history: seq<RunTime>, x: RunTime)
    ensures Sorted([]) == [] && Sorted(history + [x]) == Insert(Sorted(history), x)
  {
    assert (history + [x])[..|history|] == history;
  }

  lemma {:induction false} SortedIsSorted(history: seq<RunTime>)
    ensures IsSorted(Sorted(history))
    ensures multiset(Sorted(history)) == multiset(history)
  {
    hide Insert, Sorted;
    if |history| == 0 {
      SortedLast([], RunTime("", 0));
      assert history == [];
    } else {
      var before, x := history[..|history| - 1], history[|history| - 1];
      assert history == before + [x];
      SortedLast(before, x);
      SortedIsSorted(before);
      InsertKeepsSorted(Sorted(before), x);
      InsertAdds(Sorted(before), x);
    }
  }

  /** Keeping only ten entries loses nothing that a later insertion needs. */
  lemma {:induction false} LongestOfInsert(l: seq<RunTime>, x: RunTime, n: nat)
    requires n <= |l|
    ensures Insert(l[..n], x)[..n] == Insert(l, x)[..n]
    ensures n == |l| ==> Insert(l[..n], x) == Insert(l, x)
    decreases n
  {
    if n == |l| {
      assert l[..n] == l;
    } else if n > 0 {
      LongestOfInsert(l[1..], x, n - 1);
      assert l[..n][1..] == l[1..][..n - 1];
      if l[0].elapsed > x.elapsed {
        assert Insert(l[..n], x)[..n] == [l[0]] + Insert(l[1..][..n - 1], x)[..n - 1];
      } else {
        assert ([x] + l[..n])[..n] == ([x] + l)[..n];
      }
    }
  }

  /** What the list is for: at most ten, the longest first, and nothing left out
      took longer than anything kept. */
  lemma LongestAreLongest(history: seq<RunTime>)
    ensures var top := Longest(Sorted(history));
            && |top| == (if |history| < 10 then |history| else 10)
            && IsSorted(top)
            && multiset(top) <= multiset(history)
            && forall x, t :: x in multiset(history) - multiset(top) && t in top ==> x.elapsed <= t.elapsed
  {
    hide Sorted, Insert, IsSorted;
    var all := Sorted(history);
    SortedIsSorted(history);
    var top := Longest(all);
    SplitIsMultiset(all, |top|);
    SplitIsSorted(all, |top|);
    assert top == all[..|top|];
    var others := multiset(history) - multiset(top);
    forall x, t | x in others && t in top
      ensures x.elapsed <= t.elapsed
    {
      SplitIsOrdered(all, |top|, x, t);
    }
  }

  lemma SplitIsMultiset<T>(all: seq<T>, n: nat)
    requires n <= |all|
    ensures multiset(all[..n]) <= multiset(all)
    ensures multiset(all) - multiset(all[..n]) == multiset(all[n..])
  {
    assert all == all[..n] + all[n..];
  }

  lemma SplitIsSorted(all: seq<RunTime>, n: nat)
    requires IsSorted(all) && n <= |all|
    ensures IsSorted(all[..n])
  {
  }

  lemma SplitIsOrdered(all: seq<RunTime>, n: nat, x: RunTime, t: RunTime)
    requires IsSorted(all) && n <= |all| && x in all[n..] && t in all[..n]
    ensures x.elapsed <= t.elapsed
  {
    var i: nat :| i < |all[n..]| && all[n..][i] == x;
    var j: nat :| j < |all[..n]| && all[..n][j] == t;
    assert all[n + i] == x && all[j] == t;
  }

  class Results {
    var suites: nat
    var cases: nat
    var total: nat
    var failed: nat
    var top: seq<RunTime>
    /** Every suite so far that took at least a second. */
    ghost var slow: seq<RunTime>

    ghost predicate Valid()
      reads this
    {
      top == Longest(Sorted(slow))
    }

    constructor ()
      ensures Valid() && suites == cases == total == failed == 0 && slow == []
    {
      suites, cases, total, failed := 0, 0, 0, 0;
      top, slow := [], [];
    }

    /** std::lower_bound with the comparison of reporter.hpp. */
    method LowerBound(elapsed: int) returns (i: nat)
      requires IsSorted(top)
      ensures i <= |top|
      ensures forall k :: 0 <= k < i ==> top[k].elapsed > elapsed
      ensures forall k :: i <= k < |top| ==> top[k].elapsed <= elapsed
    {
      var first, count := 0, |top|;
      while count > 0
        invariant 0 <= first && 0 <= count && first + count <= |top|
        invariant forall k :: 0 <= k < first ==> top[k].elapsed > elapsed
        invariant forall k :: first + count <= k < |top| ==> top[k].elapsed <= elapsed
        decreases count
      {
        var step := count / 2;
        if top[first + step].elapsed > elapsed {
          first := first + step + 1;
          count := count - (step + 1);
        } else {
          count := step;
        }
      }
      i := first;
    }

    method Add(r: SuiteResults, elapsed: int)
      requires Valid()
      modifies this
      ensures Valid()
      ensures suites == old(suites) + 1 && cases == old(cases) + r.cases
      ensures total == old(total) + r.total && failed == old(failed) + r.failed
      ensures slow == if elapsed >= 1_000_000_000 then old(slow) + [RunTime(r.name, elapsed)] else old(slow)
    {
      suites := suites + 1;
      total := total + r.total;
      cases := cases + r.cases;
      failed := failed + r.failed;
      if elapsed >= SECOND {
        AddSlow(RunTime(r.name, elapsed));
      }
    }

    /** The bounded insertion into top. */
    method AddSlow(x: RunTime)
      requires Valid()
      modifies this`top, this`slow
      ensures Valid() && slow == old(slow) + [x]
    {
      hide Sorted, Insert;
      TopIsSorted(slow);
      var iter := LowerBound(x.elapsed);
      InsertAt(top, x, iter);
      LongestStep(slow, top, x);
      ghost var inserted := top[..iter] + [x] + top[iter..];
      if iter != |top| {
        if |top| == MAX_TOP {
          top := top[..|top| - 1];
        }
        top := top[..iter] + [x] + top[iter..];
        assert top == Longest(inserted);
      } else if |top| < MAX_TOP {
        top := top + [x];
        assert top == Longest(inserted);
      } else {
        assert top == Longest(inserted);
      }
      slow := slow + [x];
    }
  }

  lemma TopIsSorted(history: seq<RunTime>)
    ensures IsSorted(Longest(Sorted(history))) && |Longest(Sorted(history))| <= MAX_TOP
  {
    hide Sorted;
    SortedIsSorted(history);
  }

  lemma LongestStep(slow: seq<RunTime>, top: seq<RunTime>, x: RunTime)
    requires top == Longest(Sorted(slow))
    ensures Longest(Sorted(slow + [x])) == Longest(Insert(top, x))
  {
    assert (slow + [x])[..|slow|] == slow;
    LongestOfInsert(Sorted(slow), x, |top|);
  }
}
