/** The engine of extras/beast/unit_test/runner.hpp with the callbacks of
    extras/beast/unit_test/reporter.hpp. */
module Runner {
  import opened Callbacks
  import opened Reporter
  import opened Selector
  import opened Suites

  /** Whether the case open before action i has had a check. */
  predicate HasCheck(actions: seq<Action>, i: nat)
    requires i <= |actions|
  {
    i > 0 &&
    match actions[i - 1]
    case Pass => true
    case Fail(_) => true
    case Log(_) => HasCheck(actions, i - 1)
    case TestCase(_) => false
  }

  /** When every assertion of the engine holds while a suite runs: each case but
      the first has a name, each case has a check before it ends, and a suite
      without cases follows one that had a check. */
  ghost predicate AssertionsHold(actions: seq<Action>, condBefore: bool) {
    && (forall i :: 0 < i < |actions| && actions[i].TestCase? ==> actions[i].name != "" && HasCheck(actions, i))
    && (if |actions| == 0 then condBefore else HasCheck(actions, |actions|))
  }

  class Runner {
    var isDefault: bool
    var failed: bool
    var cond: bool
    const results: Results
    var suiteResults: SuiteResults
    var caseResults: CaseResults
    ghost var trace: seq<Event>
    /** Whether every BOOST_ASSERT reached so far held. */
    ghost var asserted: bool

    constructor ()
      ensures !isDefault && !failed && !cond && asserted && trace == []
      ensures results.Valid() && results.slow == []
      ensures results.suites == results.cases == results.total == results.failed == 0
      ensures caseResults.total == caseResults.failed == 0
      ensures fresh(results) && fresh(suiteResults) && fresh(caseResults)
    {
      isDefault, failed, cond := false, false, false;
      results := new Results();
      suiteResults := new SuiteResults("");
      caseResults := new CaseResults("");
      trace, asserted := [], true;
    }

    // The suite's counters with the open case added in.

    ghost function OpenCases(): nat
      reads this, suiteResults
    {
      suiteResults.cases + if isDefault then 0 else 1
    }

    ghost function OpenTotal(): nat
      reads this, suiteResults, caseResults
    {
      suiteResults.total + if isDefault then 0 else caseResults.total
    }

    ghost function OpenFailed(): nat
      reads this, suiteResults, caseResults
    {
      suiteResults.failed + if isDefault then 0 else caseResults.failed
    }

    /** The counts of the case opened last, ended or not. */
    ghost function LastOpened(): Counts
      reads this, caseResults
    {
      Counts(caseResults.total, caseResults.failed)
    }

    // Callbacks of the reporter.

    method OnSuiteBegin(s: SuiteInfo)
      modifies this`suiteResults, this`trace
      ensures fresh(suiteResults) && suiteResults.name == s.FullName()
      ensures suiteResults.cases == suiteResults.total == suiteResults.failed == 0
      ensures trace == old(trace) + [SuiteBegin(s.name)]
    {
      suiteResults := new SuiteResults(s.FullName());
      trace := trace + [SuiteBegin(s.name)];
    }

    method OnSuiteEnd(elapsed: int)
      requires results.Valid()
      modifies results, this`trace
      ensures results.Valid()
      ensures results.suites == old(results.suites) + 1 && results.cases == old(results.cases) + suiteResults.cases
      ensures results.total == old(results.total) + suiteResults.total
      ensures results.failed == old(results.failed) + suiteResults.failed
      ensures results.slow ==
              if elapsed >= SECOND then old(results.slow) + [RunTime(suiteResults.name, elapsed)] else old(results.slow)
      ensures trace == old(trace) + [SuiteEnd]
    {
      results.Add(suiteResults, elapsed);
      trace := trace + [SuiteEnd];
    }

    method OnCaseBegin(name: string)
      modifies this`caseResults, this`trace
      ensures fresh(caseResults) && caseResults.total == caseResults.failed == 0
      ensures trace == old(trace) + [CaseBegin(name)]
    {
      caseResults := new CaseResults(name);
      trace := trace + [CaseBegin(name)];
    }

    method OnCaseEnd()
      modifies suiteResults, this`trace
      ensures suiteResults.cases == old(suiteResults.cases) + 1
      ensures suiteResults.total == old(suiteResults.total) + caseResults.total
      ensures suiteResults.failed == old(suiteResults.failed) + caseResults.failed
      ensures trace == old(trace) + [CaseEnd]
    {
      suiteResults.Add(caseResults);
      trace := trace + [CaseEnd];
    }

    method OnCheck(pass: bool)
      modifies caseResults, this`trace
      ensures caseResults.total == old(caseResults.total) + 1
      ensures caseResults.failed == old(caseResults.failed) + if pass then 0 else 1
      ensures trace == old(trace) + [Check(pass)]
    {
      if !pass {
        caseResults.failed := caseResults.failed + 1;
      }
      caseResults.total := caseResults.total + 1;
      trace := trace + [Check(pass)];
    }

    // The runner's own operations.

    method TestCase(name: string)
      modifies this`isDefault, this`cond, this`caseResults, this`trace, this`asserted, suiteResults
      ensures !isDefault && !cond && (fresh(caseResults) && caseResults.total == caseResults.failed == 0)
      ensures OpenCases() == old(OpenCases()) + 1
      ensures OpenTotal() == old(OpenTotal()) && OpenFailed() == old(OpenFailed())
      ensures trace == old(trace) + (if old(isDefault) then [] else [CaseEnd]) + [CaseBegin(name)]
      ensures asserted <==> old(asserted) && (old(isDefault) || (name != "" && old(cond)))
    {
      asserted := asserted && (isDefault || name != "");
      asserted := asserted && (isDefault || cond);
      if !isDefault {
        OnCaseEnd();
      }
      isDefault := false;
      cond := false;
      OnCaseBegin(name);
    }

    /** pass() and fail(): the two differ in the callback and in failed. */
    method RecordCheck(pass: bool)
      modifies this`isDefault, this`cond, this`failed, this`caseResults, this`trace, this`asserted
      modifies suiteResults, caseResults
      ensures !isDefault && cond && failed == (old(failed) || !pass) && asserted == old(asserted)
      ensures caseResults == old(caseResults) || fresh(caseResults)
      ensures OpenCases() == old(OpenCases()) + (if old(isDefault) then 1 else 0)
      ensures OpenTotal() == old(OpenTotal()) + 1 && OpenFailed() == old(OpenFailed()) + (if pass then 0 else 1)
      ensures var before := if old(isDefault) then Counts(0, 0) else old(LastOpened());
              LastOpened() == Counts(before.total + 1, before.failed + if pass then 0 else 1)
      ensures trace == old(trace) + (if old(isDefault) then [CaseBegin("")] else []) + [Check(pass)]
    {
      if isDefault {
        TestCase("");
      }
      OnCheck(pass);
      if !pass {
        failed := true;
      }
      cond := true;
    }

    method Log(text: string)
      modifies this`isDefault, this`cond, this`caseResults, this`trace, this`asserted, suiteResults
      ensures !isDefault && cond == (!old(isDefault) && old(cond)) && asserted == old(asserted)
      ensures caseResults == old(caseResults) || fresh(caseResults)
      ensures OpenCases() == old(OpenCases()) + (if old(isDefault) then 1 else 0)
      ensures OpenTotal() == old(OpenTotal()) && OpenFailed() == old(OpenFailed())
      ensures LastOpened() == if old(isDefault) then Counts(0, 0) else old(LastOpened())
      ensures trace == old(trace) + (if old(isDefault) then [CaseBegin("")] else []) + [Logged]
    {
      if isDefault {
        TestCase("");
      }
      trace := trace + [Logged];
    }

    /** One action of a suite. */
    method Do(a: Action)
      modifies this`isDefault, this`cond, this`failed, this`caseResults, this`trace, this`asserted
      modifies suiteResults, caseResults
      ensures !isDefault && failed == (old(failed) || a.Fail?)
      ensures caseResults == old(caseResults) || fresh(caseResults)
      ensures OpenCases() == old(OpenCases()) + (if old(isDefault) || a.TestCase? then 1 else 0)
      ensures OpenTotal() == old(OpenTotal()) + (if a.Pass? || a.Fail? then 1 else 0)
      ensures OpenFailed() == old(OpenFailed()) + (if a.Fail? then 1 else 0)
      ensures cond == (a.Pass? || a.Fail? || (a.Log? && !old(isDefault) && old(cond)))
      ensures asserted == (old(asserted) && (a.TestCase? && !old(isDefault) ==> a.name != "" && old(cond)))
      ensures LastOpened() == NextCounts(if old(isDefault) then Counts(0, 0) else old(LastOpened()), a)
      ensures trace == old(trace) + StepEvents(a, old(isDefault))
    {
      ghost var before := trace;
      match a {
        case TestCase(name) => TestCase(name);
        case Pass => RecordCheck(true);
        case Fail(_) => RecordCheck(false);
        case Log(text) => Log(text);
      }
      assert trace == before + StepEvents(a, old(isDefault));
    }

    /** The suite's own part of a run: s.run(*this). */
    method RunActions(actions: seq<Action>)
      requires isDefault && !failed
      requires suiteResults.cases == suiteResults.total == suiteResults.failed == 0
      modifies this`isDefault, this`cond, this`failed, this`caseResults, this`trace, this`asserted
      modifies suiteResults, caseResults
      ensures caseResults == old(caseResults) || fresh(caseResults)
      ensures isDefault == (|actions| == 0) && failed == (Fails(actions) > 0)
      ensures |actions| > 0 ==>
                && suiteResults.cases + 1 == Cases(actions)
                && suiteResults.total + caseResults.total == Checks(actions)
                && suiteResults.failed + caseResults.failed == Fails(actions)
      ensures trace == old(trace) + EventsOf(actions)
      ensures |actions| > 0 ==> LastOpened() == LastCase(actions)
      ensures cond == (if |actions| == 0 then old(cond) else HasCheck(actions, |actions|))
      ensures asserted == (old(asserted) && AssertedUpTo(actions, |actions|))
      ensures |actions| == 0 ==>
                caseResults == old(caseResults) &&
                suiteResults.cases == suiteResults.total == suiteResults.failed == 0 &&
                LastOpened() == old(LastOpened())
    {
      hide HasCheck, AssertedUpTo, StepEvents;
      AssertedStart(actions, cond);
      ghost var before := trace;
      assert before + [] == before;
      for i := 0 to |actions|
        invariant caseResults == old(caseResults) || fresh(caseResults)
        invariant isDefault == (i == 0) && failed == (Fails(actions[..i]) > 0)
        invariant OpenCases() == Cases(actions[..i])
        invariant OpenTotal() == Checks(actions[..i]) && OpenFailed() == Fails(actions[..i])
        invariant trace == before + EventsOf(actions[..i])
        invariant i > 0 ==> LastOpened() == LastCase(actions[..i])
        invariant cond == (if i == 0 then old(cond) else HasCheck(actions, i))
        invariant asserted == (old(asserted) && AssertedUpTo(actions, i))
        invariant i == 0 ==> caseResults == old(caseResults)
        invariant i == 0 ==> suiteResults.cases == suiteResults.total == suiteResults.failed == 0
        invariant i == 0 ==> LastOpened() == old(LastOpened())
      {
        CountNext(actions, i);
        HasCheckNext(actions, i);
        AssertedNext(actions, i);
        Do(actions[i]);
      }
      assert actions[..|actions|] == actions;
    }

    /** The start of run. */
    method OpenSuite(s: SuiteInfo)
      modifies this`isDefault, this`failed, this`suiteResults, this`trace
      ensures isDefault && !failed
      ensures fresh(suiteResults) && suiteResults.name == s.FullName()
      ensures suiteResults.cases == suiteResults.total == suiteResults.failed == 0
      ensures trace == old(trace) + [SuiteBegin(s.name)]
    {
      isDefault := true;
      failed := false;
      OnSuiteBegin(s);
    }

    /** The end of run: the last case and the suite are accounted for, whether or
        not a case was ever opened. */
    method CloseSuite(elapsed: int)
      requires results.Valid()
      modifies results, suiteResults, this`trace
      ensures results.Valid()
      ensures results.suites == old(results.suites) + 1
      ensures results.cases == old(results.cases) + old(suiteResults.cases) + 1
      ensures results.total == old(results.total) + old(suiteResults.total) + caseResults.total
      ensures results.failed == old(results.failed) + old(suiteResults.failed) + caseResults.failed
      ensures results.slow ==
              if elapsed >= SECOND then old(results.slow) + [RunTime(suiteResults.name, elapsed)] else old(results.slow)
      ensures trace == old(trace) + [CaseEnd, SuiteEnd]
    {
      OnCaseEnd();
      OnSuiteEnd(elapsed);
    }

    /** run for one suite, which takes the given time. */
    method Run(s: SuiteInfo, elapsed: int) returns (r: bool)
      requires results.Valid()
      modifies this, results, suiteResults, caseResults
      ensures fresh(suiteResults) && (caseResults == old(caseResults) || fresh(caseResults)) && results.Valid()
      ensures r == (Fails(s.actions) > 0)
      ensures results.suites == old(results.suites) + 1
      ensures |s.actions| > 0 ==>
                && results.cases == old(results.cases) + Cases(s.actions)
                && results.total == old(results.total) + Checks(s.actions)
                && results.failed == old(results.failed) + Fails(s.actions)
      ensures |s.actions| == 0 ==>
                && results.cases == old(results.cases) + 1
                && results.total == old(results.total) + old(caseResults.total)
                && results.failed == old(results.failed) + old(caseResults.failed)
      ensures results.slow ==
              if elapsed >= SECOND then old(results.slow) + [RunTime(s.FullName(), elapsed)] else old(results.slow)
      ensures LastOpened() == if |s.actions| == 0 then old(LastOpened()) else LastCase(s.actions)
      ensures trace == old(trace) + SuiteTrace(s)
      ensures asserted <==> old(asserted) && AssertionsHold(s.actions, old(cond))
      ensures cond == if |s.actions| == 0 then old(cond) else HasCheck(s.actions, |s.actions|)
    {
      hide HasCheck, AssertedUpTo, AssertionsHold, Fails, Checks, Cases, EventsOf, LastCase;
      hide Results.Valid, OpenCases, OpenTotal, OpenFailed;
      EmptyCounts();
      AssertedEnd(s.actions, cond);
      OpenSuite(s);
      RunActions(s.actions);
      asserted := asserted && cond;
      CloseSuite(elapsed);
      r := failed;
      assert trace == old(trace) + SuiteTrace(s);
    }

    /** What a run adds up to so far. */
    ghost function Now(): Totals
      reads this, results, caseResults
    {
      Totals(
        results.suites, results.cases, results.total, results.failed, results.slow, trace, LastOpened(), cond, asserted)
    }

    /** One more suite of a longer run. */
    method RunOne(t: Timed, ghost before: Totals, ghost done: seq<Timed>) returns (f: bool)
      requires results.Valid() && IsAfter(before, Now(), done)
      modifies this, results, suiteResults, caseResults
      ensures fresh(suiteResults) && (caseResults == old(caseResults) || fresh(caseResults))
      ensures results.Valid() && IsAfter(before, Now(), done + [t])
      ensures f <==> Fails(t.info.actions) > 0
    {
      hide *;
      ghost var now := Now();
      f := RunStep(t);
      AfterOneMore(before, now, Now(), done, t);
    }

    /** One suite, in terms of the totals. */
    method RunStep(t: Timed) returns (f: bool)
      requires results.Valid()
      modifies this, results, suiteResults, caseResults
      ensures fresh(suiteResults) && (caseResults == old(caseResults) || fresh(caseResults))
      ensures results.Valid() && IsStep(old(Now()), Now(), t)
      ensures f <==> Fails(t.info.actions) > 0
    {
      hide HasCheck, AssertionsHold, Fails, Checks, Cases, LastCase, SuiteTrace, Results.Valid, SuiteInfo.FullName;
      f := Run(t.info, t.elapsed);
    }

    /** run_each. */
    method RunEach(list: seq<Timed>) returns (anyFailed: bool)
      requires results.Valid()
      modifies this, results, suiteResults, caseResults
      ensures fresh(suiteResults) || suiteResults == old(suiteResults)
      ensures fresh(caseResults) || caseResults == old(caseResults)
      ensures results.Valid() && IsAfter(old(Now()), Now(), list)
      ensures anyFailed <==> TallyOf(list).failed > 0
    {
      hide *;
      anyFailed := false;
      ghost var before := Now();
      NothingYet(list, before);
      for i := 0 to |list|
        invariant fresh(suiteResults) || suiteResults == old(suiteResults)
        invariant fresh(caseResults) || caseResults == old(caseResults)
        invariant results.Valid() && IsAfter(before, Now(), list[..i])
        invariant anyFailed <==> TallyOf(list[..i]).failed > 0
      {
        assert list[..i + 1] == list[..i] + [list[i]];
        OneMoreSuite(list[..i], list[i]);
        var f := RunOne(list[i], before, list[..i]);
        anyFailed := f || anyFailed;
      }
      assert list[..|list|] == list;
    }

    /** run_each_if with a selector: run_each on the suites it chooses. */
    method RunEachIf(list: seq<Timed>, pred: Selector) returns (anyFailed: bool)
      requires results.Valid()
      modifies this, results, suiteResults, caseResults, pred
      ensures fresh(suiteResults) || suiteResults == old(suiteResults)
      ensures fresh(caseResults) || caseResults == old(caseResults)
      ensures var chosen := Kept(list, Choices(old(pred.mode), pred.pat, Infos(list)));
              results.Valid() && IsAfter(old(Now()), Now(), chosen) && (anyFailed <==> TallyOf(chosen).failed > 0)
    {
      hide *;
      anyFailed := false;
      ghost var before, chosen, all := Now(), [], KeptBy(list, pred.mode, pred.pat);
      NothingYet(list, before);
      assert list[..0] == chosen && list[0..] == list && chosen + all == all;
      for i := 0 to |list|
        invariant fresh(suiteResults) || suiteResults == old(suiteResults)
        invariant fresh(caseResults) || caseResults == old(caseResults)
        invariant chosen + KeptBy(list[i..], pred.mode, pred.pat) == all
        invariant results.Valid() && IsAfter(before, Now(), chosen)
        invariant anyFailed <==> TallyOf(chosen).failed > 0
      {
        KeptNext(list[i..], pred.mode, pred.pat);
        assert list[i..][0] == list[i] && list[i..][1..] == list[i + 1..];
        var c := pred.Call(list[i].info);
        ghost var more := KeptBy(list[i + 1..], pred.mode, pred.pat);
        if c {
          OneMoreSuite(chosen, list[i]);
          var f := RunOne(list[i], before, chosen);
          anyFailed := f || anyFailed;
          assert (chosen + [list[i]]) + more == chosen + ([list[i]] + more);
          chosen := chosen + [list[i]];
        } else {
          assert [] + more == more;
        }
      }
      KeptNothing(list[|list|..], pred.mode, pred.pat);
      KeptIs(list, old(pred.mode), pred.pat);
      assert chosen + [] == chosen;
    }
  }

  // ---- whole runs ----

  function SlowOf(list: seq<Timed>): seq<RunTime> {
    if |list| == 0 then []
    else
      var x := list[|list| - 1];
      SlowOf(list[..|list| - 1]) + (if x.elapsed >= SECOND then [RunTime(x.info.FullName(), x.elapsed)] else [])
  }

  /** The counters of an engine, its slow suites, the trace, the counts of the
      case opened last, and the state of the assertions. */
  datatype Totals = Totals(
    suites: nat, cases: nat, total: nat, failed: nat, slow: seq<RunTime>,
    trace: seq<Event>, last: Counts, cond: bool, asserted: bool)

  /** What running a list does to the totals. Each suite without a case is
      counted as one case too many, and the last case before it a second time. */
  ghost predicate IsAfter(before: Totals, now: Totals, list: seq<Timed>) {
    && now.suites == before.suites + |list|
    && now.cases == before.cases + TallyOf(list).cases + Empties(list)
    && now.total == before.total + TallyOf(list).total + Repeated(list, before.last).total
    && now.failed == before.failed + TallyOf(list).failed + Repeated(list, before.last).failed
    && now.slow == before.slow + SlowOf(list)
    && now.trace == before.trace + TraceOf(list)
    && now.last == Carried(list, before.last)
    && now.cond == CondAfter(list, before.cond)
    && now.asserted == (before.asserted && AllAssertionsHold(list, before.cond))
  }

  /** What running one suite does to them. */
  ghost predicate IsStep(was: Totals, now: Totals, t: Timed) {
    var a := t.info.actions;
    && now.suites == was.suites + 1
    && (if |a| == 0 then
          && now.cases == was.cases + 1
          && now.total == was.total + was.last.total && now.failed == was.failed + was.last.failed
          && now.last == was.last && now.cond == was.cond
        else
          && now.cases == was.cases + Cases(a)
          && now.total == was.total + Checks(a) && now.failed == was.failed + Fails(a)
          && now.last == LastCase(a) && now.cond == HasCheck(a, |a|))
    && now.slow == was.slow + (if t.elapsed >= SECOND then [RunTime(t.info.FullName(), t.elapsed)] else [])
    && now.trace == was.trace + SuiteTrace(t.info)
    && now.asserted == (was.asserted && AssertionsHold(a, was.cond))
  }

  lemma AfterOneMore(before: Totals, was: Totals, now: Totals, list: seq<Timed>, t: Timed)
    requires IsAfter(before, was, list) && IsStep(was, now, t)
    ensures IsAfter(before, now, list + [t])
  {
    hide HasCheck, AssertionsHold, Fails, Checks, Cases, LastCase, SuiteTrace, SuiteInfo.FullName;
    hide TallyOf, SlowOf, Empties, TraceOf, Carried, Repeated, CondAfter, AllAssertionsHold;
    OneMoreSuite(list, t);
  }

  /** The flag that says that the current case had a check: a suite without
      cases leaves it as it was. */
  function CondAfter(list: seq<Timed>, before: bool): bool {
    if |list| == 0 then before
    else
      var a := list[|list| - 1].info.actions;
      if |a| == 0 then CondAfter(list[..|list| - 1], before) else HasCheck(a, |a|)
  }

  ghost predicate AllAssertionsHold(list: seq<Timed>, before: bool) {
    |list| > 0 ==>
      && AllAssertionsHold(list[..|list| - 1], before)
      && AssertionsHold(list[|list| - 1].info.actions, CondAfter(list[..|list| - 1], before))
  }

  /** No assertion notices a suite without cases behind one that had a check,
      although the counters are wrong from then on. */
  lemma AssertionsMissEmptySuites(list: seq<Timed>, e: Timed, cond: bool)
    requires AllAssertionsHold(list, cond) && CondAfter(list, cond)
    requires |e.info.actions| == 0
    ensures AllAssertionsHold(list + [e], cond) && CondAfter(list + [e], cond)
    ensures Empties(list + [e]) == Empties(list) + 1
  {
    hide AllAssertionsHold, CondAfter, Empties;
    OneMoreSuite(list, e);
  }

  lemma NothingYet(list: seq<Timed>, before: Totals)
    ensures IsAfter(before, before, list[..0]) && TallyOf(list[..0]).failed == 0
  {
  }

  lemma OneMoreSuite(list: seq<Timed>, x: Timed)
    ensures var t, a := TallyOf(list), x.info.actions;
            TallyOf(list + [x]) == Tally(t.cases + Cases(a), t.total + Checks(a), t.failed + Fails(a))
    ensures Empties(list + [x]) == Empties(list) + (if |x.info.actions| == 0 then 1 else 0)
    ensures SlowOf(list + [x]) == SlowOf(list) +
            (if x.elapsed >= SECOND then [RunTime(x.info.FullName(), x.elapsed)] else [])
    ensures TraceOf(list + [x]) == TraceOf(list) + SuiteTrace(x.info)
    ensures forall c :: Carried(list + [x], c) ==
              (if |x.info.actions| == 0 then Carried(list, c) else LastCase(x.info.actions))
    ensures forall c :: Repeated(list + [x], c) ==
              var r, k := Repeated(list, c), Carried(list, c);
              if |x.info.actions| == 0 then Counts(r.total + k.total, r.failed + k.failed) else r
    ensures |x.info.actions| == 0 ==> Cases(x.info.actions) == Checks(x.info.actions) == Fails(x.info.actions) == 0
    ensures forall c :: CondAfter(list + [x], c) ==
              (if |x.info.actions| == 0 then CondAfter(list, c) else HasCheck(x.info.actions, |x.info.actions|))
    ensures forall c :: AllAssertionsHold(list + [x], c) <==>
              AllAssertionsHold(list, c) && AssertionsHold(x.info.actions, CondAfter(list, c))
  {
    hide HasCheck, AssertionsHold, LastCase, SuiteTrace;
    assert (list + [x])[..|list|] == list;
  }

  function Infos(list: seq<Timed>): (r: seq<SuiteInfo>)
    ensures |r| == |list|
  {
    if |list| == 0 then [] else [list[0].info] + Infos(list[1..])
  }

  function Kept(list: seq<Timed>, choices: seq<bool>): seq<Timed>
    requires |choices| == |list|
  {
    if |list| == 0 then []
    else (if choices[0] then [list[0]] else []) + Kept(list[1..], choices[1..])
  }

  function KeptBy(list: seq<Timed>, mode: Mode, pat: string): seq<Timed> {
    Kept(list, Choices(mode, pat, Infos(list)))
  }

  lemma KeptIs(list: seq<Timed>, mode: Mode, pat: string)
    ensures KeptBy(list, mode, pat) == Kept(list, Choices(mode, pat, Infos(list)))
  {
  }

  lemma KeptNothing(list: seq<Timed>, mode: Mode, pat: string)
    requires |list| == 0
    ensures KeptBy(list, mode, pat) == []
  {
  }

  lemma KeptNext(list: seq<Timed>, mode: Mode, pat: string)
    requires |list| > 0
    ensures KeptBy(list, mode, pat) ==
            (if IsChosen(mode, pat, list[0].info) then [list[0]] else []) +
            KeptBy(list[1..], NextMode(mode, pat, list[0].info), pat)
  {
    assert Infos(list)[1..] == Infos(list[1..]);
  }

  /** A fresh engine on any list of suites. The trace is that of the suites in
      order, and well nested exactly when every suite opens a case; then the
      counters are the numbers of callbacks and those of the suites' actions.
      Each suite without a case adds one case, and the last case before it once
      more. The list of the longest suites is right in any case. */
  method RunAll(list: seq<Timed>)
    returns (suites: nat, tally: Tally, top: seq<RunTime>, anyFailed: bool,
             ghost trace: seq<Event>, ghost asserted: bool)
    ensures trace == TraceOf(list)
    ensures LevelOf(trace) == Idle <==> forall i :: 0 <= i < |list| ==> |list[i].info.actions| > 0
    ensures suites == |list| == multiset(trace)[SuiteEnd]
    ensures tally.cases == multiset(trace)[CaseEnd]
    ensures var t, again := TallyOf(list), Repeated(list, Counts(0, 0));
            && tally == Tally(t.cases + Empties(list), t.total + again.total, t.failed + again.failed)
            && Reported(trace) == Counts(t.total, t.failed)
    ensures LevelOf(trace) == Idle ==> Reported(trace) == Counts(tally.total, tally.failed)
    ensures tally == TallyOf(list) <==> forall i :: 0 <= i < |list| ==> |list[i].info.actions| > 0
    ensures top == Longest(Sorted(SlowOf(list)))
    ensures anyFailed <==> TallyOf(list).failed > 0
    ensures asserted <==> AllAssertionsHold(list, false)
  {
    hide Sorted, LevelOf, TallyOf, SlowOf, Empties, TraceOf, Repeated, Carried, Reported;
    var r := new Runner();
    anyFailed := r.RunEach(list);
    EmptiesCount(list);
    ListNests(list);
    ListCounts(list);
    if Empties(list) == 0 {
      NothingRepeated(list, Counts(0, 0));
    }
    suites, tally := r.results.suites, Tally(r.results.cases, r.results.total, r.results.failed);
    top, trace, asserted := r.results.top, r.trace, r.asserted;
    assert [] + SlowOf(list) == SlowOf(list) && [] + TraceOf(list) == TraceOf(list);
  }

  ghost predicate AssertedUpTo(actions: seq<Action>, n: nat)
    requires n <= |actions|
  {
    forall i :: 0 < i < n && actions[i].TestCase? ==> actions[i].name != "" && HasCheck(actions, i)
  }

  lemma AssertedStart(actions: seq<Action>, cond: bool)
    ensures AssertedUpTo(actions, 0)
  {
  }

  lemma AssertedNext(actions: seq<Action>, i: nat)
    requires i < |actions|
    ensures AssertedUpTo(actions, i + 1) <==>
            && AssertedUpTo(actions, i)
            && (actions[i].TestCase? && i > 0 ==> actions[i].name != "" && HasCheck(actions, i))
  {
    hide HasCheck;
  }

  lemma AssertedEnd(actions: seq<Action>, condBefore: bool)
    ensures AssertionsHold(actions, condBefore) <==>
            AssertedUpTo(actions, |actions|) && (if |actions| == 0 then condBefore else HasCheck(actions, |actions|))
  {
    hide HasCheck;
  }

  lemma HasCheckNext(actions: seq<Action>, i: nat)
    requires i < |actions|
    ensures HasCheck(actions, i + 1) <==>
            match actions[i]
            case Pass => true
            case Fail(_) => true
            case Log(_) => i > 0 && HasCheck(actions, i)
            case TestCase(_) => false
  {
  }
}
