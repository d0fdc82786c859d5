/** The callbacks that a run of extras/beast/unit_test/runner.hpp has to make, as
    a trace, and what the trace says about the suites. */
module Callbacks {
  import opened Suites

  // ---- the trace of callbacks ----

  datatype Event = SuiteBegin(name: string) | SuiteEnd | CaseBegin(name: string) | CaseEnd | Check(pass: bool) | Logged

  /** Where a trace stands: between suites, in a suite before its first case, in
      a case, after a case, or in a trace that no nesting explains. */
  datatype Level = Idle | SuiteOpen | CaseOpen | CaseClosed | Bad

  function NextLevel(l: Level, e: Event): Level {
    match (l, e)
    case (Idle, SuiteBegin(_)) => SuiteOpen
    case (SuiteOpen, CaseBegin(_)) => CaseOpen
    case (CaseClosed, CaseBegin(_)) => CaseOpen
    case (CaseOpen, Check(_)) => CaseOpen
    case (CaseOpen, Logged) => CaseOpen
    case (CaseOpen, CaseEnd) => CaseClosed
    case (CaseClosed, SuiteEnd) => Idle
    case (_, _) => Bad
  }

  /** The level behind a stretch of events that starts at level l. */
  function LevelAfter(l: Level, events: seq<Event>): Level {
    if |events| == 0 then l else NextLevel(LevelAfter(l, events[..|events| - 1]), events[|events| - 1])
  }

  function LevelOf(trace: seq<Event>): Level { LevelAfter(Idle, trace) }

  lemma {:induction false} LevelAppend(l: Level, a: seq<Event>, b: seq<Event>)
    ensures LevelAfter(l, a + b) == LevelAfter(LevelAfter(l, a), b)
  {
    if |b| == 0 {
      assert a + b == a;
    } else {
      var k := |b| - 1;
      LevelAppend(l, a, b[..k]);
      assert (a + b)[..|a + b| - 1] == a + b[..k];
    }
  }

  lemma LevelOfFew(l: Level, e: Event, f: Event)
    ensures LevelAfter(l, []) == l && LevelAfter(l, [e]) == NextLevel(l, e)
    ensures LevelAfter(l, [e, f]) == NextLevel(NextLevel(l, e), f)
  {
    assert [e][..0] == [] && [e, f][..1] == [e];
  }

  // ---- the trace that a list of suites has to leave ----

  /** The callback for an action inside a case. */
  function EventOf(a: Action): Event {
    match a
    case TestCase(name) => CaseBegin(name)
    case Pass => Check(true)
    case Fail(_) => Check(false)
    case Log(_) => Logged
  }

  /** The callbacks for one action. A new case ends the one before; anything else
      opens an unnamed case if none is open. */
  function StepEvents(a: Action, isDefault: bool): seq<Event> {
    if a.TestCase? then (if isDefault then [] else [CaseEnd]) + [EventOf(a)]
    else (if isDefault then [CaseBegin("")] else []) + [EventOf(a)]
  }

  function EventsOf(actions: seq<Action>): seq<Event> {
    if |actions| == 0 then []
    else EventsOf(actions[..|actions| - 1]) + StepEvents(actions[|actions| - 1], |actions| == 1)
  }

  function SuiteTrace(s: SuiteInfo): seq<Event> {
    [SuiteBegin(s.name)] + EventsOf(s.actions) + [CaseEnd, SuiteEnd]
  }

  function TraceOf(list: seq<Timed>): seq<Event> {
    if |list| == 0 then [] else TraceOf(list[..|list| - 1]) + SuiteTrace(list[|list| - 1].info)
  }

  // ---- the same trace, suite by suite and case by case ----

  /** A case: its name and what is reported inside it. */
  datatype Case = Case(name: string, body: seq<Event>)

  /** The cases of a suite: each begins at a call of testcase, or at the first
      action, and holds what is done until the next. */
  function CasesOf(actions: seq<Action>): (r: seq<Case>)
    ensures |r| == 0 <==> |actions| == 0
  {
    if |actions| == 0 then []
    else
      var before, a := CasesOf(actions[..|actions| - 1]), actions[|actions| - 1];
      if a.TestCase? then before + [Case(a.name, [])]
      else if |before| == 0 then [Case("", [EventOf(a)])]
      else
        var k := |before| - 1;
        before[..k] + [Case(before[k].name, before[k].body + [EventOf(a)])]
  }

  function CaseTrace(c: Case): seq<Event> { [CaseBegin(c.name)] + c.body + [CaseEnd] }

  function CasesTrace(cases: seq<Case>): seq<Event> {
    if |cases| == 0 then [] else CasesTrace(cases[..|cases| - 1]) + CaseTrace(cases[|cases| - 1])
  }

  lemma CasesTraceNext(cases: seq<Case>, c: Case)
    ensures CasesTrace(cases + [c]) == CasesTrace(cases) + CaseTrace(c)
  {
    assert (cases + [c])[..|cases|] == cases;
  }

  /** The callbacks come out case by case, each between its begin and its end. */
  lemma {:induction false} EventsAreCases(actions: seq<Action>)
    requires |actions| > 0
    ensures EventsOf(actions) + [CaseEnd] == CasesTrace(CasesOf(actions))
  {
    hide CasesTrace;
    var n := |actions| - 1;
    var a, before := actions[n], CasesOf(actions[..n]);
    CasesTraceNext([], Case("", []));
    if n == 0 {
      var c := if a.TestCase? then Case(a.name, []) else Case("", [EventOf(a)]);
      CasesTraceNext([], c);
      NoCases();
      assert CasesOf(actions) == [] + [c];
    } else {
      EventsAreCases(actions[..n]);
      if a.TestCase? {
        CasesTraceNext(before, Case(a.name, []));
        assert EventsOf(actions) + [CaseEnd] == (EventsOf(actions[..n]) + [CaseEnd]) + ([EventOf(a)] + [] + [CaseEnd]);
      } else {
        var k := |before| - 1;
        var c := Case(before[k].name, before[k].body + [EventOf(a)]);
        CasesTraceNext(before[..k], before[k]);
        CasesTraceNext(before[..k], c);
        assert before == before[..k] + [before[k]];
        SameBeforeEnd(EventsOf(actions[..n]), CasesTrace(before[..k]) + ([CaseBegin(c.name)] + before[k].body));
      }
    }
  }

  lemma NoCases()
    ensures CasesTrace([]) == []
  {
  }

  lemma SameBeforeEnd(a: seq<Event>, b: seq<Event>)
    requires a + [CaseEnd] == b + [CaseEnd]
    ensures a == b
  {
    assert (a + [CaseEnd])[..|a|] == a && (b + [CaseEnd])[..|b|] == b;
  }

  /** A suite that does anything is traced as its begin, its cases, its end. */
  lemma SuiteTraceIsCases(s: SuiteInfo)
    requires |s.actions| > 0
    ensures SuiteTrace(s) == [SuiteBegin(s.name)] + CasesTrace(CasesOf(s.actions)) + [SuiteEnd]
  {
    hide EventsOf, CasesOf, CasesTrace;
    EventsAreCases(s.actions);
    assert EventsOf(s.actions) + [CaseEnd, SuiteEnd] == EventsOf(s.actions) + [CaseEnd] + [SuiteEnd];
  }

  // ---- what the actions of a suite amount to ----

  function Fails(actions: seq<Action>): nat {
    if |actions| == 0 then 0
    else Fails(actions[..|actions| - 1]) + (if actions[|actions| - 1].Fail? then 1 else 0)
  }

  function Checks(actions: seq<Action>): nat {
    if |actions| == 0 then 0
    else
      var a := actions[|actions| - 1];
      Checks(actions[..|actions| - 1]) + (if a.Pass? || a.Fail? then 1 else 0)
  }

  /** Cases opened by name, and the unnamed one that a suite gets when it starts
      with anything else. */
  function Cases(actions: seq<Action>): nat {
    if |actions| == 0 then 0
    else Cases(actions[..|actions| - 1]) + (if actions[|actions| - 1].TestCase? || |actions| == 1 then 1 else 0)
  }

  /** The cases counted are those of the suite's division into cases. */
  lemma {:induction false} CasesAreCounted(actions: seq<Action>)
    ensures Cases(actions) == |CasesOf(actions)|
  {
    if |actions| > 0 {
      CasesAreCounted(actions[..|actions| - 1]);
    }
  }

  /** Checks and failures. */
  datatype Counts = Counts(total: nat, failed: nat)

  /** The counts of a case after one more action. */
  function NextCounts(c: Counts, a: Action): Counts {
    match a
    case TestCase(_) => Counts(0, 0)
    case Pass => Counts(c.total + 1, c.failed)
    case Fail(_) => Counts(c.total + 1, c.failed + 1)
    case Log(_) => c
  }

  /** The counts of the last case. */
  function LastCase(actions: seq<Action>): Counts {
    if |actions| == 0 then Counts(0, 0)
    else NextCounts(LastCase(actions[..|actions| - 1]), actions[|actions| - 1])
  }

  /** The checks and failures reported in a trace. */
  function Reported(events: seq<Event>): Counts {
    Counts(multiset(events)[Check(true)] + multiset(events)[Check(false)], multiset(events)[Check(false)])
  }

  lemma ReportedSum(a: seq<Event>, b: seq<Event>)
    ensures Reported(a + b) == Counts(Reported(a).total + Reported(b).total, Reported(a).failed + Reported(b).failed)
    ensures multiset(a + b)[CaseEnd] == multiset(a)[CaseEnd] + multiset(b)[CaseEnd]
    ensures multiset(a + b)[SuiteEnd] == multiset(a)[SuiteEnd] + multiset(b)[SuiteEnd]
  {
  }

  /** The counts of the last case are those of its body. */
  lemma {:induction false} LastCaseCounts(actions: seq<Action>)
    requires |actions| > 0
    ensures var c := CasesOf(actions); LastCase(actions) == Reported(c[|c| - 1].body)
  {
    hide Reported;
    var n := |actions| - 1;
    var a, before := actions[n], CasesOf(actions[..n]);
    NothingReported();
    if a.TestCase? {
      assert LastCase(actions) == Counts(0, 0);
    } else if n > 0 {
      LastCaseCounts(actions[..n]);
      EventCounts(before[|before| - 1].body, a);
    } else {
      EventCounts([], a);
      assert [] + [EventOf(a)] == [EventOf(a)];
    }
  }

  lemma NothingReported()
    ensures Reported([]) == Counts(0, 0) && LastCase([]) == Counts(0, 0)
  {
  }

  lemma EventCounts(body: seq<Event>, a: Action)
    requires !a.TestCase?
    ensures Reported(body + [EventOf(a)]) == NextCounts(Reported(body), a)
  {
    ReportedSum(body, [EventOf(a)]);
  }

  lemma CountNext(actions: seq<Action>, i: nat)
    requires i < |actions|
    ensures Fails(actions[..i + 1]) == Fails(actions[..i]) + (if actions[i].Fail? then 1 else 0)
    ensures Checks(actions[..i + 1]) == Checks(actions[..i]) + (if actions[i].Pass? || actions[i].Fail? then 1 else 0)
    ensures Cases(actions[..i + 1]) == Cases(actions[..i]) + (if actions[i].TestCase? || i == 0 then 1 else 0)
    ensures EventsOf(actions[..i + 1]) == EventsOf(actions[..i]) + StepEvents(actions[i], i == 0)
    ensures LastCase(actions[..i + 1]) == NextCounts(LastCase(actions[..i]), actions[i])
  {
    assert actions[..i + 1][..i] == actions[..i];
  }

  // ---- lists of suites ----

  datatype Tally = Tally(cases: nat, total: nat, failed: nat)

  function TallyOf(list: seq<Timed>): Tally {
    if |list| == 0 then Tally(0, 0, 0)
    else
      var t, a := TallyOf(list[..|list| - 1]), list[|list| - 1].info.actions;
      Tally(t.cases + Cases(a), t.total + Checks(a), t.failed + Fails(a))
  }

  /** Suites that open no case. */
  function Empties(list: seq<Timed>): nat {
    if |list| == 0 then 0
    else Empties(list[..|list| - 1]) + (if |list[|list| - 1].info.actions| == 0 then 1 else 0)
  }

  /** The counts of the last case of a list: a suite without cases leaves those
      of the suite before it. */
  function Carried(list: seq<Timed>, before: Counts): Counts {
    if |list| == 0 then before
    else
      var a := list[|list| - 1].info.actions;
      if |a| == 0 then Carried(list[..|list| - 1], before) else LastCase(a)
  }

  /** What the suites without cases count a second time. */
  function Repeated(list: seq<Timed>, before: Counts): Counts {
    if |list| == 0 then Counts(0, 0)
    else
      var r, c := Repeated(list[..|list| - 1], before), Carried(list[..|list| - 1], before);
      if |list[|list| - 1].info.actions| == 0 then Counts(r.total + c.total, r.failed + c.failed) else r
  }

  // ---- what the trace says ----

  /** A suite leads from between suites to between suites exactly when it opens a
      case. */
  lemma SuiteNests(s: SuiteInfo, before: seq<Event>)
    ensures LevelOf(before + SuiteTrace(s)) == if LevelOf(before) == Idle && |s.actions| > 0 then Idle else Bad
  {
    hide LevelAfter, EventsOf;
    var l := LevelOf(before);
    var begun := [SuiteBegin(s.name)];
    LevelAppend(Idle, before, SuiteTrace(s));
    LevelAppend(l, begun + EventsOf(s.actions), [CaseEnd, SuiteEnd]);
    LevelAppend(l, begun, EventsOf(s.actions));
    LevelOfFew(l, SuiteBegin(s.name), SuiteEnd);
    ActionsNest(LevelAfter(l, begun), s.actions);
    LevelOfFew(LevelAfter(l, begun + EventsOf(s.actions)), CaseEnd, SuiteEnd);
  }

  lemma {:induction false} ActionsNest(l: Level, actions: seq<Action>)
    requires l == SuiteOpen || l == Bad
    ensures LevelAfter(l, EventsOf(actions)) == if |actions| == 0 || l == Bad then l else CaseOpen
  {
    hide LevelAfter;
    LevelOfFew(l, CaseEnd, CaseEnd);
    if |actions| > 0 {
      var n := |actions| - 1;
      ActionsNest(l, actions[..n]);
      LevelAppend(l, EventsOf(actions[..n]), StepEvents(actions[n], n == 0));
      StepNests(LevelAfter(l, EventsOf(actions[..n])), actions[n], n == 0);
    }
  }

  lemma StepNests(l: Level, a: Action, isDefault: bool)
    requires l == (if isDefault then SuiteOpen else CaseOpen) || l == Bad
    ensures LevelAfter(l, StepEvents(a, isDefault)) == if l == Bad then Bad else CaseOpen
  {
    hide LevelAfter;
    var first, e := if a.TestCase? then CaseEnd else CaseBegin(""), EventOf(a);
    LevelOfFew(l, first, e);
    LevelOfFew(l, e, e);
    assert StepEvents(a, isDefault) == if a.TestCase? == isDefault then [e] else [first, e];
  }

  /** The trace of a list is well nested exactly when every suite opens a case. */
  lemma {:induction false} ListNests(list: seq<Timed>)
    ensures LevelOf(TraceOf(list)) == if Empties(list) == 0 then Idle else Bad
  {
    hide LevelOf, SuiteTrace;
    if |list| == 0 {
      EmptyTrace();
    } else {
      ListNests(list[..|list| - 1]);
      SuiteNests(list[|list| - 1].info, TraceOf(list[..|list| - 1]));
    }
  }

  lemma StepCounts(a: Action, isDefault: bool)
    ensures var e := StepEvents(a, isDefault);
            && multiset(e)[SuiteEnd] == 0
            && multiset(e)[CaseEnd] == (if a.TestCase? && !isDefault then 1 else 0)
            && Reported(e) == Counts(if a.Pass? || a.Fail? then 1 else 0, if a.Fail? then 1 else 0)
  {
  }

  lemma {:induction false} ActionCounts(actions: seq<Action>)
    ensures var e := EventsOf(actions);
            && multiset(e)[SuiteEnd] == 0
            && multiset(e)[CaseEnd] == (if |actions| == 0 then 0 else Cases(actions) - 1)
            && Reported(e) == Counts(Checks(actions), Fails(actions))
  {
    hide Reported, StepEvents;
    NothingReported();
    if |actions| > 0 {
      var n := |actions| - 1;
      ActionCounts(actions[..n]);
      StepCounts(actions[n], n == 0);
      ReportedSum(EventsOf(actions[..n]), StepEvents(actions[n], n == 0));
    }
  }

  lemma SuiteCounts(s: SuiteInfo)
    ensures var e := SuiteTrace(s);
            && multiset(e)[SuiteEnd] == 1
            && multiset(e)[CaseEnd] == (if |s.actions| == 0 then 1 else Cases(s.actions))
            && Reported(e) == Counts(Checks(s.actions), Fails(s.actions))
  {
    hide EventsOf, Cases, Checks, Fails;
    ActionCounts(s.actions);
    ReportedSum([SuiteBegin(s.name)], EventsOf(s.actions));
    ReportedSum([SuiteBegin(s.name)] + EventsOf(s.actions), [CaseEnd, SuiteEnd]);
  }

  /** How often each callback occurs in the trace of a list. */
  lemma {:induction false} ListCounts(list: seq<Timed>)
    ensures var e := TraceOf(list);
            && multiset(e)[SuiteEnd] == |list|
            && multiset(e)[CaseEnd] == TallyOf(list).cases + Empties(list)
            && Reported(e) == Counts(TallyOf(list).total, TallyOf(list).failed)
  {
    hide SuiteTrace, Reported, Cases, Checks, Fails;
    NothingReported();
    if |list| > 0 {
      var n := |list| - 1;
      ListCounts(list[..n]);
      SuiteCounts(list[n].info);
      EmptyCounts();
      ReportedSum(TraceOf(list[..n]), SuiteTrace(list[n].info));
    }
  }

  lemma {:induction false} NothingRepeated(list: seq<Timed>, before: Counts)
    requires Empties(list) == 0
    ensures Repeated(list, before) == Counts(0, 0)
  {
    if |list| > 0 {
      NothingRepeated(list[..|list| - 1], before);
    }
  }

  lemma EmptyTrace()
    ensures LevelOf([]) == Idle
  {
  }

  lemma {:induction false} EmptiesCount(list: seq<Timed>)
    ensures Empties(list) == 0 <==> forall i :: 0 <= i < |list| ==> |list[i].info.actions| > 0
  {
    if |list| > 0 {
      var n := |list| - 1;
      EmptiesCount(list[..n]);
      if Empties(list) == 0 {
        forall i | 0 <= i < |list|
          ensures |list[i].info.actions| > 0
        {
          if i < n { assert list[..n][i] == list[i]; }
        }
      }
    }
  }

  lemma EmptyCounts()
    ensures Fails([]) == 0 && Checks([]) == 0 && Cases([]) == 0
  {
  }
}
