/** Suite selection, extras/beast/unit_test/match.hpp. */
module Selector {
  import opened Suites

  datatype Mode = All | Automatch | Suite | Library | Module | NoMore

  class Selector {
    var mode: Mode
    const pat: string
    var library: string

    constructor (mode: Mode, pattern: string)
      ensures this.mode == (if mode.Automatch? && |pattern| == 0 then All else mode)
      ensures pat == pattern && library == ""
    {
      this.mode := if mode.Automatch? && |pattern| == 0 then All else mode;
      this.pat := pattern;
      this.library := "";
    }

    method Call(s: SuiteInfo) returns (chosen: bool)
      modifies this
      ensures chosen == IsChosen(old(mode), pat, s)
      ensures mode == NextMode(old(mode), pat, s)
      ensures library == if old(mode).Automatch? && mode.Module? then s.library else old(library)
    {
      match mode {
        case Automatch =>
          if s.name == pat || s.FullName() == pat {
            mode := NoMore;
            return true;
          }
          if pat == s.moduleName {
            mode := Module;
            library := s.library;
            return !s.manual;
          }
          if pat == s.library {
            mode := Library;
            return !s.manual;
          }
          return false;
        case Suite => return pat == s.name;
        case Module => return pat == s.moduleName && !s.manual;
        case Library => return pat == s.library && !s.manual;
        case NoMore => return false;
        case All => return !s.manual;
      }
    }

    /** The selector applied along a list. */
    method SelectAll(suites: seq<SuiteInfo>) returns (chosen: seq<bool>)
      modifies this
      ensures chosen == Choices(old(mode), pat, suites)
    {
      chosen := [];
      for i := 0 to |suites|
        invariant chosen + Choices(mode, pat, suites[i..]) == Choices(old(mode), pat, suites)
      {
        var c := Call(suites[i]);
        assert suites[i..][1..] == suites[i + 1..];
        ghost var more := Choices(mode, pat, suites[i + 1..]);
        assert chosen + ([c] + more) == (chosen + [c]) + more;
        chosen := chosen + [c];
      }
    }
  }

  /** A new selector along a list. Without a pattern, automatic selection takes
      every suite that is not manual. */
  method SelectFrom(mode: Mode, pattern: string, suites: seq<SuiteInfo>) returns (chosen: seq<bool>)
    ensures |chosen| == |suites|
    ensures mode.Automatch? && pattern == "" ==> forall i :: 0 <= i < |suites| ==> chosen[i] == !suites[i].manual
    ensures !(mode.Automatch? && pattern == "") ==> chosen == Choices(mode, pattern, suites)
  {
    var s := new Selector(mode, pattern);
    chosen := s.SelectAll(suites);
    forall i | 0 <= i < |suites|
      ensures Choices(All, pattern, suites)[i] == !suites[i].manual
    {
      SteadyChoices(All, pattern, suites, i);
    }
  }

  // ---- how a suite matches a pattern ----

  /** By the name, or by library, module and name with dots between them. */
  predicate NameMatches(pat: string, s: SuiteInfo) {
    pat == s.name || pat == s.library + "." + s.moduleName + "." + s.name
  }

  predicate Matches(pat: string, s: SuiteInfo) {
    NameMatches(pat, s) || s.moduleName == pat || s.library == pat
  }

  predicate IsChosen(mode: Mode, pat: string, s: SuiteInfo) {
    match mode
    case Automatch => NameMatches(pat, s) || (Matches(pat, s) && !s.manual)
    case Suite => s.name == pat
    case Module => s.moduleName == pat && !s.manual
    case Library => s.library == pat && !s.manual
    case NoMore => false
    case All => !s.manual
  }

  function NextMode(mode: Mode, pat: string, s: SuiteInfo): Mode {
    if !mode.Automatch? || !Matches(pat, s) then mode
    else if NameMatches(pat, s) then NoMore
    else if s.moduleName == pat then Module
    else Library
  }

  function Choices(mode: Mode, pat: string, suites: seq<SuiteInfo>): (r: seq<bool>)
    decreases |suites|
    ensures |r| == |suites|
  {
    if |suites| == 0 then []
    else [IsChosen(mode, pat, suites[0])] + Choices(NextMode(mode, pat, suites[0]), pat, suites[1..])
  }

  /** In a mode that does not change, every suite is judged on its own. */
  lemma {:induction false} SteadyChoices(mode: Mode, pat: string, suites: seq<SuiteInfo>, i: nat)
    requires !mode.Automatch? && i < |suites|
    ensures Choices(mode, pat, suites)[i] == IsChosen(mode, pat, suites[i])
    ensures mode.Suite? ==> (Choices(mode, pat, suites)[i] <==> suites[i].name == pat)
    ensures mode.Module? ==> (Choices(mode, pat, suites)[i] <==> suites[i].moduleName == pat && !suites[i].manual)
    ensures mode.Library? ==> (Choices(mode, pat, suites)[i] <==> suites[i].library == pat && !suites[i].manual)
    ensures mode.All? ==> (Choices(mode, pat, suites)[i] <==> !suites[i].manual)
    ensures !mode.NoMore? || !Choices(mode, pat, suites)[i]
  {
    if i > 0 {
      SteadyChoices(mode, pat, suites[1..], i - 1);
    }
  }

  /** The automatic selection, for the first suite f that matches in any way:
      nothing before it; only it when its name matches; otherwise from it on the
      non-manual suites of that module, or else of that library. */
  lemma {:induction false} AutomatchChoices(pat: string, suites: seq<SuiteInfo>, f: nat, i: nat)
    requires i < |suites| && f <= |suites|
    requires forall k :: 0 <= k < f ==> !Matches(pat, suites[k])
    requires f < |suites| ==> Matches(pat, suites[f])
    ensures Choices(Automatch, pat, suites)[i] <==>
            && f <= i
            && (if pat == suites[f].name || pat == suites[f].library + "." + suites[f].moduleName + "." + suites[f].name
                then i == f
                else if suites[f].moduleName == pat then suites[i].moduleName == pat && !suites[i].manual
                else suites[i].library == pat && !suites[i].manual)
  {
    if f > 0 {
      if i > 0 {
        AutomatchChoices(pat, suites[1..], f - 1, i - 1);
      }
    } else if i > 0 {
      SteadyChoices(NextMode(Automatch, pat, suites[0]), pat, suites[1..], i - 1);
    }
  }

  /** A suite's full name chooses it, manual or not. */
  lemma FullNameChooses(s: SuiteInfo)
    ensures Choices(Automatch, s.library + "." + s.moduleName + "." + s.name, [s]) == [true]
  {
  }

  /** A pattern that no suite has as its name, module, library or full name
      chooses nothing. */
  lemma OtherPatternsChooseNothing(pat: string, suites: seq<SuiteInfo>)
    requires forall s :: s in suites ==>
               pat !in {s.name, s.moduleName, s.library, s.library + "." + s.moduleName + "." + s.name}
    ensures forall i :: 0 <= i < |suites| ==> !Choices(Automatch, pat, suites)[i]
  {
    forall i | 0 <= i < |suites|
      ensures !Choices(Automatch, pat, suites)[i]
    {
      AutomatchChoices(pat, suites, |suites|, i);
    }
  }

  /** What the comment on match_auto says of a module match: module and library
      both agree with the first suite matched. */
  predicate IsDocumentedModuleChoice(pat: string, first: SuiteInfo, s: SuiteInfo) {
    s.moduleName == pat && s.library == first.library && !s.manual
  }

  /** After a module match the choices are the documented ones exactly when no
      later non-manual suite has the same module name in another library. */
  lemma ModuleChoicesAreDocumentedExactly(pat: string, suites: seq<SuiteInfo>, f: nat)
    requires f < |suites| && forall k :: 0 <= k < f ==> !Matches(pat, suites[k])
    requires suites[f].moduleName == pat && !NameMatches(pat, suites[f])
    ensures (forall i :: f <= i < |suites| ==>
               (Choices(Automatch, pat, suites)[i] <==> IsDocumentedModuleChoice(pat, suites[f], suites[i])))
       <==> (forall i :: f <= i < |suites| && suites[i].moduleName == pat && !suites[i].manual ==>
               suites[i].library == suites[f].library)
  {
    forall i | f <= i < |suites|
      ensures Choices(Automatch, pat, suites)[i] <==> suites[i].moduleName == pat && !suites[i].manual
    {
      AutomatchChoices(pat, suites, f, i);
    }
  }

  /** A list on which they are not: the second suite is chosen as well. */
  lemma LibraryIsNotCompared()
    ensures var a, b := SuiteInfo("x", "m", "l", false, []), SuiteInfo("y", "m", "k", false, []);
            Choices(Automatch, "m", [a, b]) == [true, true] && !IsDocumentedModuleChoice("m", a, b)
  {
    var a, b := SuiteInfo("x", "m", "l", false, []), SuiteInfo("y", "m", "k", false, []);
    assert |a.FullName()| == 5;
    AutomatchChoices("m", [a, b], 0, 0);
    AutomatchChoices("m", [a, b], 0, 1);
  }
}
