/**
 * The bug-detection pipeline of the UI tools (class BugDetector in
 * src/tools/bug_detector.py): two analysis passes produce issues, their
 * concatenation is annotated with a fix suggestion, and fixes are applied
 * to the code.
 *
 * An issue is a dictionary from field name to a small JSON-like value.
 */
module BugDetection {

  datatype Value = Null | Bool(b: bool) | Int(i: int) | Str(s: string)

  type Issue = map<string, Value>

  /** The analysis context passed by callers (framework, design system, style guide, ...). */
  type Context = map<string, Value>

  const FixSuggestionKey: string := "fix_suggestion"
  const AutoFixableKey: string := "auto_fixable"
  const PlaceholderFix: string := "Placeholder fix suggestion"

  /** The static-analysis pass: as shipped, it reports no issue. */
  function StaticAnalysis(code: string): (r: seq<Issue>)
    ensures |r| == 0
  {
    []
  }

  /** The UI-consistency pass: as shipped, it reports no issue. */
  function CheckUiConsistency(code: string, context: Context): (r: seq<Issue>)
    ensures |r| == 0
  {
    []
  }

  /** An issue that carries the placeholder suggestion and is marked not auto-fixable. */
  predicate Annotated(issue: Issue) {
    && FixSuggestionKey in issue && issue[FixSuggestionKey] == Str(PlaceholderFix)
    && AutoFixableKey in issue && issue[AutoFixableKey] == Bool(false)
  }

  /** What the annotation loop writes into one issue. */
  function Annotate(issue: Issue): (r: Issue)
    ensures Annotated(r)
    ensures r.Keys == issue.Keys + {FixSuggestionKey, AutoFixableKey}
    ensures forall k :: k in issue && k != FixSuggestionKey && k != AutoFixableKey ==> r[k] == issue[k]
    ensures Annotated(issue) ==> r == issue
  {
    issue[FixSuggestionKey := Str(PlaceholderFix)][AutoFixableKey := Bool(false)]
  }

  /** Every issue of a list annotated, in the same order. */
  function AnnotateAll(issues: seq<Issue>): (r: seq<Issue>)
    ensures |r| == |issues|
    ensures forall i :: 0 <= i < |issues| ==> r[i] == Annotate(issues[i])
  {
    if issues == [] then [] else [Annotate(issues[0])] + AnnotateAll(issues[1..])
  }

  /** The issues detect_bugs reports: the static ones, then the UI ones, each annotated. */
  function Detected(staticIssues: seq<Issue>, uiIssues: seq<Issue>): (r: seq<Issue>)
    ensures |r| == |staticIssues| + |uiIssues|
    ensures forall i :: 0 <= i < |r| ==> Annotated(r[i])
  {
    AnnotateAll(staticIssues + uiIssues)
  }

  /** Whatever the passes report, the static issues come first and the UI issues follow, in their own order. */
  lemma {:induction false} DetectedOrder(staticIssues: seq<Issue>, uiIssues: seq<Issue>)
    ensures Detected(staticIssues, uiIssues) == AnnotateAll(staticIssues) + AnnotateAll(uiIssues)
  {
    var all := staticIssues + uiIssues;
    var lhs, rhs := AnnotateAll(all), AnnotateAll(staticIssues) + AnnotateAll(uiIssues);
    forall i | 0 <= i < |all| ensures lhs[i] == rhs[i] {
      if i < |staticIssues| {
        assert all[i] == staticIssues[i];
      } else {
        assert all[i] == uiIssues[i - |staticIssues|];
      }
    }
  }

  /** Every reported issue carries a suggestion and none is auto-fixable. */
  lemma DetectedAnnotated(staticIssues: seq<Issue>, uiIssues: seq<Issue>)
    ensures forall issue :: issue in Detected(staticIssues, uiIssues) ==> Annotated(issue)
  {
    var r := Detected(staticIssues, uiIssues);
    forall issue | issue in r ensures Annotated(issue) {
      var i :| 0 <= i < |r| && r[i] == issue;
    }
  }

  /** Annotating again changes nothing. */
  lemma AnnotateAllIdempotent(issues: seq<Issue>)
    ensures AnnotateAll(AnnotateAll(issues)) == AnnotateAll(issues)
  {
  }

  /** With the passes as shipped, no code and no context yields an issue. */
  lemma DetectsNothing(code: string, context: Context)
    ensures Detected(StaticAnalysis(code), CheckUiConsistency(code, context)) == []
  {
  }

  class BugDetector {
    /** Issue ids the detector has recorded; nothing adds to it. */
    var knownIssues: set<string>

    constructor ()
      ensures knownIssues == {}
    {
      knownIssues := {};
    }

    /** Runs both passes on `code`, concatenates their issues and annotates them. */
    method DetectBugs(code: string, context: Context) returns (issues: array<Issue>)
      ensures fresh(issues)
      ensures issues[..] == Detected(StaticAnalysis(code), CheckUiConsistency(code, context))
      ensures knownIssues == old(knownIssues)
    {
      var found := StaticAnalysis(code) + CheckUiConsistency(code, context);
      var all := new Issue[|found|](i requires 0 <= i < |found| => found[i]);
      issues := GenerateFixSuggestions(all);
    }

    /** Writes the placeholder suggestion and auto_fixable = false into every issue, in place. */
    method GenerateFixSuggestions(issues: array<Issue>) returns (annotated: array<Issue>)
      modifies issues
      ensures annotated == issues
      ensures issues[..] == AnnotateAll(old(issues[..]))
    {
      for i := 0 to issues.Length
        invariant forall j :: 0 <= j < i ==> issues[j] == Annotate(old(issues[j]))
        invariant forall j :: i <= j < issues.Length ==> issues[j] == old(issues[j])
      {
        issues[i] := Annotate(issues[i]);
      }
      annotated := issues;
    }

    /** Applying a fix returns the code unchanged, whichever issue is named. */
    function ApplyFix(code: string, issueId: string): (fixed: string)
      ensures fixed == code
    {
      code
    }
  }
}
