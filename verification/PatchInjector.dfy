/**
 The loop that injects coverage code into a script: it goes through the list of lines and
 inserts a patch behind each line with a marker, into the list it is going through, so that
 the inserted lines are visited as well.
 */
module PatchInjector {
  import opened Alerts
  import opened Text

  /** A marker, and the lines of its patch without their line ends. */
  datatype Rule = Rule(marker: string, patch: seq<string>)

  /** The first rule from index n on whose marker is in the line. */
  function FirstMatch(rules: seq<Rule>, line: string, n: nat): Option<Rule>
    requires n <= |rules|
    decreases |rules| - n
  {
    if n == |rules| then None
    else if Contains(line, rules[n].marker) then Some(rules[n])
    else FirstMatch(rules, line, n + 1)
  }

  function WithLineEnds(patch: seq<string>): (r: seq<string>)
    ensures |r| == |patch|
  {
    seq(|patch|, i requires 0 <= i < |patch| => patch[i] + "\n")
  }

  /** The lines inserted behind a line. */
  function Inserted(rules: seq<Rule>, line: string): seq<string> {
    match FirstMatch(rules, line, 0)
    case None => []
    case Some(rule) => WithLineEnds(rule.patch)
  }

  // ----- What the list becomes -----

  /** A line followed by its patch, the lines of which are followed by theirs, down to a depth. */
  function Expand(rules: seq<Rule>, line: string, depth: nat): seq<string>
    decreases depth, 0
  {
    if depth == 0 then [] else [line] + ExpandAll(rules, Inserted(rules, line), depth - 1)
  }

  function ExpandAll(rules: seq<Rule>, lines: seq<string>, depth: nat): seq<string>
    decreases depth, |lines| + 1
  {
    if lines == [] then []
    else Expand(rules, lines[0], depth) + ExpandAll(rules, lines[1..], depth)
  }

  /** The patches reached from the line nest less deep than the depth. */
  predicate Safe(rules: seq<Rule>, line: string, depth: nat)
    decreases depth
  {
    depth > 0 &&
    forall i :: 0 <= i < |Inserted(rules, line)| ==> Safe(rules, Inserted(rules, line)[i], depth - 1)
  }

  predicate AllSafe(rules: seq<Rule>, lines: seq<string>, depth: nat) {
    forall i :: 0 <= i < |lines| ==> Safe(rules, lines[i], depth)
  }

  lemma {:induction false} SafeDeeper(rules: seq<Rule>, line: string, depth: nat, deeper: nat)
    requires Safe(rules, line, depth) && depth <= deeper
    ensures Safe(rules, line, deeper)
    ensures Expand(rules, line, deeper) == Expand(rules, line, depth)
    decreases depth, 0
  {
    var ls := Inserted(rules, line);
    AllSafeDeeper(rules, ls, depth - 1, deeper - 1);
  }

  lemma {:induction false} AllSafeDeeper(rules: seq<Rule>, lines: seq<string>, depth: nat, deeper: nat)
    requires AllSafe(rules, lines, depth) && depth <= deeper
    ensures AllSafe(rules, lines, deeper)
    ensures ExpandAll(rules, lines, deeper) == ExpandAll(rules, lines, depth)
    decreases depth, |lines| + 1
  {
    hide Expand, Safe;
    if lines != [] {
      assert AllSafe(rules, lines[1..], depth);
      SafeDeeper(rules, lines[0], depth, deeper);
      AllSafeDeeper(rules, lines[1..], depth, deeper);
      forall i | 0 <= i < |lines| ensures Safe(rules, lines[i], deeper) {
        assert i > 0 ==> lines[i] == lines[1..][i - 1];
      }
    }
  }

  lemma {:induction false} ExpandAllConcat(rules: seq<Rule>, a: seq<string>, b: seq<string>, depth: nat)
    ensures ExpandAll(rules, a + b, depth) == ExpandAll(rules, a, depth) + ExpandAll(rules, b, depth)
    decreases |a|
  {
    hide Expand;
    if a == [] {
      assert a + b == b;
    } else {
      ExpandAllConcat(rules, a[1..], b, depth);
      assert (a + b)[1..] == a[1..] + b;
    }
  }

  lemma {:induction false} ExpandAllLonger(rules: seq<Rule>, lines: seq<string>, depth: nat)
    requires depth > 0
    ensures |ExpandAll(rules, lines, depth)| >= |lines|
    decreases |lines|
  {
    hide Inserted;
    if lines != [] {
      ExpandAllLonger(rules, lines[1..], depth);
    }
  }

  // ----- The loop -----

  /** One round of the loop, at index i. */
  function InsertBehind(rules: seq<Rule>, lines: seq<string>, i: nat): seq<string>
    requires i < |lines|
  {
    lines[..i + 1] + Inserted(rules, lines[i]) + lines[i + 1..]
  }

  /** The lines before index i are done; those from i on still stand for their expansion. */
  ghost predicate OnTrack(rules: seq<Rule>, input: seq<string>, depth: nat, lines: seq<string>, i: nat) {
    && i <= |lines|
    && AllSafe(rules, lines[i..], depth)
    && lines[..i] + ExpandAll(rules, lines[i..], depth) == ExpandAll(rules, input, depth)
  }

  lemma {:induction false} RoundOnTrack(rules: seq<Rule>, input: seq<string>, depth: nat, lines: seq<string>, i: nat)
    requires depth > 0 && i < |lines| && OnTrack(rules, input, depth, lines, i)
    ensures OnTrack(rules, input, depth, InsertBehind(rules, lines, i), i + 1)
    ensures |ExpandAll(rules, InsertBehind(rules, lines, i)[i + 1..], depth)| < |ExpandAll(rules, lines[i..], depth)|
  {
    hide Inserted;
    var line, rest := lines[i], lines[i + 1..];
    var ls := Inserted(rules, line);
    var after := InsertBehind(rules, lines, i);
    assert lines[i..][0] == line && lines[i..][1..] == rest;
    assert Safe(rules, line, depth);
    AllSafeDeeper(rules, ls, depth - 1, depth);
    assert forall k :: 0 <= k < |rest| ==> rest[k] == lines[i..][k + 1];
    assert AllSafe(rules, rest, depth);
    assert after[i + 1..] == ls + rest;
    assert after[..i + 1] == lines[..i] + [line];
    ExpandAllConcat(rules, ls, rest, depth);
    assert ExpandAll(rules, lines[i..], depth) == [line] + ExpandAll(rules, after[i + 1..], depth);
  }

  /** The loop, on any list on which it terminates: it leaves the expansion of the lines it was
      given. */
  method InjectPatches(rules: seq<Rule>, input: seq<string>) returns (lines: seq<string>)
    requires AllSafe(rules, input, |rules| + 1)
    ensures lines == ExpandAll(rules, input, |rules| + 1)
  {
    hide AllSafe, ExpandAll, Inserted;
    ghost var depth := |rules| + 1;
    lines := input;
    var i := 0;
    StartOnTrack(rules, input, depth);
    while i < |lines|
      invariant OnTrack(rules, input, depth, lines, i)
      decreases |ExpandAll(rules, lines[i..], depth)|
    {
      RoundOnTrack(rules, input, depth, lines, i);
      lines := InsertPatch(rules, lines, i);
      i := i + 1;
    }
    EndOnTrack(rules, input, depth, lines);
  }

  lemma {:induction false} StartOnTrack(rules: seq<Rule>, input: seq<string>, depth: nat)
    requires AllSafe(rules, input, depth)
    ensures OnTrack(rules, input, depth, input, 0)
  {
    assert input[0..] == input;
  }

  lemma {:induction false} EndOnTrack(rules: seq<Rule>, input: seq<string>, depth: nat, lines: seq<string>)
    requires OnTrack(rules, input, depth, lines, |lines|)
    ensures lines == ExpandAll(rules, input, depth)
  {
    assert lines[..|lines|] == lines;
  }

  /** Insert the patch of the first marker in line i, line by line, behind it. */
  method InsertPatch(rules: seq<Rule>, input: seq<string>, i: nat) returns (lines: seq<string>)
    requires i < |input|
    ensures lines == InsertBehind(rules, input, i)
  {
    lines := input;
    var n := 0;
    while n < |rules|
      invariant n <= |rules| && lines == input
      invariant FirstMatch(rules, input[i], 0) == FirstMatch(rules, input[i], n)
    {
      if Contains(input[i], rules[n].marker) {
        var patch := rules[n].patch;
        for j := 0 to |patch|
          invariant lines == input[..i + 1] + WithLineEnds(patch)[..j] + input[i + 1..]
        {
          lines := lines[..i + j + 1] + [patch[j] + "\n"] + lines[i + j + 1..];
        }
        return;
      }
      n := n + 1;
    }
  }

  // ----- Termination, exactly -----

  /** The list after n rounds; the loop has ended once the index n is past the end. */
  function Rounds(rules: seq<Rule>, lines: seq<string>, n: nat): seq<string> {
    if n == 0 then lines
    else
      var before := Rounds(rules, lines, n - 1);
      if n - 1 < |before| then InsertBehind(rules, before, n - 1) else before
  }

  ghost predicate Terminates(rules: seq<Rule>, lines: seq<string>) {
    exists n: nat :: n >= |Rounds(rules, lines, n)|
  }

  /** No depth bounds the patches reached from the line. */
  ghost predicate Endless(rules: seq<Rule>, line: string) {
    forall depth: nat :: !Safe(rules, line, depth)
  }

  lemma {:induction false} CommonDepth(rules: seq<Rule>, lines: seq<string>) returns (depth: nat)
    requires forall i :: 0 <= i < |lines| ==> !Endless(rules, lines[i])
    ensures depth > 0 && AllSafe(rules, lines, depth)
  {
    hide Safe;
    if lines == [] {
      depth := 1;
    } else {
      var front, last := lines[..|lines| - 1], lines[|lines| - 1];
      var d := CommonDepth(rules, front);
      assert !Endless(rules, last);
      var e: nat :| Safe(rules, last, e);
      depth := d + e;
      AllSafeDeeper(rules, front, d, depth);
      SafeDeeper(rules, last, e, depth);
      forall i | 0 <= i < |lines| ensures Safe(rules, lines[i], depth) {
        assert i < |front| ==> lines[i] == front[i];
      }
    }
  }

  lemma {:induction false} SafeAbove(rules: seq<Rule>, line: string, depth: nat)
    requires AllSafe(rules, Inserted(rules, line), depth)
    ensures Safe(rules, line, depth + 1)
  {
    hide Inserted;
  }

  /** An endless line inserts an endless line. */
  lemma {:induction false} EndlessInserts(rules: seq<Rule>, line: string) returns (k: nat)
    requires Endless(rules, line)
    ensures k < |Inserted(rules, line)| && Endless(rules, Inserted(rules, line)[k])
  {
    hide Inserted;
    var ls := Inserted(rules, line);
    if forall i :: 0 <= i < |ls| ==> !Endless(rules, ls[i]) {
      var d := CommonDepth(rules, ls);
      SafeAbove(rules, line, d);
    }
    k :| 0 <= k < |ls| && Endless(rules, ls[k]);
  }

  /** An endless line keeps an endless line ahead of the index forever. */
  lemma {:induction false} EndlessAhead(rules: seq<Rule>, lines: seq<string>, start: nat, n: nat) returns (j: nat)
    requires start < |lines| && Endless(rules, lines[start])
    ensures n <= j < |Rounds(rules, lines, n)| && Endless(rules, Rounds(rules, lines, n)[j])
  {
    hide Endless, Inserted;
    if n == 0 {
      j := start;
    } else {
      var i := EndlessAhead(rules, lines, start, n - 1);
      var before := Rounds(rules, lines, n - 1);
      var ls := Inserted(rules, before[n - 1]);
      if i == n - 1 {
        var k := EndlessInserts(rules, before[i]);
        j := n + k;
        assert Rounds(rules, lines, n)[j] == ls[k];
      } else {
        j := i + |ls|;
        assert Rounds(rules, lines, n)[j] == before[i];
      }
    }
  }

  lemma {:induction false} RoundsOnTrack(rules: seq<Rule>, lines: seq<string>, depth: nat, n: nat)
    requires depth > 0 && AllSafe(rules, lines, depth)
    requires forall m :: 0 <= m < n ==> m < |Rounds(rules, lines, m)|
    ensures OnTrack(rules, lines, depth, Rounds(rules, lines, n), n)
  {
    hide AllSafe, ExpandAll, InsertBehind, OnTrack;
    if n == 0 {
      StartOnTrack(rules, lines, depth);
    } else {
      RoundsOnTrack(rules, lines, depth, n - 1);
      RoundOnTrack(rules, lines, depth, Rounds(rules, lines, n - 1), n - 1);
    }
  }

  lemma {:induction false} RoundsBounded(rules: seq<Rule>, lines: seq<string>, depth: nat, n: nat)
    requires depth > 0 && AllSafe(rules, lines, depth)
    requires forall m :: 0 <= m < n ==> m < |Rounds(rules, lines, m)|
    ensures |Rounds(rules, lines, n)| <= |ExpandAll(rules, lines, depth)|
  {
    hide AllSafe, ExpandAll, Rounds;
    RoundsOnTrack(rules, lines, depth, n);
    ExpandAllLonger(rules, Rounds(rules, lines, n)[n..], depth);
  }

  lemma {:induction false} SafeTerminates(rules: seq<Rule>, lines: seq<string>, depth: nat)
    requires depth > 0 && AllSafe(rules, lines, depth)
    ensures Terminates(rules, lines)
  {
    hide AllSafe, ExpandAll, Rounds;
    if forall n: nat :: n < |Rounds(rules, lines, n)| {
      RoundsBounded(rules, lines, depth, |ExpandAll(rules, lines, depth)|);
    }
  }

  /** The loop terminates if and only if no line of the list leads to patches that nest without
      end. */
  lemma {:induction false} TerminatesUnlessEndless(rules: seq<Rule>, lines: seq<string>)
    ensures Terminates(rules, lines) <==> forall i :: 0 <= i < |lines| ==> !Endless(rules, lines[i])
  {
    hide Endless, Rounds, AllSafe;
    if forall i :: 0 <= i < |lines| ==> !Endless(rules, lines[i]) {
      var depth := CommonDepth(rules, lines);
      SafeTerminates(rules, lines, depth);
    } else {
      var i :| 0 <= i < |lines| && Endless(rules, lines[i]);
      forall n: nat ensures n < |Rounds(rules, lines, n)| {
        var j := EndlessAhead(rules, lines, i, n);
      }
    }
  }

  // ----- The depth that decides -----

  /** The rules whose patches nest less deep than the depth. */
  ghost function SafeRules(rules: seq<Rule>, depth: nat): set<Rule> {
    set r | r in rules && AllSafe(rules, WithLineEnds(r.patch), depth)
  }

  lemma {:induction false} FirstMatchIsRule(rules: seq<Rule>, line: string, n: nat)
    requires n <= |rules| && FirstMatch(rules, line, n).Some?
    ensures FirstMatch(rules, line, n).value in rules
    decreases |rules| - n
  {
    hide Contains;
    if !Contains(line, rules[n].marker) {
      FirstMatchIsRule(rules, line, n + 1);
    }
  }

  lemma {:induction false} SafeByRule(rules: seq<Rule>, line: string, depth: nat)
    ensures Safe(rules, line, depth + 1) <==>
            FirstMatch(rules, line, 0).None? || FirstMatch(rules, line, 0).value in SafeRules(rules, depth)
  {
    hide FirstMatch;
    assert Safe(rules, line, depth + 1) <==> AllSafe(rules, Inserted(rules, line), depth);
    if FirstMatch(rules, line, 0).Some? {
      FirstMatchIsRule(rules, line, 0);
    }
  }

  lemma {:induction false} SafeRulesGrow(rules: seq<Rule>, depth: nat, deeper: nat)
    requires depth <= deeper
    ensures SafeRules(rules, depth) <= SafeRules(rules, deeper)
  {
    hide AllSafe;
    forall r | r in SafeRules(rules, depth) ensures r in SafeRules(rules, deeper) {
      AllSafeDeeper(rules, WithLineEnds(r.patch), depth, deeper);
    }
  }

  /** A depth that makes no further rule safe is followed by no depth that does. */
  lemma {:induction false} SafeRulesStay(rules: seq<Rule>, depth: nat, deeper: nat)
    requires SafeRules(rules, depth) == SafeRules(rules, depth + 1) && depth <= deeper
    ensures SafeRules(rules, deeper) == SafeRules(rules, depth)
    decreases deeper
  {
    if deeper > depth {
      SafeRulesStay(rules, depth, deeper - 1);
      SafeRulesGrow(rules, depth, deeper);
      forall r | r in SafeRules(rules, deeper) ensures r in SafeRules(rules, depth + 1) {
        var ls := WithLineEnds(r.patch);
        forall i | 0 <= i < |ls| ensures Safe(rules, ls[i], depth + 1) {
          SafeByRule(rules, ls[i], deeper - 1);
          SafeByRule(rules, ls[i], depth);
        }
      }
    }
  }

  lemma {:induction false} DistinctRules(rules: seq<Rule>)
    ensures |(set r | r in rules)| <= |rules|
  {
    if rules != [] {
      var n := |rules| - 1;
      DistinctRules(rules[..n]);
      assert (set r | r in rules) == (set r | r in rules[..n]) + {rules[n]} by {
        assert rules == rules[..n] + [rules[n]];
      }
    }
  }

  lemma {:induction false} Subset(a: set<Rule>, b: set<Rule>)
    requires a <= b
    ensures |a| <= |b| && (|a| == |b| ==> a == b)
  {
    assert b == a + (b - a);
    if |a| == |b| {
      assert b - a == {};
    }
  }

  /** Up to the depth at which the safe rules stop growing there is one more with each. */
  lemma {:induction false} SafeRulesCount(rules: seq<Rule>, depth: nat)
    ensures |SafeRules(rules, depth)| >= depth || SafeRules(rules, depth) == SafeRules(rules, depth + 1)
  {
    hide SafeRules;
    if depth > 0 {
      SafeRulesCount(rules, depth - 1);
      SafeRulesGrow(rules, depth - 1, depth);
      Subset(SafeRules(rules, depth - 1), SafeRules(rules, depth));
      if SafeRules(rules, depth - 1) == SafeRules(rules, depth) {
        SafeRulesStay(rules, depth - 1, depth + 1);
      }
    }
  }

  lemma {:induction false} SafeRulesSettle(rules: seq<Rule>, deeper: nat)
    requires deeper >= |rules|
    ensures SafeRules(rules, deeper) == SafeRules(rules, |rules|)
  {
    hide AllSafe;
    var n, all := |rules|, set r | r in rules;
    assert SafeRules(rules, n) <= all && SafeRules(rules, n + 1) <= all;
    SafeRulesCount(rules, n);
    SafeRulesGrow(rules, n, n + 1);
    DistinctRules(rules);
    Subset(SafeRules(rules, n), all);
    SafeRulesStay(rules, n, deeper);
  }

  /** Whether patches nest without end behind a line shows at a depth of one more than there are
      rules. */
  lemma {:induction false} EndlessExactly(rules: seq<Rule>, line: string)
    ensures Endless(rules, line) <==> !Safe(rules, line, |rules| + 1)
  {
    hide Safe, SafeRules;
    if !Endless(rules, line) {
      var e: nat :| Safe(rules, line, e);
      var d := e + |rules|;
      SafeDeeper(rules, line, e, d + 1);
      SafeByRule(rules, line, d);
      SafeRulesSettle(rules, d);
      SafeByRule(rules, line, |rules|);
    }
  }

  /** The loop terminates on a list if and only if the patches nest no deeper than there are rules. */
  lemma {:induction false} TerminatesExactly(rules: seq<Rule>, lines: seq<string>)
    ensures Terminates(rules, lines) <==> AllSafe(rules, lines, |rules| + 1)
  {
    hide Endless, Safe;
    TerminatesUnlessEndless(rules, lines);
    forall i | 0 <= i < |lines| ensures Endless(rules, lines[i]) <==> !Safe(rules, lines[i], |rules| + 1) {
      EndlessExactly(rules, lines[i]);
    }
  }

  /** A patch one of whose lines gets the same patch again nests without end. */
  lemma {:induction false} OwnPatchIsUnsafe(rules: seq<Rule>, line: string, rule: Rule, i: nat, depth: nat)
    requires FirstMatch(rules, line, 0) == Some(rule)
    requires i < |rule.patch| && FirstMatch(rules, rule.patch[i] + "\n", 0) == Some(rule)
    ensures !Safe(rules, line, depth)
    decreases depth
  {
    hide FirstMatch;
    if depth > 0 {
      assert Inserted(rules, line)[i] == rule.patch[i] + "\n";
      OwnPatchIsUnsafe(rules, rule.patch[i] + "\n", rule, i, depth - 1);
    }
  }

  /** One rule whose patch is its marker: the loop never ends on a list with a marked line. */
  lemma {:induction false} OwnMarkerNeverEnds(marker: string, lines: seq<string>, k: nat)
    requires k < |lines| && Contains(lines[k], marker)
    ensures !Terminates([Rule(marker, [marker])], lines)
  {
    var rule := Rule(marker, [marker]);
    assert (marker + "\n")[0..][..|marker|] == marker;
    assert Contains(marker + "\n", marker);
    hide Contains, Safe, Terminates;
    OwnPatchIsUnsafe([rule], lines[k], rule, 0, 2);
    TerminatesExactly([rule], lines);
  }

  // ----- Patches without markers -----

  predicate NoMarkerInPatches(rules: seq<Rule>) {
    forall r, i, m :: 0 <= r < |rules| && 0 <= i < |rules[r].patch| && 0 <= m < |rules| ==>
      !Contains(rules[r].patch[i] + "\n", rules[m].marker)
  }

  /** Each line followed by the patch of the first marker in it. */
  function FlatMap(rules: seq<Rule>, lines: seq<string>): seq<string> {
    if lines == [] then [] else [lines[0]] + Inserted(rules, lines[0]) + FlatMap(rules, lines[1..])
  }

  lemma {:induction false} FirstMatchFrom(rules: seq<Rule>, line: string, n: nat)
    requires n <= |rules|
    ensures match FirstMatch(rules, line, n)
            case None => forall m :: n <= m < |rules| ==> !Contains(line, rules[m].marker)
            case Some(rule) =>
              exists m :: n <= m < |rules| && rule == rules[m] && Contains(line, rules[m].marker)
                          && forall k :: n <= k < m ==> !Contains(line, rules[k].marker)
    decreases |rules| - n
  {
    hide Contains;
    if n < |rules| {
      FirstMatchFrom(rules, line, n + 1);
      if Contains(line, rules[n].marker) {
        assert FirstMatch(rules, line, n) == Some(rules[n]);
      } else if FirstMatch(rules, line, n).Some? {
        var m :| n + 1 <= m < |rules|
                 && FirstMatch(rules, line, n + 1).value == rules[m] && Contains(line, rules[m].marker)
                 && forall k :: n + 1 <= k < m ==> !Contains(line, rules[k].marker);
        assert forall k :: n <= k < m ==> !Contains(line, rules[k].marker);
      }
    }
  }

  /** Behind a line goes the patch of the first rule whose marker stands anywhere in it, each line
      of the patch with a line end; nothing if there is no such rule. */
  lemma {:induction false} InsertedExactly(rules: seq<Rule>, line: string, m: nat)
    requires m <= |rules| && forall k :: 0 <= k < m ==> !Holds(line, rules[k].marker)
    requires m < |rules| ==> Holds(line, rules[m].marker)
    ensures |Inserted(rules, line)| == if m < |rules| then |rules[m].patch| else 0
    ensures m < |rules| ==>
              forall i :: 0 <= i < |rules[m].patch| ==> Inserted(rules, line)[i] == rules[m].patch[i] + "\n"
  {
    hide Contains, Holds;
    forall k | 0 <= k < |rules| ensures Contains(line, rules[k].marker) <==> Holds(line, rules[k].marker) {
      ContainsExactly(line, rules[k].marker);
    }
    FirstMatchFrom(rules, line, 0);
    if m < |rules| {
      assert FirstMatch(rules, line, 0).Some?;
    }
  }

  lemma {:induction false} PatchLinesInsertNothing(rules: seq<Rule>, line: string, i: nat)
    requires NoMarkerInPatches(rules) && i < |Inserted(rules, line)|
    ensures Inserted(rules, Inserted(rules, line)[i]) == []
  {
    hide Contains;
    FirstMatchFrom(rules, line, 0);
    FirstMatchFrom(rules, Inserted(rules, line)[i], 0);
  }

  lemma {:induction false} PatchesSafe(rules: seq<Rule>, line: string)
    requires NoMarkerInPatches(rules)
    ensures Safe(rules, line, 2)
    ensures Expand(rules, line, 2) == [line] + Inserted(rules, line)
  {
    hide Inserted, NoMarkerInPatches;
    var ls := Inserted(rules, line);
    forall i | 0 <= i < |ls| ensures Safe(rules, ls[i], 1) && Inserted(rules, ls[i]) == [] {
      PatchLinesInsertNothing(rules, line, i);
    }
    NothingInserted(rules, ls);
  }

  lemma {:induction false} NothingInserted(rules: seq<Rule>, ls: seq<string>)
    requires forall i :: 0 <= i < |ls| ==> Inserted(rules, ls[i]) == []
    ensures ExpandAll(rules, ls, 1) == ls
  {
    hide Inserted;
    if ls != [] {
      NothingInserted(rules, ls[1..]);
      assert Expand(rules, ls[0], 1) == [ls[0]];
      assert ls == [ls[0]] + ls[1..];
    }
  }

  lemma {:induction false} MarkerFree(rules: seq<Rule>, lines: seq<string>)
    requires NoMarkerInPatches(rules)
    ensures AllSafe(rules, lines, 2) && ExpandAll(rules, lines, 2) == FlatMap(rules, lines)
  {
    hide Safe, Expand, Inserted, NoMarkerInPatches;
    if lines != [] {
      PatchesSafe(rules, lines[0]);
      MarkerFree(rules, lines[1..]);
      forall i | 0 <= i < |lines| ensures Safe(rules, lines[i], 2) {
        PatchesSafe(rules, lines[i]);
      }
    }
  }

  /** Any depth at which a list is safe gives the same expansion. */
  lemma {:induction false} DepthIrrelevant(rules: seq<Rule>, lines: seq<string>, depth: nat)
    requires AllSafe(rules, lines, depth)
    ensures AllSafe(rules, lines, |rules| + 1)
    ensures ExpandAll(rules, lines, |rules| + 1) == ExpandAll(rules, lines, depth)
  {
    hide Safe, ExpandAll;
    forall i | 0 <= i < |lines| ensures Safe(rules, lines[i], |rules| + 1) {
      assert !Endless(rules, lines[i]);
      EndlessExactly(rules, lines[i]);
    }
    AllSafeDeeper(rules, lines, depth, depth + |rules| + 1);
    AllSafeDeeper(rules, lines, |rules| + 1, depth + |rules| + 1);
  }

  /** When no patch line contains a marker, the loop terminates on every list and leaves each line
      followed by the patch of the first marker it contains. */
  lemma {:induction false} InjectionIsFlatMap(rules: seq<Rule>, lines: seq<string>)
    requires NoMarkerInPatches(rules)
    ensures AllSafe(rules, lines, |rules| + 1) && ExpandAll(rules, lines, |rules| + 1) == FlatMap(rules, lines)
  {
    hide NoMarkerInPatches, AllSafe, ExpandAll;
    MarkerFree(rules, lines);
    DepthIrrelevant(rules, lines, 2);
  }

  /** Where line k of the input ends up. */
  function Place(rules: seq<Rule>, lines: seq<string>, depth: nat, k: nat): nat
    requires k <= |lines|
  {
    |ExpandAll(rules, lines[..k], depth)|
  }

  /** The lines of the input all survive, in their order. */
  lemma {:induction false} InputSurvives(rules: seq<Rule>, lines: seq<string>, depth: nat, k: nat)
    requires depth > 0 && k < |lines|
    ensures Place(rules, lines, depth, k) < Place(rules, lines, depth, k + 1) <= |ExpandAll(rules, lines, depth)|
    ensures ExpandAll(rules, lines, depth)[Place(rules, lines, depth, k)] == lines[k]
  {
    hide Inserted;
    assert lines == lines[..k] + lines[k..];
    ExpandAllConcat(rules, lines[..k], lines[k..], depth);
    assert lines[k..][0] == lines[k];
    assert lines == lines[..k + 1] + lines[k + 1..];
    ExpandAllConcat(rules, lines[..k + 1], lines[k + 1..], depth);
    assert lines[..k + 1] == lines[..k] + [lines[k]];
    ExpandAllConcat(rules, lines[..k], [lines[k]], depth);
    assert ExpandAll(rules, [lines[k]], depth) == Expand(rules, lines[k], depth);
  }
}
