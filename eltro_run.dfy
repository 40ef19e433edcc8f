/**
 * What running the registered tree does in lib/eltro.mjs, as functions of a
 * run state: `__runTest` (lib/eltro.mjs:114-239), `__runGroup`
 * (lib/eltro.mjs:241-263) and the root loop of `run`
 * (lib/eltro.mjs:265-309). The groups do not change while running; only
 * the tests' `error` fields, the counters, the failure list and the order
 * in which tests and hooks are run do.
 */
module EltroRun {
  import opened Values
  import opened Execution
  import opened EltroTree

  // ---------------------------------------------------------------------------
  // Normalizing a rejection (lib/eltro.mjs:196-212)

  /** The `prefix` argument of `__runTest`. */
  datatype Prefix = TestPrefix | BeforePrefix | AfterPrefix

  function PrefixLabel(p: Prefix): string {
    match p
    case TestPrefix => "Test"
    case BeforePrefix => "Before"
    case AfterPrefix => "After"
  }

  function RejectedWith(p: Prefix): string {
    PrefixLabel(p) + " promise rejected with "
  }

  /**
   * The error recorded for a rejection: an error-shaped value as it is, a
   * falsy one replaced by a fixed error, anything else wrapped in a new
   * error naming its JSON text and keeping the original.
   */
  function Normalize(p: Prefix, err: Value): (e: Value)
    ensures Truthy(e) && ErrorShaped(e)
    ensures Truthy(err) && ErrorShaped(err) ==> e == err
    ensures Truthy(err) && !ErrorShaped(err) ==>
              e.Error? && e.originalError == Some(err) && RejectedWith(p) <= e.message
  {
    if !Truthy(err) then Error(RejectedWith(p) + "empty message", None)
    else if !ErrorShaped(err) then
      match Stringify(err)
      case Stringified(text) => Error(RejectedWith(p) + text, Some(err))
      case StringifyThrows(asText, reason) =>
        Error(RejectedWith(p) + asText + " (Error stringifying: " + reason + ")", Some(err))
    else err
  }

  /** Normalizing twice is normalizing once. */
  lemma NormalizeIdempotent(p: Prefix, q: Prefix, err: Value)
    ensures Normalize(q, Normalize(p, err)) == Normalize(p, err)
  {
  }

  /** Every falsy rejection gives the same error, which says the message was empty. */
  lemma FalsyRejectionsAlike(p: Prefix, a: Value, b: Value)
    requires !Truthy(a) && !Truthy(b)
    ensures Normalize(p, a) == Normalize(p, b)
    ensures Normalize(p, a).message == RejectedWith(p) + "empty message"
  {
  }

  /**
   * A string rejection is wrapped in an error whose message ends in the
   * JSON literal of the string, which decodes back to the string.
   */
  lemma TextRejectionRecoverable(p: Prefix, s: string)
    requires s != ""
    ensures var m := Normalize(p, Text(s)).message;
            var n := |RejectedWith(p)|;
            |m| >= n + 2 && m[..n] == RejectedWith(p) && m[n] == '"' && m[|m| - 1] == '"'
            && JsonUnescape(m[n + 1..|m| - 1]) == Some(s)
  {
    assert Normalize(p, Text(s)).message == RejectedWith(p) + "\"" + JsonEscape(s) + "\"";
    QuotedAfter(RejectedWith(p), JsonEscape(s));
    JsonRoundTrip(s);
  }

  /** Where the quoted part of `a` followed by a quoted `e` sits. */
  lemma QuotedAfter(a: string, e: string)
    ensures var m := a + "\"" + e + "\"";
            |m| >= |a| + 2 && m[..|a|] == a && m[|a|] == '"' && m[|m| - 1] == '"' && m[|a| + 1..|m| - 1] == e
  {
    var m := a + "\"" + e + "\"";
    assert m[|a| + 1..|m| - 1] == e;
  }

  /** `reject('boom')` in a test is recorded as `Test promise rejected with "boom"`. */
  lemma BoomMessage()
    ensures Normalize(TestPrefix, Text("boom")).message == RejectedWith(TestPrefix) + "\"boom\""
  {
    var s := "boom";
    assert forall i :: 0 <= i < |s| ==> PlainJsonChar(s[i]);
    PlainTextEscapesToItself(s);
    assert Truthy(Text(s)) && !ErrorShaped(Text(s));
    assert Stringify(Text(s)) == Stringified("\"" + s + "\"");
  }

  // ---------------------------------------------------------------------------
  // One test (lib/eltro.mjs:114-218)

  /** The state running changes: the test arena, the counters, `failedTests`, and the order of runs. */
  datatype RunState = RunState(tests: seq<Test>, stats: Counts, failedTests: seq<nat>, ran: seq<nat>)

  /** `if (test.error)` */
  predicate ErrorSet(t: Test) {
    t.error.Some? && Truthy(t.error.value)
  }

  /**
   * `__runTest(stats, test, prefix)`: a skipped test counts as skipped;
   * otherwise its body is raced against the timeout; a pass counts only for
   * real tests (not hooks), a failure stores the normalized error and counts
   * as failed. A test whose `error` is set afterwards (a stored error is
   * never cleared) is appended to `failedTests`.
   */
  function RunTest(s: RunState, id: nat, p: Prefix): (r: RunState)
    requires id < |s.tests|
    ensures |r.tests| == |s.tests| && r.ran == s.ran + [id]
    ensures Extends(s, r)
  {
    var t := s.tests[id];
    var (t', c) :=
      if t.skipTest then (t, s.stats.(skipped := s.stats.skipped + 1))
      else match Settle(t.body, EffectiveTimeout(t.customTimeout))
        case Pass => (t, if p == TestPrefix then s.stats.(passed := s.stats.passed + 1) else s.stats)
        case Fail(err) => (t.(error := Some(Normalize(p, err))), s.stats.(failed := s.stats.failed + 1));
    RunState(s.tests[id := t'], c, s.failedTests + (if ErrorSet(t') then [id] else []), s.ran + [id])
  }

  /**
   * Running one test changes only that test's `error`, bumps at most one
   * counter by one, and reports the test as failed exactly when its error
   * is set afterwards.
   */
  lemma RunTestEffect(s: RunState, id: nat, p: Prefix)
    requires id < |s.tests|
    ensures var r := RunTest(s, id, p);
            var t := s.tests[id];
            var o := Settle(t.body, EffectiveTimeout(t.customTimeout));
            (forall i :: 0 <= i < |s.tests| && i != id ==> r.tests[i] == s.tests[i])
            && r.tests[id] == t.(error := r.tests[id].error)
            && (t.skipTest ==> r.tests[id] == t && r.stats == s.stats.(skipped := s.stats.skipped + 1))
            && (!t.skipTest && o.Pass? ==>
                  r.tests[id] == t
                  && r.stats == if p == TestPrefix then s.stats.(passed := s.stats.passed + 1) else s.stats)
            && (!t.skipTest && o.Fail? ==>
                  r.tests[id].error == Some(Normalize(p, o.reason))
                  && r.stats == s.stats.(failed := s.stats.failed + 1))
            && r.failedTests == s.failedTests + (if ErrorSet(r.tests[id]) then [id] else [])
  {
  }

  /** A test that failed on an earlier run and passes now is still reported as failed. */
  lemma StaleErrorReported(s: RunState, id: nat)
    requires id < |s.tests| && ErrorSet(s.tests[id]) && !s.tests[id].skipTest
    requires Settle(s.tests[id].body, EffectiveTimeout(s.tests[id].customTimeout)) == Pass
    ensures RunTest(s, id, TestPrefix).failedTests == s.failedTests + [id]
    ensures RunTest(s, id, TestPrefix).stats.passed == s.stats.passed + 1
  {
  }

  /** A test that never calls `done` fails with the timeout error for its own deadline. */
  lemma TimedOutTestRecordsDeadline(s: RunState, id: nat, p: Prefix)
    requires id < |s.tests| && !s.tests[id].skipTest
    requires s.tests[id].body.convention == CallbackStyle && s.tests[id].body.invocation.Returns?
    requires forall i :: 0 <= i < |s.tests[id].body.later| ==> !s.tests[id].body.later[i].DoneCalled?
    ensures RunTest(s, id, p).tests[id].error == Some(TimeoutError(EffectiveTimeout(s.tests[id].customTimeout)))
    ensures id in RunTest(s, id, p).failedTests
  {
    var b := s.tests[id].body;
    var ms := EffectiveTimeout(s.tests[id].customTimeout);
    MissingDoneTimesOut(b, ms, FirstTimerIndex(b.later));
  }

  // ---------------------------------------------------------------------------
  // Running leaves earlier state in place

  /** `r` extends `s`: same tests but for errors, counters only grow, logs only get longer. */
  ghost predicate Extends(s: RunState, r: RunState) {
    |r.tests| == |s.tests|
    && (forall i :: 0 <= i < |s.tests| ==> r.tests[i] == s.tests[i].(error := r.tests[i].error))
    && s.stats.passed <= r.stats.passed && s.stats.failed <= r.stats.failed && s.stats.skipped <= r.stats.skipped
    && s.ran <= r.ran && s.failedTests <= r.failedTests
    && Total(r.stats) - Total(s.stats) <= |r.ran| - |s.ran|
  }

  lemma ExtendsTrans(a: RunState, b: RunState, c: RunState)
    requires Extends(a, b) && Extends(b, c)
    ensures Extends(a, c)
  {
    forall i | 0 <= i < |a.tests| ensures c.tests[i] == a.tests[i].(error := c.tests[i].error) {
      assert b.tests[i] == a.tests[i].(error := b.tests[i].error);
    }
  }

  // ---------------------------------------------------------------------------
  // Groups (lib/eltro.mjs:241-263) and the roots (lib/eltro.mjs:278-282)

  /** The filter of the tests loop: not skipped, and exclusive exactly when the group has exclusive content. */
  predicate TestEligible(groupHas: bool, t: Test) {
    !t.skipTest && t.isExclusive == groupHas
  }

  /**
   * The filter of the group loops: not skipped, and the child holds or is
   * exclusive content exactly when its parent (or the engine, for a root)
   * does.
   */
  predicate GroupEligible(parentHas: bool, c: Group) {
    !c.skipTest && (c.hasExclusive || c.isExclusive) == parentHas
  }

  /** The tests loop of `__runGroup` over `ids`, with the group's `hasExclusive`. */
  function RunTests(s: RunState, ids: seq<nat>, groupHas: bool): (r: RunState)
    requires forall i :: 0 <= i < |ids| ==> ids[i] < |s.tests|
    ensures Extends(s, r)
    decreases |ids|
  {
    if ids == [] then s
    else
      var s1 := RunTests(s, ids[..|ids| - 1], groupHas);
      var id := ids[|ids| - 1];
      if TestEligible(groupHas, s1.tests[id]) then
        ExtendsTrans(s, s1, RunTest(s1, id, TestPrefix));
        RunTest(s1, id, TestPrefix)
      else s1
  }

  /** One more step of the tests loop: the next id runs when it is eligible. */
  lemma RunTestsStep(s: RunState, ids: seq<nat>, x: nat, groupHas: bool)
    requires x < |ids| && forall i :: 0 <= i < |ids| ==> ids[i] < |s.tests|
    ensures var s1 := RunTests(s, ids[..x], groupHas);
            RunTests(s, ids[..x + 1], groupHas)
              == if TestEligible(groupHas, s1.tests[ids[x]]) then RunTest(s1, ids[x], TestPrefix) else s1
  {
    assert ids[..x + 1][..x] == ids[..x];
  }

  /** The ids of `ids` the tests loop picks, in order: a reference definition. */
  function EligibleTests(ts: seq<Test>, ids: seq<nat>, groupHas: bool): (sel: seq<nat>)
    requires forall i :: 0 <= i < |ids| ==> ids[i] < |ts|
    ensures forall i :: 0 <= i < |sel| ==> sel[i] in ids && TestEligible(groupHas, ts[sel[i]])
    decreases |ids|
  {
    if ids == [] then []
    else
      var rest := EligibleTests(ts, ids[..|ids| - 1], groupHas);
      var id := ids[|ids| - 1];
      if TestEligible(groupHas, ts[id]) then rest + [id] else rest
  }

  /**
   * The tests loop runs exactly the eligible tests, in list order, counts
   * each as passed or failed, and counts nothing as skipped.
   */
  lemma {:induction false} RunTestsRunsEligible(s: RunState, ids: seq<nat>, groupHas: bool)
    requires forall i :: 0 <= i < |ids| ==> ids[i] < |s.tests|
    ensures var r := RunTests(s, ids, groupHas);
            var sel := EligibleTests(s.tests, ids, groupHas);
            r.ran == s.ran + sel
            && r.stats.passed + r.stats.failed == s.stats.passed + s.stats.failed + |sel|
            && r.stats.skipped == s.stats.skipped
    decreases |ids|
  {
    if ids != [] {
      var front := ids[..|ids| - 1];
      RunTestsRunsEligible(s, front, groupHas);
      var s1 := RunTests(s, front, groupHas);
      var id := ids[|ids| - 1];
      assert s1.tests[id] == s.tests[id].(error := s1.tests[id].error);
      if TestEligible(groupHas, s1.tests[id]) {
        var o := Settle(s1.tests[id].body, EffectiveTimeout(s1.tests[id].customTimeout));
        RunTestEffect(s1, id, TestPrefix);
      }
    }
  }

  /**
   * `__runGroup(g)`: the before hook; if it leaves its error set, nothing
   * else; otherwise the eligible tests, the eligible subgroups, and the after
   * hook.
   */
  function RunGroup(gs: seq<Group>, g: nat, s: RunState): (r: RunState)
    requires Shaped(gs, |s.tests|) && g < |gs|
    ensures Extends(s, r)
    decreases |gs| - g, 1, 0
  {
    var grp := gs[g];
    var s1 := if grp.before.Some? then RunTest(s, grp.before.value, BeforePrefix) else s;
    if grp.before.Some? && ErrorSet(s1.tests[grp.before.value]) then s1
    else
      var s2 := RunTests(s1, grp.tests, grp.hasExclusive);
      var s3 := RunSubgroups(gs, g, |grp.groups|, s2);
      ExtendsTrans(s, s1, s2);
      ExtendsTrans(s, s2, s3);
      if grp.after.Some? then
        ExtendsTrans(s, s3, RunTest(s3, grp.after.value, AfterPrefix));
        RunTest(s3, grp.after.value, AfterPrefix)
      else s3
  }

  /** The subgroups loop of `__runGroup(g)` over the first `k` subgroups. */
  function RunSubgroups(gs: seq<Group>, g: nat, k: nat, s: RunState): (r: RunState)
    requires Shaped(gs, |s.tests|) && g < |gs| && k <= |gs[g].groups|
    ensures Extends(s, r)
    decreases |gs| - g, 0, k
  {
    if k == 0 then s
    else
      var s1 := RunSubgroups(gs, g, k - 1, s);
      var c := gs[g].groups[k - 1];
      if GroupEligible(gs[g].hasExclusive, gs[c]) then
        ExtendsTrans(s, s1, RunGroup(gs, c, s1));
        RunGroup(gs, c, s1)
      else s1
  }

  /** The root loop of `run` over `roots`, with the engine's `hasExclusive`. */
  function RunRoots(gs: seq<Group>, roots: seq<nat>, e: bool, s: RunState): (r: RunState)
    requires Shaped(gs, |s.tests|) && forall i :: 0 <= i < |roots| ==> roots[i] < |gs|
    ensures Extends(s, r)
    decreases |roots|
  {
    if roots == [] then s
    else
      var s1 := RunRoots(gs, roots[..|roots| - 1], e, s);
      var g := roots[|roots| - 1];
      if GroupEligible(e, gs[g]) then
        ExtendsTrans(s, s1, RunGroup(gs, g, s1));
        RunGroup(gs, g, s1)
      else s1
  }

  /** A before hook that fails stops its group: nothing after the hook runs, not even the after hook. */
  lemma FailedBeforeStopsGroup(gs: seq<Group>, g: nat, s: RunState)
    requires Shaped(gs, |s.tests|) && g < |gs| && gs[g].before.Some?
    requires ErrorSet(RunTest(s, gs[g].before.value, BeforePrefix).tests[gs[g].before.value])
    ensures RunGroup(gs, g, s) == RunTest(s, gs[g].before.value, BeforePrefix)
    ensures RunGroup(gs, g, s).ran == s.ran + [gs[g].before.value]
  {
  }

  /** The before hook runs first and, unless it stops the group, the after hook runs last. */
  lemma HooksBracketGroup(gs: seq<Group>, g: nat, s: RunState)
    requires Shaped(gs, |s.tests|) && g < |gs|
    ensures var r := RunGroup(gs, g, s);
            (gs[g].before.Some? ==> |r.ran| > |s.ran| && r.ran[|s.ran|] == gs[g].before.value)
            && (gs[g].after.Some? && !(gs[g].before.Some? && ErrorSet(RunTest(s, gs[g].before.value, BeforePrefix).tests[gs[g].before.value]))
                ==> r.ran[|r.ran| - 1] == gs[g].after.value)
  {
    var grp := gs[g];
    if grp.before.Some? {
      var s1 := RunTest(s, grp.before.value, BeforePrefix);
      assert s1.ran[|s.ran|] == grp.before.value;
      if !ErrorSet(s1.tests[grp.before.value]) {
        var s2 := RunTests(s1, grp.tests, grp.hasExclusive);
        var s3 := RunSubgroups(gs, g, |grp.groups|, s2);
        ExtendsTrans(s1, s2, s3);
        assert s1.ran <= s3.ran;
        if grp.after.Some? {
          assert RunGroup(gs, g, s).ran == s3.ran + [grp.after.value];
        } else {
          assert RunGroup(gs, g, s) == s3;
        }
      }
    }
  }

  // ---------------------------------------------------------------------------
  // Skipped counts only hooks

  /** No hook of any group is skipped. */
  ghost predicate HooksUnskipped(gs: seq<Group>, ts: seq<Test>)
    requires Shaped(gs, |ts|)
  {
    forall g :: 0 <= g < |gs| ==>
      (gs[g].before.Some? ==> !ts[gs[g].before.value].skipTest)
      && (gs[g].after.Some? ==> !ts[gs[g].after.value].skipTest)
  }

  lemma HooksUnskippedKept(gs: seq<Group>, s: RunState, r: RunState)
    requires Shaped(gs, |s.tests|) && HooksUnskipped(gs, s.tests) && Extends(s, r)
    ensures Shaped(gs, |r.tests|) && HooksUnskipped(gs, r.tests)
  {
    forall g | 0 <= g < |gs|
      ensures (gs[g].before.Some? ==> !r.tests[gs[g].before.value].skipTest)
              && (gs[g].after.Some? ==> !r.tests[gs[g].after.value].skipTest)
    {
      if gs[g].before.Some? {
        assert r.tests[gs[g].before.value] == s.tests[gs[g].before.value].(error := r.tests[gs[g].before.value].error);
      }
      if gs[g].after.Some? {
        assert r.tests[gs[g].after.value] == s.tests[gs[g].after.value].(error := r.tests[gs[g].after.value].error);
      }
    }
  }

  /**
   * The tests loop filters skipped tests out before they reach `__runTest`,
   * so a group run counts nothing as skipped unless a hook is skipped.
   */
  lemma {:induction false} SkippedTestsNotCounted(gs: seq<Group>, g: nat, s: RunState)
    requires Shaped(gs, |s.tests|) && g < |gs| && HooksUnskipped(gs, s.tests)
    ensures RunGroup(gs, g, s).stats.skipped == s.stats.skipped
    decreases |gs| - g, 1, 0
  {
    var grp := gs[g];
    var s1 := if grp.before.Some? then RunTest(s, grp.before.value, BeforePrefix) else s;
    if grp.before.Some? {
      RunTestEffect(s, grp.before.value, BeforePrefix);
    }
    if !(grp.before.Some? && ErrorSet(s1.tests[grp.before.value])) {
      HooksUnskippedKept(gs, s, s1);
      RunTestsRunsEligible(s1, grp.tests, grp.hasExclusive);
      var s2 := RunTests(s1, grp.tests, grp.hasExclusive);
      HooksUnskippedKept(gs, s1, s2);
      SkippedSubgroupsNotCounted(gs, g, |grp.groups|, s2);
      var s3 := RunSubgroups(gs, g, |grp.groups|, s2);
      if grp.after.Some? {
        HooksUnskippedKept(gs, s2, s3);
        RunTestEffect(s3, grp.after.value, AfterPrefix);
      }
    }
  }

  lemma {:induction false} SkippedSubgroupsNotCounted(gs: seq<Group>, g: nat, k: nat, s: RunState)
    requires Shaped(gs, |s.tests|) && g < |gs| && k <= |gs[g].groups| && HooksUnskipped(gs, s.tests)
    ensures RunSubgroups(gs, g, k, s).stats.skipped == s.stats.skipped
    decreases |gs| - g, 0, k
  {
    if k > 0 {
      SkippedSubgroupsNotCounted(gs, g, k - 1, s);
      var s1 := RunSubgroups(gs, g, k - 1, s);
      var c := gs[g].groups[k - 1];
      if GroupEligible(gs[g].hasExclusive, gs[c]) {
        HooksUnskippedKept(gs, s, s1);
        SkippedTestsNotCounted(gs, c, s1);
      }
    }
  }

  // ---------------------------------------------------------------------------
  // What `only()` selects

  /** Every group from `p` up to the root passes the filter of the loop that reaches it. */
  ghost predicate PathEligible(gs: seq<Group>, e: bool, p: Option<nat>)
    requires ParentsBelow(gs) && InRange(p, |gs|)
    decreases Rank(p)
  {
    match p
    case None => true
    case Some(q) =>
      var parentHas := if gs[q].parent.Some? then gs[gs[q].parent.value].hasExclusive else e;
      GroupEligible(parentHas, gs[q]) && PathEligible(gs, e, gs[q].parent)
  }

  /** With no skipped group on the way up, a marked chain has every group marked and the flag set. */
  lemma {:induction false} UnskippedChainMarked(gs: seq<Group>, e: bool, p: Option<nat>)
    requires ParentsBelow(gs) && InRange(p, |gs|) && UpMarked(gs, e, p)
    requires UnskippedPrefix(gs, Ancestors(gs, p)) == |Ancestors(gs, p)|
    ensures e && forall x :: x in Ancestors(gs, p) ==> gs[x].hasExclusive
    decreases Rank(p)
  {
    if p.Some? {
      var q := p.value;
      var rest := Ancestors(gs, gs[q].parent);
      assert Ancestors(gs, p) == [q] + rest;
      assert Ancestors(gs, p)[1..] == rest;
      UnskippedChainMarked(gs, e, gs[q].parent);
    }
  }

  lemma {:induction false} MarkedChainEligible(gs: seq<Group>, e: bool, p: Option<nat>)
    requires ParentsBelow(gs) && InRange(p, |gs|) && e
    requires UnskippedPrefix(gs, Ancestors(gs, p)) == |Ancestors(gs, p)|
    requires forall x :: x in Ancestors(gs, p) ==> gs[x].hasExclusive
    ensures PathEligible(gs, e, p)
    decreases Rank(p)
  {
    if p.Some? {
      var q := p.value;
      var rest := Ancestors(gs, gs[q].parent);
      assert Ancestors(gs, p) == [q] + rest;
      assert Ancestors(gs, p)[1..] == rest;
      if gs[q].parent.Some? {
        assert gs[q].parent.value in rest;
      }
      MarkedChainEligible(gs, e, gs[q].parent);
    }
  }

  /**
   * With the invariant `only()` keeps, an exclusive test that is not skipped
   * and has no skipped group above it passes every filter on its way:
   * every group on its path and the test itself.
   */
  lemma ExclusiveTestSelected(t: Tree, id: nat)
    requires TreeOk(t) && ExclusivityHolds(t) && id < |t.tests|
    requires t.tests[id].isExclusive && !t.tests[id].skipTest
    requires var p := Some(t.tests[id].group);
             UnskippedPrefix(t.groups, Ancestors(t.groups, p)) == |Ancestors(t.groups, p)|
    ensures PathEligible(t.groups, t.hasExclusive, Some(t.tests[id].group))
    ensures TestEligible(t.groups[t.tests[id].group].hasExclusive, t.tests[id])
  {
    var p := Some(t.tests[id].group);
    UnskippedChainMarked(t.groups, t.hasExclusive, p);
    MarkedChainEligible(t.groups, t.hasExclusive, p);
    assert t.tests[id].group in Ancestors(t.groups, p);
  }

  /**
   * An exclusive group that is not skipped and has no skipped group above it
   * passes every filter on its way.
   */
  lemma ExclusiveGroupSelected(t: Tree, g: nat)
    requires TreeOk(t) && ExclusivityHolds(t) && g < |t.groups|
    requires t.groups[g].isExclusive && !t.groups[g].skipTest
    requires UnskippedPrefix(t.groups, Ancestors(t.groups, Some(g))) == |Ancestors(t.groups, Some(g))|
    ensures PathEligible(t.groups, t.hasExclusive, Some(g))
  {
    var gs := t.groups;
    var up := gs[g].parent;
    var rest := Ancestors(gs, up);
    assert Ancestors(gs, Some(g)) == [g] + rest;
    assert Ancestors(gs, Some(g))[1..] == rest;
    UnskippedChainMarked(gs, t.hasExclusive, up);
    MarkedChainEligible(gs, t.hasExclusive, up);
    if up.Some? {
      assert up.value in rest;
    }
  }

  // ---------------------------------------------------------------------------
  // What a run reaches

  /** `s` holds the tests `ts` but for their errors. */
  ghost predicate SameTests(ts: seq<Test>, s: RunState) {
    |s.tests| == |ts| && forall i :: 0 <= i < |ts| ==> s.tests[i] == ts[i].(error := s.tests[i].error)
  }

  lemma SameTestsKept(ts: seq<Test>, s: RunState, r: RunState)
    requires SameTests(ts, s) && Extends(s, r)
    ensures SameTests(ts, r)
  {
    forall i | 0 <= i < |ts| ensures r.tests[i] == ts[i].(error := r.tests[i].error) {
      assert s.tests[i] == ts[i].(error := s.tests[i].error);
    }
  }

  /**
   * Test `id` is within reach of a run: its group and every group above it
   * pass the filter of the loop that reaches them, and it is the group's
   * before or after hook, or one of its tests that passes the tests filter.
   */
  ghost predicate Reached(gs: seq<Group>, ts: seq<Test>, e: bool, id: nat)
    requires Shaped(gs, |ts|) && Linked(gs, ts)
  {
    id < |ts|
    && var g := ts[id].group;
       PathEligible(gs, e, Some(g))
       && (gs[g].before == Some(id) || gs[g].after == Some(id)
           || (id in gs[g].tests && TestEligible(gs[g].hasExclusive, ts[id])))
  }

  /** Every run `r` adds to those of `s` is of a reached test. */
  ghost predicate RunsReached(gs: seq<Group>, ts: seq<Test>, e: bool, s: RunState, r: RunState)
    requires Shaped(gs, |ts|) && Linked(gs, ts)
  {
    s.ran <= r.ran && forall i :: |s.ran| <= i < |r.ran| ==> Reached(gs, ts, e, r.ran[i])
  }

  lemma RunsReachedTrans(gs: seq<Group>, ts: seq<Test>, e: bool, a: RunState, b: RunState, c: RunState)
    requires Shaped(gs, |ts|) && Linked(gs, ts)
    requires RunsReached(gs, ts, e, a, b) && RunsReached(gs, ts, e, b, c)
    ensures RunsReached(gs, ts, e, a, c)
  {
    forall i | |a.ran| <= i < |c.ran| ensures Reached(gs, ts, e, c.ran[i]) {
      if i < |b.ran| {
        assert c.ran[i] == b.ran[i];
      }
    }
  }

  /** The tests loop of a reachable group runs only reached tests. */
  lemma ListedTestsReached(gs: seq<Group>, ts: seq<Test>, e: bool, g: nat, s: RunState)
    requires Shaped(gs, |ts|) && Linked(gs, ts) && SameTests(ts, s) && g < |gs| && PathEligible(gs, e, Some(g))
    ensures RunsReached(gs, ts, e, s, RunTests(s, gs[g].tests, gs[g].hasExclusive))
  {
    var ids := gs[g].tests;
    RunTestsRunsEligible(s, ids, gs[g].hasExclusive);
    var r := RunTests(s, ids, gs[g].hasExclusive);
    var sel := EligibleTests(s.tests, ids, gs[g].hasExclusive);
    forall i | |s.ran| <= i < |r.ran| ensures Reached(gs, ts, e, r.ran[i]) {
      var x := r.ran[i];
      assert x == sel[i - |s.ran|];
      assert x in ids;
      var j :| 0 <= j < |ids| && ids[j] == x;
      assert ts[x].group == g;
      assert s.tests[x] == ts[x].(error := s.tests[x].error);
    }
  }

  /** A hook of a group whose path passes the filters is reached when it runs. */
  lemma HookRunReached(gs: seq<Group>, ts: seq<Test>, e: bool, g: nat, s: RunState, id: nat, p: Prefix)
    requires Shaped(gs, |ts|) && Linked(gs, ts) && |s.tests| == |ts| && g < |gs| && PathEligible(gs, e, Some(g))
    requires gs[g].before == Some(id) || gs[g].after == Some(id)
    ensures RunsReached(gs, ts, e, s, RunTest(s, id, p))
  {
    assert ts[id].group == g;
  }

  /** `__runGroup` on a group whose path passes the filters runs only reached tests. */
  lemma {:induction false} RunGroupReaches(gs: seq<Group>, ts: seq<Test>, e: bool, g: nat, s: RunState)
    requires Shaped(gs, |ts|) && Linked(gs, ts) && SameTests(ts, s) && g < |gs| && PathEligible(gs, e, Some(g))
    ensures RunsReached(gs, ts, e, s, RunGroup(gs, g, s))
    decreases |gs| - g, 1, 0
  {
    var grp := gs[g];
    var s1 := if grp.before.Some? then RunTest(s, grp.before.value, BeforePrefix) else s;
    if grp.before.Some? {
      HookRunReached(gs, ts, e, g, s, grp.before.value, BeforePrefix);
    }
    if !(grp.before.Some? && ErrorSet(s1.tests[grp.before.value])) {
      SameTestsKept(ts, s, s1);
      ListedTestsReached(gs, ts, e, g, s1);
      var s2 := RunTests(s1, grp.tests, grp.hasExclusive);
      RunsReachedTrans(gs, ts, e, s, s1, s2);
      SameTestsKept(ts, s1, s2);
      RunSubgroupsReach(gs, ts, e, g, |grp.groups|, s2);
      var s3 := RunSubgroups(gs, g, |grp.groups|, s2);
      RunsReachedTrans(gs, ts, e, s, s2, s3);
      if grp.after.Some? {
        SameTestsKept(ts, s2, s3);
        HookRunReached(gs, ts, e, g, s3, grp.after.value, AfterPrefix);
        RunsReachedTrans(gs, ts, e, s, s3, RunTest(s3, grp.after.value, AfterPrefix));
      }
    }
  }

  lemma {:induction false} RunSubgroupsReach(gs: seq<Group>, ts: seq<Test>, e: bool, g: nat, k: nat, s: RunState)
    requires Shaped(gs, |ts|) && Linked(gs, ts) && SameTests(ts, s) && g < |gs| && PathEligible(gs, e, Some(g))
    requires k <= |gs[g].groups|
    ensures RunsReached(gs, ts, e, s, RunSubgroups(gs, g, k, s))
    decreases |gs| - g, 0, k
  {
    if k > 0 {
      RunSubgroupsReach(gs, ts, e, g, k - 1, s);
      var s1 := RunSubgroups(gs, g, k - 1, s);
      var c := gs[g].groups[k - 1];
      if GroupEligible(gs[g].hasExclusive, gs[c]) {
        assert gs[c].parent == Some(g);
        assert PathEligible(gs, e, Some(c));
        SameTestsKept(ts, s, s1);
        RunGroupReaches(gs, ts, e, c, s1);
        RunsReachedTrans(gs, ts, e, s, s1, RunGroup(gs, c, s1));
      }
    }
  }

  /**
   * The root loop of `run` over parentless roots runs only reached tests: a
   * hook or an eligible test of a group whose whole path passes the filters.
   */
  lemma {:induction false} RunRootsReach(gs: seq<Group>, ts: seq<Test>, e: bool, roots: seq<nat>, s: RunState)
    requires Shaped(gs, |ts|) && Linked(gs, ts) && SameTests(ts, s)
    requires forall i :: 0 <= i < |roots| ==> roots[i] < |gs| && gs[roots[i]].parent.None?
    ensures RunsReached(gs, ts, e, s, RunRoots(gs, roots, e, s))
    decreases |roots|
  {
    if roots != [] {
      var front := roots[..|roots| - 1];
      RunRootsReach(gs, ts, e, front, s);
      var s1 := RunRoots(gs, front, e, s);
      var g := roots[|roots| - 1];
      if GroupEligible(e, gs[g]) {
        assert PathEligible(gs, e, Some(g));
        SameTestsKept(ts, s, s1);
        RunGroupReaches(gs, ts, e, g, s1);
        RunsReachedTrans(gs, ts, e, s, s1, RunGroup(gs, g, s1));
      }
    }
  }

  /** A path that passes the filters holds no skipped group. */
  lemma {:induction false} PathEligibleUnskipped(gs: seq<Group>, e: bool, p: Option<nat>)
    requires ParentsBelow(gs) && InRange(p, |gs|) && PathEligible(gs, e, p)
    ensures forall x :: x in Ancestors(gs, p) ==> !gs[x].skipTest
    decreases Rank(p)
  {
    if p.Some? {
      PathEligibleUnskipped(gs, e, gs[p.value].parent);
      assert Ancestors(gs, p) == [p.value] + Ancestors(gs, gs[p.value].parent);
    }
  }

  /** No test or hook beneath a skipped group, directly or further down, is run. */
  lemma SkippedGroupRunsNothing(gs: seq<Group>, ts: seq<Test>, e: bool, roots: seq<nat>, s: RunState, x: nat, id: nat)
    requires Shaped(gs, |ts|) && Linked(gs, ts) && SameTests(ts, s)
    requires forall i :: 0 <= i < |roots| ==> roots[i] < |gs| && gs[roots[i]].parent.None?
    requires id < |ts| && x in Ancestors(gs, Some(ts[id].group)) && gs[x].skipTest
    ensures var r := RunRoots(gs, roots, e, s);
            |s.ran| <= |r.ran| && id !in r.ran[|s.ran|..]
  {
    var r := RunRoots(gs, roots, e, s);
    RunRootsReach(gs, ts, e, roots, s);
    if id in r.ran[|s.ran|..] {
      var j :| 0 <= j < |r.ran[|s.ran|..]| && r.ran[|s.ran|..][j] == id;
      assert r.ran[|s.ran| + j] == id;
      assert Reached(gs, ts, e, id);
      PathEligibleUnskipped(gs, e, Some(ts[id].group));
    }
  }

  // ---------------------------------------------------------------------------
  // What a run does reach

  /** Every group with a parent is listed among its parent's subgroups. */
  ghost predicate ChildrenListed(gs: seq<Group>) {
    forall c :: 0 <= c < |gs| && gs[c].parent.Some? ==> gs[c].parent.value < |gs| && c in gs[gs[c].parent.value].groups
  }

  /** Every group without a parent is among the roots. */
  ghost predicate RootsComplete(gs: seq<Group>, roots: seq<nat>) {
    forall g :: 0 <= g < |gs| && gs[g].parent.None? ==> g in roots
  }

  /** A test whose run leaves its error unset: none is stored, and it is skipped or its body passes. */
  predicate Survives(t: Test) {
    !ErrorSet(t) && (t.skipTest || Settle(t.body, EffectiveTimeout(t.customTimeout)).Pass?)
  }

  /** Every before hook survives, so no group is stopped by its hook. */
  ghost predicate BeforeHooksSurvive(gs: seq<Group>, tests: seq<Test>)
    requires Shaped(gs, |tests|)
  {
    forall g :: 0 <= g < |gs| && gs[g].before.Some? ==> Survives(tests[gs[g].before.value])
  }

  /** Running leaves every surviving test exactly as it was. */
  ghost predicate SurvivorsKept(s: RunState, r: RunState) {
    |r.tests| == |s.tests| && forall i :: 0 <= i < |s.tests| && Survives(s.tests[i]) ==> r.tests[i] == s.tests[i]
  }

  lemma SurvivorsKeptTrans(a: RunState, b: RunState, c: RunState)
    requires SurvivorsKept(a, b) && SurvivorsKept(b, c)
    ensures SurvivorsKept(a, c)
  {
  }

  lemma RunTestKeepsSurvivors(s: RunState, id: nat, p: Prefix)
    requires id < |s.tests|
    ensures SurvivorsKept(s, RunTest(s, id, p))
  {
  }

  lemma HooksSurviveKept(gs: seq<Group>, s: RunState, r: RunState)
    requires Shaped(gs, |s.tests|) && BeforeHooksSurvive(gs, s.tests) && SurvivorsKept(s, r)
    ensures Shaped(gs, |r.tests|) && BeforeHooksSurvive(gs, r.tests)
  {
  }

  lemma {:induction false} RunTestsKeepsSurvivors(s: RunState, ids: seq<nat>, groupHas: bool)
    requires forall i :: 0 <= i < |ids| ==> ids[i] < |s.tests|
    ensures SurvivorsKept(s, RunTests(s, ids, groupHas))
    decreases |ids|
  {
    if ids != [] {
      var front := ids[..|ids| - 1];
      RunTestsKeepsSurvivors(s, front, groupHas);
      var s1 := RunTests(s, front, groupHas);
      var id := ids[|ids| - 1];
      if TestEligible(groupHas, s1.tests[id]) {
        RunTestKeepsSurvivors(s1, id, TestPrefix);
        SurvivorsKeptTrans(s, s1, RunTest(s1, id, TestPrefix));
      }
    }
  }

  lemma {:induction false} RunGroupKeepsSurvivors(gs: seq<Group>, g: nat, s: RunState)
    requires Shaped(gs, |s.tests|) && g < |gs|
    ensures SurvivorsKept(s, RunGroup(gs, g, s))
    decreases |gs| - g, 1, 0
  {
    var grp := gs[g];
    var s1 := if grp.before.Some? then RunTest(s, grp.before.value, BeforePrefix) else s;
    if grp.before.Some? {
      RunTestKeepsSurvivors(s, grp.before.value, BeforePrefix);
    }
    if !(grp.before.Some? && ErrorSet(s1.tests[grp.before.value])) {
      RunTestsKeepsSurvivors(s1, grp.tests, grp.hasExclusive);
      var s2 := RunTests(s1, grp.tests, grp.hasExclusive);
      SurvivorsKeptTrans(s, s1, s2);
      RunSubgroupsKeepsSurvivors(gs, g, |grp.groups|, s2);
      var s3 := RunSubgroups(gs, g, |grp.groups|, s2);
      SurvivorsKeptTrans(s, s2, s3);
      if grp.after.Some? {
        RunTestKeepsSurvivors(s3, grp.after.value, AfterPrefix);
        SurvivorsKeptTrans(s, s3, RunTest(s3, grp.after.value, AfterPrefix));
      }
    }
  }

  lemma {:induction false} RunSubgroupsKeepsSurvivors(gs: seq<Group>, g: nat, k: nat, s: RunState)
    requires Shaped(gs, |s.tests|) && g < |gs| && k <= |gs[g].groups|
    ensures SurvivorsKept(s, RunSubgroups(gs, g, k, s))
    decreases |gs| - g, 0, k
  {
    if k > 0 {
      RunSubgroupsKeepsSurvivors(gs, g, k - 1, s);
      var s1 := RunSubgroups(gs, g, k - 1, s);
      var c := gs[g].groups[k - 1];
      if GroupEligible(gs[g].hasExclusive, gs[c]) {
        RunGroupKeepsSurvivors(gs, c, s1);
        SurvivorsKeptTrans(s, s1, RunGroup(gs, c, s1));
      }
    }
  }

  lemma {:induction false} RunRootsKeepsSurvivors(gs: seq<Group>, roots: seq<nat>, e: bool, s: RunState)
    requires Shaped(gs, |s.tests|) && forall i :: 0 <= i < |roots| ==> roots[i] < |gs|
    ensures SurvivorsKept(s, RunRoots(gs, roots, e, s))
    decreases |roots|
  {
    if roots != [] {
      var front := roots[..|roots| - 1];
      RunRootsKeepsSurvivors(gs, front, e, s);
      var s1 := RunRoots(gs, front, e, s);
      var g := roots[|roots| - 1];
      if GroupEligible(e, gs[g]) {
        RunGroupKeepsSurvivors(gs, g, s1);
        SurvivorsKeptTrans(s, s1, RunGroup(gs, g, s1));
      }
    }
  }

  /** `id` is a hook of group `h`, or one of its tests that passes the tests filter. */
  ghost predicate Owned(gs: seq<Group>, ts: seq<Test>, h: nat, id: nat)
    requires h < |gs| && id < |ts|
  {
    gs[h].before == Some(id) || gs[h].after == Some(id)
    || (id in gs[h].tests && TestEligible(gs[h].hasExclusive, ts[id]))
  }

  /**
   * Group `h` lies at or below group `g`, and every group on the way down
   * from `g` to `h` passes the filter of its parent's subgroups loop.
   */
  ghost predicate ReachesFrom(gs: seq<Group>, g: nat, h: nat)
    requires ParentsBelow(gs) && h < |gs|
    decreases h
  {
    h == g
    || (gs[h].parent.Some? && GroupEligible(gs[gs[h].parent.value].hasExclusive, gs[h])
        && ReachesFrom(gs, g, gs[h].parent.value))
  }

  /** The child of `g` on the way down to `h`. */
  ghost function ChildToward(gs: seq<Group>, g: nat, h: nat): (c: nat)
    requires ParentsBelow(gs) && h < |gs| && h != g && ReachesFrom(gs, g, h)
    ensures c < |gs| && gs[c].parent == Some(g) && GroupEligible(gs[g].hasExclusive, gs[c]) && ReachesFrom(gs, c, h)
    decreases h
  {
    var p := gs[h].parent.value;
    if p == g then h else ChildToward(gs, g, p)
  }

  /** The root above group `h`. */
  ghost function TopOf(gs: seq<Group>, h: nat): (t: nat)
    requires ParentsBelow(gs) && h < |gs|
    ensures t < |gs| && gs[t].parent.None?
    decreases h
  {
    if gs[h].parent.None? then h else TopOf(gs, gs[h].parent.value)
  }

  /** A path that passes the filters starts at a root the root loop picks and goes down through picked subgroups. */
  lemma {:induction false} PathEligibleFromTop(gs: seq<Group>, e: bool, h: nat)
    requires ParentsBelow(gs) && h < |gs| && PathEligible(gs, e, Some(h))
    ensures GroupEligible(e, gs[TopOf(gs, h)]) && ReachesFrom(gs, TopOf(gs, h), h)
    decreases h
  {
    if gs[h].parent.Some? {
      PathEligibleFromTop(gs, e, gs[h].parent.value);
    }
  }

  /** An id found in the runs `c` adds to `b` is among the runs `d` adds to `a`, for `a <= b` and `c <= d`. */
  lemma RanWidened(a: seq<nat>, b: seq<nat>, c: seq<nat>, d: seq<nat>, id: nat)
    requires a <= b && |b| <= |c| && id in c[|b|..] && c <= d
    ensures |a| <= |d| && id in d[|a|..]
  {
    var j :| 0 <= j < |c[|b|..]| && c[|b|..][j] == id;
    assert d[|a|..][|b| - |a| + j] == id;
  }

  /** The tests filter picks every listed test that passes it. */
  lemma {:induction false} EligibleTestsListed(ts: seq<Test>, ids: seq<nat>, groupHas: bool, id: nat)
    requires forall i :: 0 <= i < |ids| ==> ids[i] < |ts|
    requires id in ids && id < |ts| && TestEligible(groupHas, ts[id])
    ensures id in EligibleTests(ts, ids, groupHas)
    decreases |ids|
  {
    var front := ids[..|ids| - 1];
    if ids[|ids| - 1] != id {
      assert ids == front + [ids[|ids| - 1]];
      EligibleTestsListed(ts, front, groupHas, id);
    }
  }

  /** The conditions under which a run reaches everything it may: they hold throughout a run. */
  ghost predicate RunsAll(gs: seq<Group>, ts: seq<Test>, s: RunState) {
    Shaped(gs, |ts|) && Linked(gs, ts) && ChildrenListed(gs) && SameTests(ts, s) && BeforeHooksSurvive(gs, s.tests)
  }

  lemma RunsAllKept(gs: seq<Group>, ts: seq<Test>, s: RunState, r: RunState)
    requires RunsAll(gs, ts, s) && Extends(s, r) && SurvivorsKept(s, r)
    ensures RunsAll(gs, ts, r)
  {
    SameTestsKept(ts, s, r);
    HooksSurviveKept(gs, s, r);
  }

  /** The state of `__runGroup(g)` after its before hook and its tests loop. */
  ghost function Middle(gs: seq<Group>, g: nat, s: RunState): (m: RunState)
    requires Shaped(gs, |s.tests|) && g < |gs|
    ensures Extends(s, m)
  {
    var grp := gs[g];
    var s1 := if grp.before.Some? then RunTest(s, grp.before.value, BeforePrefix) else s;
    ExtendsTrans(s, s1, RunTests(s1, grp.tests, grp.hasExclusive));
    RunTests(s1, grp.tests, grp.hasExclusive)
  }

  /** When the before hook survives, the group goes on past its tests loop into its subgroups loop. */
  lemma GroupPassesMiddle(gs: seq<Group>, ts: seq<Test>, g: nat, s: RunState)
    requires RunsAll(gs, ts, s) && g < |gs|
    ensures var m := Middle(gs, g, s);
            RunsAll(gs, ts, m) && s.ran <= m.ran && RunSubgroups(gs, g, |gs[g].groups|, m).ran <= RunGroup(gs, g, s).ran
  {
    var grp := gs[g];
    var s1 := if grp.before.Some? then RunTest(s, grp.before.value, BeforePrefix) else s;
    if grp.before.Some? {
      RunTestKeepsSurvivors(s, grp.before.value, BeforePrefix);
      assert s1.tests[grp.before.value] == s.tests[grp.before.value];
    }
    RunTestsKeepsSurvivors(s1, grp.tests, grp.hasExclusive);
    var m := Middle(gs, g, s);
    SurvivorsKeptTrans(s, s1, m);
    RunsAllKept(gs, ts, s, m);
    var s3 := RunSubgroups(gs, g, |grp.groups|, m);
    assert s3.ran <= RunGroup(gs, g, s).ran;
  }

  /** With a surviving before hook, `__runGroup(g)` runs both hooks of `g`. */
  lemma GroupRunsHooks(gs: seq<Group>, ts: seq<Test>, g: nat, id: nat, s: RunState)
    requires RunsAll(gs, ts, s) && g < |gs| && (gs[g].before == Some(id) || gs[g].after == Some(id))
    ensures var r := RunGroup(gs, g, s);
            |s.ran| <= |r.ran| && id in r.ran[|s.ran|..]
  {
    var grp := gs[g];
    var r := RunGroup(gs, g, s);
    HooksBracketGroup(gs, g, s);
    if grp.before.Some? {
      RunTestKeepsSurvivors(s, grp.before.value, BeforePrefix);
      assert RunTest(s, grp.before.value, BeforePrefix).tests[grp.before.value] == s.tests[grp.before.value];
    }
    if grp.before == Some(id) {
      assert r.ran[|s.ran|..][0] == id;
    } else {
      assert r.ran[|s.ran|..][|r.ran| - 1 - |s.ran|] == id;
    }
  }

  /** `__runGroup(g)` runs the tests of `g` that pass the tests filter. */
  lemma GroupRunsTests(gs: seq<Group>, ts: seq<Test>, g: nat, id: nat, s: RunState)
    requires RunsAll(gs, ts, s) && g < |gs| && id < |ts| && id in gs[g].tests && TestEligible(gs[g].hasExclusive, ts[id])
    ensures var r := RunGroup(gs, g, s);
            |s.ran| <= |r.ran| && id in r.ran[|s.ran|..]
  {
    var grp := gs[g];
    GroupPassesMiddle(gs, ts, g, s);
    var s1 := if grp.before.Some? then RunTest(s, grp.before.value, BeforePrefix) else s;
    SameTestsKept(ts, s, s1);
    assert s1.tests[id] == ts[id].(error := s1.tests[id].error);
    RunTestsRunsEligible(s1, grp.tests, grp.hasExclusive);
    EligibleTestsListed(s1.tests, grp.tests, grp.hasExclusive, id);
    RanWidened(s.ran, s1.ran, Middle(gs, g, s).ran, RunGroup(gs, g, s).ran, id);
  }

  /** The subgroups loop over `k` subgroups goes through the loop over the first `k - 1` and then, if it passes the filter, the `k`-th. */
  lemma SubgroupsFront(gs: seq<Group>, ts: seq<Test>, g: nat, k: nat, s: RunState)
    requires RunsAll(gs, ts, s) && g < |gs| && 0 < k <= |gs[g].groups|
    ensures var s1 := RunSubgroups(gs, g, k - 1, s);
            var c := gs[g].groups[k - 1];
            RunsAll(gs, ts, s1) && s.ran <= s1.ran && s1.ran <= RunSubgroups(gs, g, k, s).ran
            && (GroupEligible(gs[g].hasExclusive, gs[c]) ==> RunSubgroups(gs, g, k, s) == RunGroup(gs, c, s1))
  {
    RunSubgroupsKeepsSurvivors(gs, g, k - 1, s);
    RunsAllKept(gs, ts, s, RunSubgroups(gs, g, k - 1, s));
  }

  /** The root loop over `roots` goes through the loop over all roots but the last and then, if it passes the filter, the last. */
  lemma RootsFront(gs: seq<Group>, ts: seq<Test>, e: bool, roots: seq<nat>, s: RunState)
    requires RunsAll(gs, ts, s) && (forall i :: 0 <= i < |roots| ==> roots[i] < |gs|) && roots != []
    ensures var front := roots[..|roots| - 1];
            var s1 := RunRoots(gs, front, e, s);
            var g := roots[|roots| - 1];
            RunsAll(gs, ts, s1) && s.ran <= s1.ran && s1.ran <= RunRoots(gs, roots, e, s).ran
            && (GroupEligible(e, gs[g]) ==> RunRoots(gs, roots, e, s) == RunGroup(gs, g, s1))
  {
    RunRootsKeepsSurvivors(gs, roots[..|roots| - 1], e, s);
    RunsAllKept(gs, ts, s, RunRoots(gs, roots[..|roots| - 1], e, s));
  }

  /**
   * With every group listed under its parent and every before hook
   * surviving, `__runGroup(g)` runs each hook and each eligible test of every
   * group reached from `g` through the subgroup filters.
   */
  lemma {:induction false} RunGroupRunsOwned(gs: seq<Group>, ts: seq<Test>, g: nat, h: nat, id: nat, s: RunState)
    requires RunsAll(gs, ts, s)
    requires g < |gs| && h < |gs| && id < |ts| && ReachesFrom(gs, g, h) && Owned(gs, ts, h, id)
    ensures var r := RunGroup(gs, g, s);
            |s.ran| <= |r.ran| && id in r.ran[|s.ran|..]
    decreases |gs| - g, 1, 0
  {
    if h == g && (gs[g].before == Some(id) || gs[g].after == Some(id)) {
      GroupRunsHooks(gs, ts, g, id, s);
    } else if h == g {
      GroupRunsTests(gs, ts, g, id, s);
    } else {
      var c := ChildToward(gs, g, h);
      var j :| 0 <= j < |gs[g].groups| && gs[g].groups[j] == c;
      GroupPassesMiddle(gs, ts, g, s);
      var m := Middle(gs, g, s);
      RunSubgroupsRunsOwned(gs, ts, g, |gs[g].groups|, j, h, id, m);
      RanWidened(s.ran, m.ran, RunSubgroups(gs, g, |gs[g].groups|, m).ran, RunGroup(gs, g, s).ran, id);
    }
  }

  lemma {:induction false} RunSubgroupsRunsOwned(gs: seq<Group>, ts: seq<Test>, g: nat, k: nat, j: nat, h: nat, id: nat, s: RunState)
    requires RunsAll(gs, ts, s)
    requires g < |gs| && j < k <= |gs[g].groups| && GroupEligible(gs[g].hasExclusive, gs[gs[g].groups[j]])
    requires h < |gs| && id < |ts| && ReachesFrom(gs, gs[g].groups[j], h) && Owned(gs, ts, h, id)
    ensures var r := RunSubgroups(gs, g, k, s);
            |s.ran| <= |r.ran| && id in r.ran[|s.ran|..]
    decreases |gs| - g, 0, k
  {
    SubgroupsFront(gs, ts, g, k, s);
    var s1 := RunSubgroups(gs, g, k - 1, s);
    var r := RunSubgroups(gs, g, k, s);
    if j == k - 1 {
      RunGroupRunsOwned(gs, ts, gs[g].groups[j], h, id, s1);
      RanWidened(s.ran, s1.ran, r.ran, r.ran, id);
    } else {
      RunSubgroupsRunsOwned(gs, ts, g, k - 1, j, h, id, s);
      RanWidened(s.ran, s.ran, s1.ran, r.ran, id);
    }
  }

  lemma {:induction false} RunRootsRunsOwned(gs: seq<Group>, ts: seq<Test>, e: bool, roots: seq<nat>, j: nat, h: nat, id: nat, s: RunState)
    requires RunsAll(gs, ts, s)
    requires (forall i :: 0 <= i < |roots| ==> roots[i] < |gs|) && j < |roots| && GroupEligible(e, gs[roots[j]])
    requires h < |gs| && id < |ts| && ReachesFrom(gs, roots[j], h) && Owned(gs, ts, h, id)
    ensures var r := RunRoots(gs, roots, e, s);
            |s.ran| <= |r.ran| && id in r.ran[|s.ran|..]
    decreases |roots|
  {
    RootsFront(gs, ts, e, roots, s);
    var front := roots[..|roots| - 1];
    var s1 := RunRoots(gs, front, e, s);
    var r := RunRoots(gs, roots, e, s);
    if j == |roots| - 1 {
      RunGroupRunsOwned(gs, ts, roots[j], h, id, s1);
      RanWidened(s.ran, s1.ran, r.ran, r.ran, id);
    } else {
      assert front[j] == roots[j];
      RunRootsRunsOwned(gs, ts, e, front, j, h, id, s);
      RanWidened(s.ran, s.ran, s1.ran, r.ran, id);
    }
  }

  /**
   * The converse of `RunRootsReach`: when every group is listed under its
   * parent or among the roots and no before hook stops its group, the root
   * loop runs every reached test and hook.
   */
  lemma RunRootsRunsReached(gs: seq<Group>, ts: seq<Test>, e: bool, roots: seq<nat>, s: RunState, id: nat)
    requires Shaped(gs, |ts|) && Linked(gs, ts) && ChildrenListed(gs) && SameTests(ts, s)
    requires (forall i :: 0 <= i < |roots| ==> roots[i] < |gs|) && RootsComplete(gs, roots)
    requires BeforeHooksSurvive(gs, s.tests) && Reached(gs, ts, e, id)
    ensures var r := RunRoots(gs, roots, e, s);
            |s.ran| <= |r.ran| && id in r.ran[|s.ran|..]
  {
    var h := ts[id].group;
    PathEligibleFromTop(gs, e, h);
    var t := TopOf(gs, h);
    var j :| 0 <= j < |roots| && roots[j] == t;
    RunRootsRunsOwned(gs, ts, e, roots, j, h, id, s);
  }

  /**
   * Under the same conditions, with parentless roots, the root loop runs a
   * test or hook exactly when it is reached.
   */
  lemma RunRootsRunsExactlyReached(gs: seq<Group>, ts: seq<Test>, e: bool, roots: seq<nat>, s: RunState)
    requires Shaped(gs, |ts|) && Linked(gs, ts) && ChildrenListed(gs) && SameTests(ts, s)
    requires (forall i :: 0 <= i < |roots| ==> roots[i] < |gs| && gs[roots[i]].parent.None?) && RootsComplete(gs, roots)
    requires BeforeHooksSurvive(gs, s.tests)
    ensures var r := RunRoots(gs, roots, e, s);
            s.ran <= r.ran && forall id :: id in r.ran[|s.ran|..] <==> Reached(gs, ts, e, id)
  {
    var r := RunRoots(gs, roots, e, s);
    RunRootsReach(gs, ts, e, roots, s);
    forall id ensures id in r.ran[|s.ran|..] <==> Reached(gs, ts, e, id) {
      if id in r.ran[|s.ran|..] {
        var j :| 0 <= j < |r.ran[|s.ran|..]| && r.ran[|s.ran|..][j] == id;
        assert r.ran[|s.ran| + j] == id;
      }
      if Reached(gs, ts, e, id) {
        RunRootsRunsReached(gs, ts, e, roots, s, id);
      }
    }
  }

  /**
   * When `describe.only` marks a group with nothing exclusive beneath it,
   * every test of the group that is neither skipped nor exclusive is run,
   * provided the tree is complete and no before hook stops its group.
   */
  lemma ExclusiveGroupTestsRun(gs: seq<Group>, ts: seq<Test>, e: bool, roots: seq<nat>, s: RunState, g: nat, id: nat)
    requires Shaped(gs, |ts|) && Linked(gs, ts) && ChildrenListed(gs) && SameTests(ts, s)
    requires (forall i :: 0 <= i < |roots| ==> roots[i] < |gs|) && RootsComplete(gs, roots)
    requires BeforeHooksSurvive(gs, s.tests) && ExclusivityHolds(Tree(gs, ts, e))
    requires g < |gs| && gs[g].isExclusive && !gs[g].skipTest && !gs[g].hasExclusive
    requires UnskippedPrefix(gs, Ancestors(gs, Some(g))) == |Ancestors(gs, Some(g))|
    requires id in gs[g].tests && id < |ts| && !ts[id].skipTest && !ts[id].isExclusive
    ensures var r := RunRoots(gs, roots, e, s);
            |s.ran| <= |r.ran| && id in r.ran[|s.ran|..]
  {
    ExclusiveGroupSelected(Tree(gs, ts, e), g);
    var i :| 0 <= i < |gs[g].tests| && gs[g].tests[i] == id;
    assert ts[id].group == g;
    RunRootsRunsReached(gs, ts, e, roots, s, id);
  }
}
