/**
 * The legacy `Casette` engine of lib/casette.mjs: a flat registry with no
 * hooks and no `only`. Nested `describe` calls only build a name prefix;
 * tests go into one group per test file, created on first use, or into the
 * engine's own list when no file is set. `run` visits the groups in creation
 * order and the tests of each in registration order, then the loose tests.
 * Groups and tests live in two arenas and are referred to by index.
 */
module CasetteEngine {
  import opened Values
  import opened Execution

  /** `new Group(name)`: the group of one test file. */
  datatype Group = Group(name: string, tests: seq<nat>)

  /** What `test.group` points at: the engine itself (no file set) or a group. */
  datatype Container = Loose | InGroup(group: nat)

  /**
   * A test: `customTimeout` is 0 for null, `error` is None for null, and
   * `owner` is `test.group`.
   */
  datatype Test = Test(skipTest: bool, customTimeout: nat, name: string, body: Body, owner: Container, error: Option<Value>)

  /** `new Test(name, func)` with `test.group` set to `owner`. */
  function NewTest(name: string, body: Body, owner: Container): Test {
    Test(false, 0, name, body, owner, None)
  }

  /** `prefix + ' ' + name` when there is a prefix, `name` otherwise. */
  function Join(prefix: string, name: string): string {
    if prefix != "" then prefix + " " + name else name
  }

  /**
   * Nesting `describe(a)` inside a prefix `p` and naming `b` there is the
   * same as naming `a + ' ' + b` under `p`, unless both `p` and `a` are
   * empty: a top-level `describe('')` leaves no trace in the names.
   */
  lemma JoinNested(p: string, a: string, b: string)
    ensures p != "" || a != "" ==> Join(Join(p, a), b) == Join(p, a + " " + b)
    ensures p == "" && a == "" ==> Join(Join(p, a), b) == b
  {
    if p != "" {
      assert (p + " " + a) + " " + b == p + " " + (a + " " + b);
    }
  }

  /** A call on the test object `test()` returns. */
  datatype Adjust = TimeoutAdj(ms: nat) | SkipAdj

  /** One call a test file or a `describe` body makes, in order. */
  datatype Call =
    | DescribeCall(name: string, body: seq<Call>)
    | TestCall(name: string, test: Body, handle: seq<Adjust>)
    | SetFilenameCall(filename: string)
    | ResetFilenameCall

  /** A test after the calls `adj` on its handle. */
  function Adjusted(t: Test, adj: seq<Adjust>): (r: Test)
    ensures r.name == t.name && r.body == t.body && r.owner == t.owner && r.error == t.error
    decreases |adj|
  {
    if adj == [] then t
    else
      var t1 := Adjusted(t, adj[..|adj| - 1]);
      match adj[|adj| - 1]
      case TimeoutAdj(ms) => t1.(customTimeout := ms)
      case SkipAdj => t1.(skipTest := true)
  }

  /**
   * The argument of the last `timeout(ms)` call in `adj`, or `dflt` when
   * there is none.
   */
  function LastTimeout(adj: seq<Adjust>, dflt: nat): nat
    decreases |adj|
  {
    if adj == [] then dflt
    else if adj[|adj| - 1].TimeoutAdj? then adj[|adj| - 1].ms
    else LastTimeout(adj[..|adj| - 1], dflt)
  }

  /** `LastTimeout` is `dflt` without a `timeout` call, and otherwise the argument of the call no later one follows. */
  lemma {:induction false} LastTimeoutIsLast(adj: seq<Adjust>, dflt: nat)
    ensures (forall i :: 0 <= i < |adj| ==> !adj[i].TimeoutAdj?) ==> LastTimeout(adj, dflt) == dflt
    ensures forall i :: 0 <= i < |adj| && adj[i].TimeoutAdj? && (forall j :: i < j < |adj| ==> !adj[j].TimeoutAdj?) ==>
              LastTimeout(adj, dflt) == adj[i].ms
    decreases |adj|
  {
    if adj != [] && !adj[|adj| - 1].TimeoutAdj? {
      var front := adj[..|adj| - 1];
      LastTimeoutIsLast(front, dflt);
      assert forall i :: 0 <= i < |front| ==> front[i] == adj[i];
    }
  }

  /** The flags a handle leaves: skipped iff it was or some call skipped, and the last timeout given. */
  lemma {:induction false} AdjustedFlags(t: Test, adj: seq<Adjust>)
    ensures Adjusted(t, adj).skipTest == (t.skipTest || SkipAdj in adj)
    ensures Adjusted(t, adj).customTimeout == LastTimeout(adj, t.customTimeout)
    decreases |adj|
  {
    if adj != [] {
      var front, last := adj[..|adj| - 1], adj[|adj| - 1];
      AdjustedFlags(t, front);
      assert adj == front + [last];
      assert SkipAdj in adj <==> SkipAdj in front || last == SkipAdj;
    }
  }

  /** The names of the tests the calls `ds` register, in order, when made under prefix `p`. */
  function Names(p: string, ds: seq<Call>): seq<string>
    decreases ds
  {
    if ds == [] then []
    else
      var front := Names(p, ds[..|ds| - 1]);
      match ds[|ds| - 1]
      case DescribeCall(n, b) => front + Names(Join(p, n), b)
      case TestCall(n, _, _) => front + [Join(p, n)]
      case _ => front
  }

  /** A test declared inside `describe(a)` under prefix `p` is named `a + ' ' + b` under `p`. */
  lemma NestedTestName(p: string, a: string, b: string, body: Body, handle: seq<Adjust>)
    requires p != "" || a != ""
    ensures Names(p, [DescribeCall(a, [TestCall(b, body, handle)])]) == [Join(p, a + " " + b)]
  {
    var inner := [TestCall(b, body, handle)];
    assert inner[..0] == [];
    assert Names(Join(p, a), inner) == [Join(Join(p, a), b)];
    var outer := [DescribeCall(a, inner)];
    assert outer[..0] == [];
    JoinNested(p, a, b);
  }

  function NamesOf(ts: seq<Test>): (r: seq<string>)
    ensures |r| == |ts| && forall i :: 0 <= i < |ts| ==> r[i] == ts[i].name
  {
    seq(|ts|, i requires 0 <= i < |ts| => ts[i].name)
  }

  // ---------------------------------------------------------------------------
  // The registry invariant

  /** Every group's tests are tests of that group. */
  ghost predicate GroupsOwn(gs: seq<Group>, ts: seq<Test>) {
    forall g, k :: 0 <= g < |gs| && 0 <= k < |gs[g].tests| ==>
      gs[g].tests[k] < |ts| && ts[gs[g].tests[k]].owner == InGroup(g)
  }

  /** Every loose test has the engine as its container. */
  ghost predicate LooseOwn(loose: seq<nat>, ts: seq<Test>) {
    forall k :: 0 <= k < |loose| ==> loose[k] < |ts| && ts[loose[k]].owner == Loose
  }

  /**
   * `groupsFlat` lists every group ever created, once, in creation order;
   * the map sends each file name to a group of that name; `test.group`
   * points at the container that lists the test.
   */
  ghost predicate Registry(gs: seq<Group>, ts: seq<Test>, files: map<string, nat>, flat: seq<nat>, loose: seq<nat>) {
    |flat| == |gs| && (forall i :: 0 <= i < |flat| ==> flat[i] == i)
    && (forall f :: f in files ==> files[f] < |gs| && gs[files[f]].name == f)
    && GroupsOwn(gs, ts) && LooseOwn(loose, ts)
  }

  /** `ts'` is `ts` with only errors changed. */
  ghost predicate ErrorsOnly(ts: seq<Test>, ts': seq<Test>) {
    |ts'| == |ts| && forall i :: 0 <= i < |ts| ==> ts'[i] == ts[i].(error := ts'[i].error)
  }

  lemma ErrorsKeepRegistry(gs: seq<Group>, ts: seq<Test>, files: map<string, nat>, flat: seq<nat>, loose: seq<nat>, ts': seq<Test>)
    requires Registry(gs, ts, files, flat, loose) && ErrorsOnly(ts, ts')
    ensures Registry(gs, ts', files, flat, loose)
  {
    forall i | 0 <= i < |ts| ensures ts'[i].owner == ts[i].owner {
      assert ts'[i] == ts[i].(error := ts'[i].error);
    }
  }

  /** Changing flags of one test keeps the invariant. */
  lemma AdjustKeepsRegistry(gs: seq<Group>, ts: seq<Test>, files: map<string, nat>, flat: seq<nat>, loose: seq<nat>, id: nat, t: Test)
    requires Registry(gs, ts, files, flat, loose) && id < |ts| && t.owner == ts[id].owner
    ensures Registry(gs, ts[id := t], files, flat, loose)
  {
  }

  /** A test added to the loose list keeps the invariant. */
  lemma AddLooseKeepsRegistry(gs: seq<Group>, ts: seq<Test>, files: map<string, nat>, flat: seq<nat>, loose: seq<nat>, t: Test)
    requires Registry(gs, ts, files, flat, loose) && t.owner == Loose
    ensures Registry(gs, ts + [t], files, flat, loose + [|ts|])
  {
    var ts' := ts + [t];
    assert forall i :: 0 <= i < |ts| ==> ts'[i] == ts[i];
  }

  /** A test added to an existing group keeps the invariant. */
  lemma AddToGroupKeepsRegistry(gs: seq<Group>, ts: seq<Test>, files: map<string, nat>, flat: seq<nat>, loose: seq<nat>, g: nat, t: Test)
    requires Registry(gs, ts, files, flat, loose) && g < |gs| && t.owner == InGroup(g)
    ensures Registry(gs[g := gs[g].(tests := gs[g].tests + [|ts|])], ts + [t], files, flat, loose)
  {
    var ts' := ts + [t];
    var gs' := gs[g := gs[g].(tests := gs[g].tests + [|ts|])];
    assert forall i :: 0 <= i < |ts| ==> ts'[i] == ts[i];
    forall h, k | 0 <= h < |gs'| && 0 <= k < |gs'[h].tests|
      ensures gs'[h].tests[k] < |ts'| && ts'[gs'[h].tests[k]].owner == InGroup(h)
    {
      if h == g && k == |gs[g].tests| {
      } else {
        assert gs'[h].tests[k] == gs[h].tests[k];
      }
    }
  }

  /** A new group for file `f` keeps the invariant. */
  lemma NewGroupKeepsRegistry(gs: seq<Group>, ts: seq<Test>, files: map<string, nat>, flat: seq<nat>, loose: seq<nat>, f: string)
    requires Registry(gs, ts, files, flat, loose)
    ensures Registry(gs + [Group(f, [])], ts, files[f := |gs|], flat + [|gs|], loose)
  {
    var gs' := gs + [Group(f, [])];
    assert forall g :: 0 <= g < |gs| ==> gs'[g] == gs[g];
  }

  // ---------------------------------------------------------------------------
  // Running, as functions of the state it changes (lib/casette.mjs:52-220)

  datatype RunState = RunState(tests: seq<Test>, stats: Counts, failedTests: seq<nat>, ran: seq<nat>)

  /** `if (test.error)` */
  predicate Reported(t: Test) {
    t.error.Some? && Truthy(t.error.value)
  }

  /**
   * `__runTest(stats, test)`: a skipped test counts as skipped; otherwise its
   * body is raced against its timeout; a pass counts as passed, a failure
   * stores the raw rejection value and counts as failed. A test whose error
   * is truthy afterwards is appended to `failedTests`.
   */
  function RunOne(s: RunState, id: nat): (r: RunState)
    requires id < |s.tests|
    ensures ErrorsOnly(s.tests, r.tests) && r.ran == s.ran + [id]
  {
    var t := s.tests[id];
    var (t', c) :=
      if t.skipTest then (t, s.stats.(skipped := s.stats.skipped + 1))
      else match Settle(t.body, EffectiveTimeout(t.customTimeout))
        case Pass => (t, s.stats.(passed := s.stats.passed + 1))
        case Fail(err) => (t.(error := Some(err)), s.stats.(failed := s.stats.failed + 1));
    RunState(s.tests[id := t'], c, s.failedTests + (if Reported(t') then [id] else []), s.ran + [id])
  }

  /**
   * Each visited test adds one to exactly one counter: skipped when it is
   * skipped, else passed or failed as its body settles. A failure stores the
   * rejection value as it is, and the test is reported exactly when its
   * error is truthy afterwards.
   */
  lemma RunOneCounts(s: RunState, id: nat)
    requires id < |s.tests|
    ensures var r := RunOne(s, id);
            var t := s.tests[id];
            var o := Settle(t.body, EffectiveTimeout(t.customTimeout));
            Total(r.stats) == Total(s.stats) + 1
            && (r.stats.skipped == s.stats.skipped + 1 <==> t.skipTest)
            && (r.stats.passed == s.stats.passed + 1 <==> !t.skipTest && o.Pass?)
            && (r.stats.failed == s.stats.failed + 1 <==> !t.skipTest && o.Fail?)
            && (!t.skipTest && o.Fail? ==> r.tests[id].error == Some(o.reason))
            && (r.failedTests == s.failedTests + [id] <==> Reported(r.tests[id]))
            && (!Reported(r.tests[id]) ==> r.failedTests == s.failedTests)
  {
    var r := RunOne(s, id);
    assert r.tests[id] == RunOne(s, id).tests[id];
    if Reported(r.tests[id]) {
      assert r.failedTests == s.failedTests + [id];
    } else {
      assert r.failedTests == s.failedTests;
      assert s.failedTests + [id] != s.failedTests by {
        assert |s.failedTests + [id]| != |s.failedTests|;
      }
    }
  }

  /**
   * Unlike the newer engine, the legacy one stores a falsy rejection value
   * as it is: a test whose promise rejects with `undefined` counts as
   * failed but is not listed among the failures.
   */
  lemma FalsyRejectionUnreported(s: RunState, id: nat)
    requires id < |s.tests| && !s.tests[id].skipTest
    requires Settle(s.tests[id].body, EffectiveTimeout(s.tests[id].customTimeout)) == Fail(Undefined)
    ensures RunOne(s, id).stats.failed == s.stats.failed + 1
    ensures RunOne(s, id).failedTests == s.failedTests
  {
  }

  /**
   * A pass leaves an error from an earlier run in place, so a test that
   * failed in one run and passes in the next is reported again.
   */
  lemma StaleErrorReported(s: RunState, id: nat)
    requires id < |s.tests| && !s.tests[id].skipTest && Reported(s.tests[id])
    requires Settle(s.tests[id].body, EffectiveTimeout(s.tests[id].customTimeout)).Pass?
    ensures RunOne(s, id).stats.passed == s.stats.passed + 1
    ensures RunOne(s, id).failedTests == s.failedTests + [id]
  {
  }

  /** The tests `ids` run in order. */
  function RunList(s: RunState, ids: seq<nat>): (r: RunState)
    requires forall i :: 0 <= i < |ids| ==> ids[i] < |s.tests|
    ensures |r.tests| == |s.tests|
    decreases |ids|
  {
    if ids == [] then s
    else
      var s1 := RunList(s, ids[..|ids| - 1]);
      RunOne(s1, ids[|ids| - 1])
  }

  /** Running a list visits exactly its tests, in order, and counts each once. */
  lemma {:induction false} RunListVisits(s: RunState, ids: seq<nat>)
    requires forall i :: 0 <= i < |ids| ==> ids[i] < |s.tests|
    ensures RunList(s, ids).ran == s.ran + ids
    ensures Total(RunList(s, ids).stats) == Total(s.stats) + |ids|
    ensures s.failedTests <= RunList(s, ids).failedTests
    decreases |ids|
  {
    if ids != [] {
      var front := ids[..|ids| - 1];
      RunListVisits(s, front);
      var s1 := RunList(s, front);
      RunOneCounts(s1, ids[|ids| - 1]);
      assert front + [ids[|ids| - 1]] == ids;
    }
  }

  lemma ErrorsOnlyTrans(a: seq<Test>, b: seq<Test>, c: seq<Test>)
    requires ErrorsOnly(a, b) && ErrorsOnly(b, c)
    ensures ErrorsOnly(a, c)
  {
    forall i | 0 <= i < |a| ensures c[i] == a[i].(error := c[i].error) {
      assert b[i] == a[i].(error := b[i].error);
      assert c[i] == b[i].(error := c[i].error);
    }
  }

  /** Running a list changes nothing about the tests but their errors. */
  lemma {:induction false} RunListErrorsOnly(s: RunState, ids: seq<nat>)
    requires forall i :: 0 <= i < |ids| ==> ids[i] < |s.tests|
    ensures ErrorsOnly(s.tests, RunList(s, ids).tests)
    decreases |ids|
  {
    if ids == [] {
      assert ErrorsOnly(s.tests, s.tests) by {
        forall i | 0 <= i < |s.tests| ensures s.tests[i] == s.tests[i].(error := s.tests[i].error) {
        }
      }
    } else {
      var front := ids[..|ids| - 1];
      RunListErrorsOnly(s, front);
      var s1 := RunList(s, front);
      ErrorsOnlyTrans(s.tests, s1.tests, RunOne(s1, ids[|ids| - 1]).tests);
    }
  }

  /** Every id in `flat` is below `n`. */
  predicate GroupsIn(flat: seq<nat>, n: nat) {
    forall i :: 0 <= i < |flat| ==> flat[i] < n
  }

  /** Every group lists tests below `n` only. */
  ghost predicate TestsBelow(gs: seq<Group>, n: nat) {
    forall g, k :: 0 <= g < |gs| && 0 <= k < |gs[g].tests| ==> gs[g].tests[k] < n
  }

  lemma GroupsInFront(flat: seq<nat>, n: nat)
    requires GroupsIn(flat, n) && flat != []
    ensures GroupsIn(flat[..|flat| - 1], n) && flat[|flat| - 1] < n
  {
  }

  /** The tests of the groups `flat`, group after group. */
  function Schedule(gs: seq<Group>, flat: seq<nat>): seq<nat>
    requires GroupsIn(flat, |gs|)
    decreases |flat|
  {
    if flat == [] then []
    else
      GroupsInFront(flat, |gs|);
      Schedule(gs, flat[..|flat| - 1]) + gs[flat[|flat| - 1]].tests
  }

  /** The group loop of `run` over `flat`, each group's tests in order. */
  function RunFlat(s: RunState, gs: seq<Group>, flat: seq<nat>): (r: RunState)
    requires GroupsIn(flat, |gs|) && TestsBelow(gs, |s.tests|)
    ensures |r.tests| == |s.tests|
    decreases |flat|
  {
    if flat == [] then s
    else
      GroupsInFront(flat, |gs|);
      var s1 := RunFlat(s, gs, flat[..|flat| - 1]);
      RunList(s1, gs[flat[|flat| - 1]].tests)
  }

  /** `run()` from state `s`: the groups in `flat` order, then the loose tests. */
  function RunAll(s: RunState, gs: seq<Group>, flat: seq<nat>, loose: seq<nat>): (r: RunState)
    requires GroupsIn(flat, |gs|) && TestsBelow(gs, |s.tests|) && GroupsIn(loose, |s.tests|)
    ensures |r.tests| == |s.tests|
  {
    RunList(RunFlat(s, gs, flat), loose)
  }

  lemma {:induction false} RunFlatVisits(s: RunState, gs: seq<Group>, flat: seq<nat>)
    requires GroupsIn(flat, |gs|) && TestsBelow(gs, |s.tests|)
    ensures RunFlat(s, gs, flat).ran == s.ran + Schedule(gs, flat)
    ensures Total(RunFlat(s, gs, flat).stats) == Total(s.stats) + |Schedule(gs, flat)|
    decreases |flat|
  {
    if flat != [] {
      var front := flat[..|flat| - 1];
      var l := gs[flat[|flat| - 1]].tests;
      GroupsInFront(flat, |gs|);
      RunFlatVisits(s, gs, front);
      var s1 := RunFlat(s, gs, front);
      assert RunFlat(s, gs, flat) == RunList(s1, l);
      assert Schedule(gs, flat) == Schedule(gs, front) + l;
      RunListVisits(s1, l);
      assert s1.ran + l == s.ran + (Schedule(gs, front) + l);
    }
  }

  lemma {:induction false} RunFlatErrorsOnly(s: RunState, gs: seq<Group>, flat: seq<nat>)
    requires GroupsIn(flat, |gs|) && TestsBelow(gs, |s.tests|)
    ensures ErrorsOnly(s.tests, RunFlat(s, gs, flat).tests)
    decreases |flat|
  {
    if flat == [] {
      RunListErrorsOnly(s, []);
    } else {
      var front := flat[..|flat| - 1];
      var l := gs[flat[|flat| - 1]].tests;
      GroupsInFront(flat, |gs|);
      RunFlatErrorsOnly(s, gs, front);
      var s1 := RunFlat(s, gs, front);
      RunListErrorsOnly(s1, l);
      ErrorsOnlyTrans(s.tests, s1.tests, RunList(s1, l).tests);
    }
  }

  /**
   * `run()` visits every test of every group in creation order, each
   * group's tests in registration order, then the loose tests; every visit
   * adds exactly one to the counters, and only the tests' errors change.
   */
  lemma RunAllVisits(s: RunState, gs: seq<Group>, flat: seq<nat>, loose: seq<nat>)
    requires GroupsIn(flat, |gs|) && TestsBelow(gs, |s.tests|) && GroupsIn(loose, |s.tests|)
    ensures RunAll(s, gs, flat, loose).ran == s.ran + Schedule(gs, flat) + loose
    ensures Total(RunAll(s, gs, flat, loose).stats) == Total(s.stats) + |Schedule(gs, flat)| + |loose|
    ensures ErrorsOnly(s.tests, RunAll(s, gs, flat, loose).tests)
  {
    RunFlatVisits(s, gs, flat);
    RunListVisits(RunFlat(s, gs, flat), loose);
    RunFlatErrorsOnly(s, gs, flat);
    RunListErrorsOnly(RunFlat(s, gs, flat), loose);
    ErrorsOnlyTrans(s.tests, RunFlat(s, gs, flat).tests, RunAll(s, gs, flat, loose).tests);
  }

  // ---------------------------------------------------------------------------
  // The engine

  /** The fields of the engine running leaves alone. */
  datatype Setup = Setup(groupArena: seq<Group>, groups: map<string, nat>, groupsFlat: seq<nat>, tests: seq<nat>,
                         hasTests: bool, starting: bool, filename: string, prefix: string)

  class Casette {
    var groupArena: seq<Group>
    var testArena: seq<Test>
    /** File name to its group, for the files seen since `begin`. */
    var groups: map<string, nat>
    /** Every group ever created, in creation order. */
    var groupsFlat: seq<nat>
    /** The tests registered with no file set. */
    var tests: seq<nat>
    var failedTests: seq<nat>
    var hasTests: bool
    var starting: bool
    var filename: string
    var prefix: string
    /** The tests `__runTest` has been called on, in order. */
    ghost var ran: seq<nat>

    ghost predicate Valid()
      reads this`groupArena, this`testArena, this`groups, this`groupsFlat, this`tests
    {
      Registry(groupArena, testArena, groups, groupsFlat, tests)
    }

    function Fields(): Setup
      reads this
    {
      Setup(groupArena, groups, groupsFlat, tests, hasTests, starting, filename, prefix)
    }

    ghost function Progress(stats: Stats): RunState
      reads this, stats
    {
      RunState(testArena, stats.Value(), failedTests, ran)
    }

    /** `new Casette()` (lib/casette.mjs:25-37). */
    constructor ()
      ensures Valid()
      ensures groupArena == [] && testArena == [] && groups == map[] && groupsFlat == [] && tests == []
      ensures failedTests == [] && !hasTests && !starting && filename == "" && prefix == "" && ran == []
    {
      groupArena, testArena, groups, groupsFlat, tests := [], [], map[], [], [];
      failedTests, hasTests, starting, filename, prefix := [], false, false, "", "";
      ran := [];
    }

    /**
     * `begin()`: a second call changes nothing. The first forgets the file
     * groups and the loose tests, but `groupsFlat` keeps every group created
     * so far, so a file seen again gets a second group of the same name.
     */
    method Begin()
      requires Valid()
      modifies this
      ensures Valid()
      ensures old(starting) ==> unchanged(this)
      ensures !old(starting) ==>
                !hasTests && starting && filename == "" && prefix == "" && groups == map[] && tests == []
                && groupsFlat == old(groupsFlat) && groupArena == old(groupArena) && testArena == old(testArena)
                && failedTests == old(failedTests) && ran == old(ran)
    {
      if starting {
        return;
      }
      hasTests := false;
      starting := true;
      filename := "";
      prefix := "";
      groups := map[];
      tests := [];
    }

    /** `setFilename(filename)` */
    method SetFilename(f: string)
      requires Valid()
      modifies this
      ensures Valid() && Fields() == old(Fields()).(filename := f)
      ensures testArena == old(testArena) && failedTests == old(failedTests) && ran == old(ran)
    {
      filename := f;
    }

    /** `resetFilename()` */
    method ResetFilename()
      requires Valid()
      modifies this
      ensures Valid() && Fields() == old(Fields()).(filename := "")
      ensures testArena == old(testArena) && failedTests == old(failedTests) && ran == old(ran)
    {
      filename := "";
    }

    /** `test.timeout(time)` */
    method TestTimeout(id: nat, time: nat)
      requires Valid() && id < |testArena|
      modifies this
      ensures Valid() && Fields() == old(Fields())
      ensures testArena == old(testArena)[id := old(testArena)[id].(customTimeout := time)]
      ensures failedTests == old(failedTests) && ran == old(ran)
    {
      AdjustKeepsRegistry(groupArena, testArena, groups, groupsFlat, tests, id, testArena[id].(customTimeout := time));
      testArena := testArena[id := testArena[id].(customTimeout := time)];
    }

    /** `test.skip()` */
    method TestSkip(id: nat)
      requires Valid() && id < |testArena|
      modifies this
      ensures Valid() && Fields() == old(Fields())
      ensures testArena == old(testArena)[id := old(testArena)[id].(skipTest := true)]
      ensures failedTests == old(failedTests) && ran == old(ran)
    {
      AdjustKeepsRegistry(groupArena, testArena, groups, groupsFlat, tests, id, testArena[id].(skipTest := true));
      testArena := testArena[id := testArena[id].(skipTest := true)];
    }

    /** The calls `adj` on the handle of test `id`: it ends up as `Adjusted` says. */
    method ApplyAdjustments(id: nat, adj: seq<Adjust>)
      requires Valid() && id < |testArena|
      modifies this
      ensures Valid() && Fields() == old(Fields())
      ensures testArena == old(testArena)[id := Adjusted(old(testArena)[id], adj)]
      ensures failedTests == old(failedTests) && ran == old(ran)
    {
      for k := 0 to |adj|
        invariant Valid() && Fields() == old(Fields())
        invariant testArena == old(testArena)[id := Adjusted(old(testArena)[id], adj[..k])]
        invariant failedTests == old(failedTests) && ran == old(ran)
      {
        assert adj[..k + 1][..k] == adj[..k];
        match adj[k] {
          case TimeoutAdj(ms) => TestTimeout(id, ms);
          case SkipAdj => TestSkip(id);
        }
      }
      assert adj[..|adj|] == adj;
    }

    /** Appends `t` to the loose tests. */
    method AddLoose(t: Test) returns (id: nat)
      requires Valid() && t.owner == Loose
      modifies this
      ensures Valid() && id == |old(testArena)| && testArena == old(testArena) + [t]
      ensures Fields() == old(Fields()).(tests := old(tests) + [id])
      ensures failedTests == old(failedTests) && ran == old(ran)
    {
      AddLooseKeepsRegistry(groupArena, testArena, groups, groupsFlat, tests, t);
      id := |testArena|;
      testArena := testArena + [t];
      tests := tests + [id];
    }

    /** Appends `t` to group `g`. */
    method AddToGroup(g: nat, t: Test) returns (id: nat)
      requires Valid() && g < |groupArena| && t.owner == InGroup(g)
      modifies this
      ensures Valid() && id == |old(testArena)| && testArena == old(testArena) + [t]
      ensures Fields() == old(Fields()).(groupArena := old(groupArena)[g := old(groupArena)[g].(tests := old(groupArena)[g].tests + [id])])
      ensures failedTests == old(failedTests) && ran == old(ran)
    {
      AddToGroupKeepsRegistry(groupArena, testArena, groups, groupsFlat, tests, g, t);
      id := |testArena|;
      testArena := testArena + [t];
      groupArena := groupArena[g := groupArena[g].(tests := groupArena[g].tests + [id])];
    }

    /** `new Group(this.filename)`, added to the map and to `groupsFlat`. */
    method AddFileGroup() returns (g: nat)
      requires Valid()
      modifies this
      ensures Valid() && g == |old(groupArena)|
      ensures Fields() == old(Fields()).(groupArena := old(groupArena) + [Group(filename, [])],
                                         groups := old(groups)[filename := g], groupsFlat := old(groupsFlat) + [g])
      ensures testArena == old(testArena) && failedTests == old(failedTests) && ran == old(ran)
    {
      NewGroupKeepsRegistry(groupArena, testArena, groups, groupsFlat, tests, filename);
      g := |groupArena|;
      groupsFlat := groupsFlat + [g];
      groups := groups[filename := g];
      groupArena := groupArena + [Group(filename, [])];
    }

    /**
     * `test(name, func)`: the test is named after the prefix and marks the
     * engine as having tests. With a file set, it joins the file's group,
     * which is created (and appended to `groupsFlat`) on first use; with
     * none, it joins the loose tests.
     */
    method Test(name: string, body: Body) returns (id: nat)
      requires Valid()
      modifies this
      ensures Valid() && id == |old(testArena)| && |testArena| == id + 1 && hasTests
      ensures testArena == old(testArena) + [NewTest(Join(prefix, name), body, testArena[id].owner)]
      ensures old(filename) == "" ==>
                testArena[id].owner == Loose && tests == old(tests) + [id]
                && groupArena == old(groupArena) && groupsFlat == old(groupsFlat) && groups == old(groups)
      ensures old(filename) != "" && old(filename) in old(groups) ==>
                var g := old(groups)[old(filename)];
                testArena[id].owner == InGroup(g)
                && groupArena == old(groupArena)[g := old(groupArena)[g].(tests := old(groupArena)[g].tests + [id])]
                && groupsFlat == old(groupsFlat) && groups == old(groups) && tests == old(tests)
      ensures old(filename) != "" && old(filename) !in old(groups) ==>
                var g := |old(groupArena)|;
                testArena[id].owner == InGroup(g)
                && groupArena == old(groupArena) + [Group(old(filename), [id])]
                && groupsFlat == old(groupsFlat) + [g] && groups == old(groups)[old(filename) := g] && tests == old(tests)
      ensures starting == old(starting) && filename == old(filename) && prefix == old(prefix)
      ensures failedTests == old(failedTests) && ran == old(ran)
    {
      var targetName := Join(prefix, name);
      hasTests := true;
      if filename == "" {
        id := AddLoose(NewTest(targetName, body, Loose));
        return;
      }
      if filename in groups {
        var g := groups[filename];
        id := AddToGroup(g, NewTest(targetName, body, InGroup(g)));
      } else {
        ghost var gs0 := groupArena;
        var g := AddFileGroup();
        id := AddToGroup(g, NewTest(targetName, body, InGroup(g)));
        assert (gs0 + [Group(filename, [])])[g].tests + [id] == [id];
        assert (gs0 + [Group(filename, [])])[g := Group(filename, [id])] == gs0 + [Group(filename, [id])];
      }
    }

    /**
     * `describe(name, func)`: the calls of `func` are made with `name`
     * joined to the prefix, and the prefix is restored afterwards.
     */
    method Describe(name: string, body: seq<Call>) returns ()
      requires Valid()
      modifies this
      ensures Valid() && prefix == old(prefix) && old(testArena) <= testArena
      ensures NamesOf(testArena) == NamesOf(old(testArena)) + Names(Join(old(prefix), name), body)
      ensures failedTests == old(failedTests) && ran == old(ran)
      decreases body, 1
    {
      var before := prefix;
      prefix := Join(before, name);
      Declare(body);
      prefix := before;
    }

    /** The calls `ds` in order: the tests they register carry the names `Names` gives. */
    method Declare(ds: seq<Call>)
      requires Valid()
      modifies this
      ensures Valid() && prefix == old(prefix) && old(testArena) <= testArena
      ensures NamesOf(testArena) == NamesOf(old(testArena)) + Names(old(prefix), ds)
      ensures failedTests == old(failedTests) && ran == old(ran)
      decreases ds, 0
    {
      for i := 0 to |ds|
        invariant Valid() && prefix == old(prefix) && old(testArena) <= testArena
        invariant NamesOf(testArena) == NamesOf(old(testArena)) + Names(old(prefix), ds[..i])
        invariant failedTests == old(failedTests) && ran == old(ran)
      {
        ghost var names := NamesOf(testArena);
        assert ds[..i + 1][..i] == ds[..i];
        match ds[i] {
          case DescribeCall(n, b) =>
            Describe(n, b);
          case TestCall(n, test, handle) =>
            var id := Test(n, test);
            ApplyAdjustments(id, handle);
          case SetFilenameCall(f) =>
            SetFilename(f);
          case ResetFilenameCall =>
            ResetFilename();
        }
      }
      assert ds[..|ds|] == ds;
    }

    // -------------------------------------------------------------------------
    // Running

    /** `__runTest(stats, test)`, as RunOne says. */
    method RunTest(stats: Stats, id: nat)
      requires Valid() && id < |testArena|
      modifies this, stats
      ensures Valid() && Fields() == old(Fields())
      ensures Progress(stats) == RunOne(old(Progress(stats)), id)
    {
      ghost var r := RunOne(Progress(stats), id);
      var t := testArena[id];
      if !t.skipTest {
        match Settle(t.body, EffectiveTimeout(t.customTimeout)) {
          case Pass =>
            stats.passed := stats.passed + 1;
          case Fail(err) =>
            ErrorsKeepRegistry(groupArena, testArena, groups, groupsFlat, tests, testArena[id := t.(error := Some(err))]);
            testArena := testArena[id := t.(error := Some(err))];
            stats.failed := stats.failed + 1;
        }
      } else {
        stats.skipped := stats.skipped + 1;
      }
      assert testArena == r.tests && stats.Value() == r.stats;
      if Reported(testArena[id]) {
        failedTests := failedTests + [id];
      }
      ran := ran + [id];
    }

    /** The tests `ids`, one after the other. */
    method RunIds(stats: Stats, ids: seq<nat>)
      requires Valid() && forall i :: 0 <= i < |ids| ==> ids[i] < |testArena|
      modifies this, stats
      ensures Valid() && Fields() == old(Fields())
      ensures Progress(stats) == RunList(old(Progress(stats)), ids)
    {
      for x := 0 to |ids|
        invariant Valid() && Fields() == old(Fields()) && |testArena| == |old(testArena)|
        invariant Progress(stats) == RunList(old(Progress(stats)), ids[..x])
      {
        assert ids[..x + 1][..x] == ids[..x];
        RunTest(stats, ids[x]);
      }
      assert ids[..|ids|] == ids;
    }

    /** `run()`: fresh counters, every group's tests in `groupsFlat` order, then the loose tests. */
    method Run() returns (stats: Stats)
      requires Valid()
      modifies this
      ensures fresh(stats) && Valid() && Fields() == old(Fields())
      ensures Progress(stats) == RunAll(RunState(old(testArena), Counts(0, 0, 0), old(failedTests), old(ran)),
                                        groupArena, groupsFlat, tests)
    {
      stats := new Stats();
      ghost var s0 := Progress(stats);
      for i := 0 to |groupsFlat|
        invariant Valid() && Fields() == old(Fields()) && fresh(stats) && |testArena| == |old(testArena)|
        invariant Progress(stats) == RunFlat(s0, groupArena, groupsFlat[..i])
      {
        assert groupsFlat[..i + 1][..i] == groupsFlat[..i];
        RunIds(stats, groupArena[groupsFlat[i]].tests);
      }
      assert groupsFlat[..|groupsFlat|] == groupsFlat;
      RunIds(stats, tests);
    }
  }
}
