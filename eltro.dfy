/**
 * The `Eltro` engine of lib/eltro.mjs as a class whose methods update its
 * fields in place: the registration API (`describe`, `test`, `before`,
 * `after`, the `timeout`/`skip`/`only` modifiers, `setFilename`,
 * `resetFilename`, `begin`), the methods of the `Group` and `Test` objects
 * it hands out, and `run` with `__runGroup` and `__runTest`. Groups and
 * tests live in two arenas (`groupArena`, `testArena`) and refer to each
 * other by index; the run methods are proved against the functions of
 * EltroRun.
 */
module EltroEngine {
  import opened Values
  import opened Execution
  import opened EltroTree
  import opened EltroRun

  /** `a || b` on timeouts, where 0 stands for a falsy value. */
  function Or(a: nat, b: nat): nat {
    if a != 0 then a else b
  }

  /** The pending modifiers `eltro.timeout()`, `.skip()` and `.only()` leave for the next registration. */
  datatype Temporary = Temporary(timeout: nat, skip: bool, only: bool)

  const NoTemporary: Temporary := Temporary(0, false, false)

  const OutsideGroups: string := "Tests outside groups are not allowed."

  /** A call made on the `Test` object a registration returns. */
  datatype Modifier = TimeoutMod(ms: nat) | SkipMod | OnlyMod

  /**
   * One registration call a `describe` body (or a test file) makes, in order.
   * `handle` is the list of calls made on the returned `Test` object.
   */
  datatype Decl =
    | DescribeCall(name: string, body: seq<Decl>)
    | TestCall(name: string, test: Body, handle: seq<Modifier>)
    | BeforeCall(hook: Body, handle: seq<Modifier>)
    | AfterCall(hook: Body, handle: seq<Modifier>)
    | TimeoutCall(ms: nat)
    | SkipCall
    | OnlyCall
    | SetFilenameCall(filename: string)
    | ResetFilenameCall

  /** A test after one call on its handle. */
  function ModifyOne(t: Test, m: Modifier): (r: Test)
    ensures r.group == t.group && r.name == t.name && r.body == t.body && r.error == t.error
  {
    match m
    case TimeoutMod(ms) => t.(customTimeout := ms)
    case SkipMod => t.(skipTest := true)
    case OnlyMod => t.(isExclusive := true)
  }

  /** A test after the calls of `mods` on its handle. */
  function Modified(t: Test, mods: seq<Modifier>): (r: Test)
    ensures r.group == t.group && r.name == t.name && r.body == t.body && r.error == t.error
    decreases |mods|
  {
    if mods == [] then t else ModifyOne(Modified(t, mods[..|mods| - 1]), mods[|mods| - 1])
  }

  /**
   * The argument of the last `timeout(ms)` call in `mods`, or `dflt` when
   * there is none.
   */
  function LastTimeout(mods: seq<Modifier>, dflt: nat): nat
    decreases |mods|
  {
    if mods == [] then dflt
    else if mods[|mods| - 1].TimeoutMod? then mods[|mods| - 1].ms
    else LastTimeout(mods[..|mods| - 1], dflt)
  }

  /** `LastTimeout` is `dflt` without a `timeout` call, and otherwise the argument of the call no later one follows. */
  lemma {:induction false} LastTimeoutIsLast(mods: seq<Modifier>, dflt: nat)
    ensures (forall i :: 0 <= i < |mods| ==> !mods[i].TimeoutMod?) ==> LastTimeout(mods, dflt) == dflt
    ensures forall i :: 0 <= i < |mods| && mods[i].TimeoutMod? && (forall j :: i < j < |mods| ==> !mods[j].TimeoutMod?) ==>
              LastTimeout(mods, dflt) == mods[i].ms
    decreases |mods|
  {
    if mods != [] && !mods[|mods| - 1].TimeoutMod? {
      var front := mods[..|mods| - 1];
      LastTimeoutIsLast(front, dflt);
      assert forall i :: 0 <= i < |front| ==> front[i] == mods[i];
    }
  }

  /** The flags a handle leaves: skipped iff some call skipped, exclusive iff some call was `only()`, the last timeout wins. */
  lemma {:induction false} ModifiedFlags(t: Test, mods: seq<Modifier>)
    ensures Modified(t, mods).skipTest == (t.skipTest || SkipMod in mods)
    ensures Modified(t, mods).isExclusive == (t.isExclusive || OnlyMod in mods)
    ensures Modified(t, mods).customTimeout == LastTimeout(mods, t.customTimeout)
    ensures (forall i :: 0 <= i < |mods| ==> !mods[i].TimeoutMod?) ==> Modified(t, mods).customTimeout == t.customTimeout
    ensures |mods| > 0 && mods[|mods| - 1].TimeoutMod? ==> Modified(t, mods).customTimeout == mods[|mods| - 1].ms
    decreases |mods|
  {
    if mods != [] {
      var front, last := mods[..|mods| - 1], mods[|mods| - 1];
      ModifiedFlags(t, front);
      assert mods == front + [last];
      assert SkipMod in mods <==> SkipMod in front || last == SkipMod;
      assert OnlyMod in mods <==> OnlyMod in front || last == OnlyMod;
      assert forall i :: 0 <= i < |front| ==> front[i] == mods[i];
    }
  }

  // ---------------------------------------------------------------------------
  // Arena updates and the invariant they keep

  /** The arenas are linked, shaped and satisfy the exclusivity invariant. */
  ghost predicate ArenaOk(gs: seq<Group>, ts: seq<Test>, e: bool) {
    Shaped(gs, |ts|) && Linked(gs, ts) && ExclusivityHolds(Tree(gs, ts, e))
  }

  /** `gs'` has the links of `gs`: the same parents, children, tests and hooks. */
  ghost predicate SameLinks(gs: seq<Group>, gs': seq<Group>) {
    |gs'| == |gs|
    && forall i :: 0 <= i < |gs| ==>
         gs'[i].parent == gs[i].parent && gs'[i].groups == gs[i].groups && gs'[i].tests == gs[i].tests
         && gs'[i].before == gs[i].before && gs'[i].after == gs[i].after
  }

  /** `ts'` has the owners of `ts`. */
  ghost predicate SameOwners(ts: seq<Test>, ts': seq<Test>) {
    |ts'| == |ts| && forall i :: 0 <= i < |ts| ==> ts'[i].group == ts[i].group
  }

  lemma StructureKept(gs: seq<Group>, ts: seq<Test>, gs': seq<Group>, ts': seq<Test>)
    requires Shaped(gs, |ts|) && Linked(gs, ts) && SameLinks(gs, gs') && SameOwners(ts, ts')
    ensures Shaped(gs', |ts'|) && Linked(gs', ts')
  {
  }

  /** Changing flags and timeouts, with nothing newly exclusive, keeps the invariant. */
  lemma ArenaFlags(gs: seq<Group>, ts: seq<Test>, e: bool, gs': seq<Group>, ts': seq<Test>)
    requires ArenaOk(gs, ts, e) && SameLinks(gs, gs') && SameOwners(ts, ts') && FlagsGrow(gs, gs')
    requires forall i :: 0 <= i < |ts| ==> (ts'[i].isExclusive ==> ts[i].isExclusive)
    requires forall i :: 0 <= i < |gs| ==> (gs'[i].isExclusive ==> gs[i].isExclusive)
    ensures ArenaOk(gs', ts', e)
  {
    StructureKept(gs, ts, gs', ts');
    ExclusivityKept(Tree(gs, ts, e), Tree(gs', ts', e));
  }

  lemma OnlyMarksLinks(gs: seq<Group>, gs': seq<Group>)
    requires OnlyMarks(gs, gs')
    ensures SameLinks(gs, gs')
  {
    forall i | 0 <= i < |gs|
      ensures gs'[i].parent == gs[i].parent && gs'[i].groups == gs[i].groups && gs'[i].tests == gs[i].tests
              && gs'[i].before == gs[i].before && gs'[i].after == gs[i].after
    {
      assert gs'[i] == gs[i].(hasExclusive := gs'[i].hasExclusive);
    }
  }

  lemma ArenaGroupOnly(gs: seq<Group>, ts: seq<Test>, e: bool, g: nat)
    requires ArenaOk(gs, ts, e) && g < |gs|
    ensures var r := EltroTree.GroupOnly(Tree(gs, ts, e), g); ArenaOk(r.groups, r.tests, r.hasExclusive)
  {
    var t := Tree(gs, ts, e);
    GroupOnlyKeepsExclusivity(t, g);
    var gs1 := gs[g := gs[g].(isExclusive := true)];
    assert SameShape(gs, gs1);
    var x := HasOnly(gs1, e, g, false);
    OnlyMarksLinks(gs1, x.groups);
    assert SameLinks(gs, gs1);
    StructureKept(gs, ts, gs1, ts);
    StructureKept(gs1, ts, x.groups, ts);
  }

  lemma ArenaTestOnly(gs: seq<Group>, ts: seq<Test>, e: bool, id: nat)
    requires ArenaOk(gs, ts, e) && id < |ts|
    ensures var r := EltroTree.TestOnly(Tree(gs, ts, e), id); ArenaOk(r.groups, r.tests, r.hasExclusive)
  {
    var t := Tree(gs, ts, e);
    TestOnlyKeepsExclusivity(t, id);
    var x := HasOnly(gs, e, ts[id].group, true);
    OnlyMarksLinks(gs, x.groups);
    StructureKept(gs, ts, x.groups, ts[id := ts[id].(isExclusive := true)]);
  }

  /** The arena with group `grp` appended and listed among its parent's subgroups. */
  function Attach(gs: seq<Group>, grp: Group): (gs': seq<Group>)
    requires InRange(grp.parent, |gs|)
    ensures |gs'| == |gs| + 1 && gs'[|gs|] == grp
  {
    var n := |gs|;
    var gs1 := if grp.parent.Some? then
                 gs[grp.parent.value := gs[grp.parent.value].(groups := gs[grp.parent.value].groups + [n])]
               else gs;
    gs1 + [grp]
  }

  lemma AttachEntries(gs: seq<Group>, grp: Group, i: nat)
    requires InRange(grp.parent, |gs|) && i < |gs|
    ensures var gs' := Attach(gs, grp);
            gs'[i] == if grp.parent == Some(i) then gs[i].(groups := gs[i].groups + [|gs|]) else gs[i]
  {
  }

  /**
   * Attaching a group keeps the roots and the file groups in range and the
   * roots parentless; a group attached without a parent may join the roots.
   */
  lemma AttachKeepsRoots(gs: seq<Group>, roots: seq<nat>, files: map<string, nat>, grp: Group)
    requires InRange(grp.parent, |gs|) && RootsParentless(gs, roots)
    requires forall f :: f in files ==> files[f] < |gs|
    ensures var gs' := Attach(gs, grp);
            var roots' := if grp.parent.None? then roots + [|gs|] else roots;
            RootsParentless(gs', roots') && RootsParentless(gs', roots)
            && (forall i :: 0 <= i < |roots'| ==> roots'[i] < |gs'|)
            && (forall f :: f in files ==> files[f] < |gs'|)
  {
    var gs' := Attach(gs, grp);
    forall r | r in roots ensures gs'[r].parent.None? {
      AttachEntries(gs, grp, r);
    }
    var roots' := if grp.parent.None? then roots + [|gs|] else roots;
    assert forall i :: 0 <= i < |roots'| ==> roots'[i] in roots || roots'[i] == |gs|;
  }

  /** A fresh group attached under an existing parent keeps the arena shaped. */
  lemma AttachShaped(gs: seq<Group>, n: nat, grp: Group)
    requires Shaped(gs, n) && InRange(grp.parent, |gs|)
    requires grp.groups == [] && grp.tests == [] && grp.before.None? && grp.after.None?
    ensures Shaped(Attach(gs, grp), n)
  {
    var gs' := Attach(gs, grp);
    forall g | 0 <= g < |gs|
      ensures gs'[g] == if grp.parent == Some(g) then gs[g].(groups := gs[g].groups + [|gs|]) else gs[g]
    {
      AttachEntries(gs, grp, g);
    }
    forall g, i | 0 <= g < |gs'| && 0 <= i < |gs'[g].groups| ensures g < gs'[g].groups[i] < |gs'| {
      if g < |gs| && i < |gs[g].groups| {
        assert gs'[g].groups[i] == gs[g].groups[i];
      }
    }
  }

  /** A fresh group attached under an existing parent keeps the arena linked. */
  lemma AttachLinked(gs: seq<Group>, ts: seq<Test>, grp: Group)
    requires Shaped(gs, |ts|) && Linked(gs, ts) && InRange(grp.parent, |gs|)
    requires grp.groups == [] && grp.tests == [] && grp.before.None? && grp.after.None?
    ensures Shaped(Attach(gs, grp), |ts|) && Linked(Attach(gs, grp), ts)
  {
    AttachShaped(gs, |ts|, grp);
    var gs' := Attach(gs, grp);
    forall g | 0 <= g < |gs|
      ensures gs'[g] == if grp.parent == Some(g) then gs[g].(groups := gs[g].groups + [|gs|]) else gs[g]
    {
      AttachEntries(gs, grp, g);
    }
    forall g, i | 0 <= g < |gs'| && 0 <= i < |gs'[g].groups| ensures gs'[gs'[g].groups[i]].parent == Some(g) {
      if i < |gs[g].groups| {
        assert gs'[g].groups[i] == gs[g].groups[i];
      }
    }
  }

  lemma ArenaAttach(gs: seq<Group>, ts: seq<Test>, e: bool, grp: Group)
    requires ArenaOk(gs, ts, e) && InRange(grp.parent, |gs|)
    requires grp.groups == [] && grp.tests == [] && grp.before.None? && grp.after.None? && !grp.isExclusive
    ensures ArenaOk(Attach(gs, grp), ts, e)
  {
    AttachLinked(gs, ts, grp);
    var gs' := Attach(gs, grp);
    forall g | 0 <= g < |gs|
      ensures gs'[g].parent == gs[g].parent && gs'[g].skipTest == gs[g].skipTest
              && gs'[g].hasExclusive == gs[g].hasExclusive && gs'[g].isExclusive == gs[g].isExclusive
    {
      AttachEntries(gs, grp, g);
    }
    ExclusivityKept(Tree(gs, ts, e), Tree(gs', ts, e));
  }

  /** The arena with test `id` listed among the tests of group `g`. */
  function ListTest(gs: seq<Group>, g: nat, id: nat): (gs': seq<Group>)
    requires g < |gs|
    ensures |gs'| == |gs|
  {
    gs[g := gs[g].(tests := gs[g].tests + [id])]
  }

  lemma ShapedWider(gs: seq<Group>, n: nat, m: nat)
    requires Shaped(gs, n) && n <= m
    ensures Shaped(gs, m)
  {
  }

  lemma TestShapedLinked(gs: seq<Group>, ts: seq<Test>, t: Test)
    requires Shaped(gs, |ts|) && Linked(gs, ts) && t.group < |gs|
    ensures Shaped(ListTest(gs, t.group, |ts|), |ts| + 1) && Linked(ListTest(gs, t.group, |ts|), ts + [t])
  {
    var gs' := ListTest(gs, t.group, |ts|);
    var ts' := ts + [t];
    ShapedWider(gs, |ts|, |ts| + 1);
    assert forall i :: 0 <= i < |ts| ==> ts'[i] == ts[i];
    forall g | 0 <= g < |gs|
      ensures gs'[g] == if g == t.group then gs[g].(tests := gs[g].tests + [|ts|]) else gs[g]
    {
    }
    forall g, i | 0 <= g < |gs'| && 0 <= i < |gs'[g].tests|
      ensures gs'[g].tests[i] < |ts'| && ts'[gs'[g].tests[i]].group == g
    {
      if i < |gs[g].tests| {
        assert gs'[g].tests[i] == gs[g].tests[i];
      }
    }
  }

  lemma ArenaAddTest(gs: seq<Group>, ts: seq<Test>, e: bool, t: Test)
    requires ArenaOk(gs, ts, e) && t.group < |gs| && !t.isExclusive
    ensures ArenaOk(ListTest(gs, t.group, |ts|), ts + [t], e)
  {
    var gs' := ListTest(gs, t.group, |ts|);
    var ts' := ts + [t];
    TestShapedLinked(gs, ts, t);
    assert forall i :: 0 <= i < |ts| ==> ts'[i] == ts[i];
    ExclusivityKept(Tree(gs, ts, e), Tree(gs', ts', e));
  }

  /** The arena with test `id` as the before (or the after) hook of group `g`. */
  function SetHook(gs: seq<Group>, g: nat, id: nat, isBefore: bool): (gs': seq<Group>)
    requires g < |gs|
    ensures |gs'| == |gs|
  {
    if isBefore then gs[g := gs[g].(before := Some(id))] else gs[g := gs[g].(after := Some(id))]
  }

  /** Setting a hook twice leaves the second: `before` and `after` replace any earlier hook. */
  lemma HookLastWriteWins(gs: seq<Group>, g: nat, first: nat, second: nat, isBefore: bool)
    requires g < |gs|
    ensures SetHook(SetHook(gs, g, first, isBefore), g, second, isBefore) == SetHook(gs, g, second, isBefore)
    ensures isBefore ==> SetHook(gs, g, second, isBefore)[g].before == Some(second)
    ensures !isBefore ==> SetHook(gs, g, second, isBefore)[g].after == Some(second)
  {
  }

  lemma HookShapedLinked(gs: seq<Group>, ts: seq<Test>, t: Test, isBefore: bool)
    requires Shaped(gs, |ts|) && Linked(gs, ts) && t.group < |gs|
    ensures Shaped(SetHook(gs, t.group, |ts|, isBefore), |ts| + 1)
    ensures Linked(SetHook(gs, t.group, |ts|, isBefore), ts + [t])
  {
    var gs' := SetHook(gs, t.group, |ts|, isBefore);
    var ts' := ts + [t];
    ShapedWider(gs, |ts|, |ts| + 1);
    assert forall i :: 0 <= i < |ts| ==> ts'[i] == ts[i];
    forall g | 0 <= g < |gs|
      ensures gs'[g].parent == gs[g].parent && gs'[g].groups == gs[g].groups && gs'[g].tests == gs[g].tests
      ensures g != t.group ==> gs'[g].before == gs[g].before && gs'[g].after == gs[g].after
      ensures g == t.group ==> if isBefore then gs'[g].before == Some(|ts|) && gs'[g].after == gs[g].after
                               else gs'[g].after == Some(|ts|) && gs'[g].before == gs[g].before
    {
    }
  }

  lemma ArenaAddHook(gs: seq<Group>, ts: seq<Test>, e: bool, t: Test, isBefore: bool)
    requires ArenaOk(gs, ts, e) && t.group < |gs| && !t.isExclusive
    ensures ArenaOk(SetHook(gs, t.group, |ts|, isBefore), ts + [t], e)
  {
    var gs' := SetHook(gs, t.group, |ts|, isBefore);
    var ts' := ts + [t];
    HookShapedLinked(gs, ts, t, isBefore);
    assert forall i :: 0 <= i < |ts| ==> ts'[i] == ts[i];
    ExclusivityKept(Tree(gs, ts, e), Tree(gs', ts', e));
  }

  // ---------------------------------------------------------------------------
  // What registration never undoes

  /** `b` is `a` after registrations: same identity and settings, lists only extended, marks only set. */
  predicate Keeps(a: Group, b: Group) {
    b.name == a.name && b.parent == a.parent && b.customTimeout == a.customTimeout
    && b.skipTest == a.skipTest && b.isExclusive == a.isExclusive
    && a.groups <= b.groups && a.tests <= b.tests && (a.hasExclusive ==> b.hasExclusive)
  }

  /** Registration adds groups, tests and roots and never changes a test once set up. */
  ghost predicate Grew(gs: seq<Group>, ts: seq<Test>, roots: seq<nat>, gs': seq<Group>, ts': seq<Test>, roots': seq<nat>) {
    |gs| <= |gs'| && ts <= ts' && roots <= roots'
    && forall i :: 0 <= i < |gs| ==> Keeps(gs[i], gs'[i])
  }

  /** The arena is shaped for `n` tests and the roots are groups. */
  ghost predicate RunnableArena(gs: seq<Group>, n: nat, roots: seq<nat>) {
    Shaped(gs, n) && forall i :: 0 <= i < |roots| ==> roots[i] < |gs|
  }

  /** Every root is a group with no parent. */
  ghost predicate RootsParentless(gs: seq<Group>, roots: seq<nat>) {
    forall r :: r in roots ==> r < |gs| && gs[r].parent.None?
  }

  lemma GrewTrans(gs0: seq<Group>, ts0: seq<Test>, r0: seq<nat>, gs1: seq<Group>, ts1: seq<Test>, r1: seq<nat>,
                  gs2: seq<Group>, ts2: seq<Test>, r2: seq<nat>)
    requires Grew(gs0, ts0, r0, gs1, ts1, r1) && Grew(gs1, ts1, r1, gs2, ts2, r2)
    ensures Grew(gs0, ts0, r0, gs2, ts2, r2)
  {
    forall i | 0 <= i < |gs0| ensures Keeps(gs0[i], gs2[i]) {
      assert Keeps(gs0[i], gs1[i]) && Keeps(gs1[i], gs2[i]);
    }
  }

  /**
   * Group `g` of `gs` is the one `describe(name, ...)` opens on an arena
   * `gs0` whose active group is `before`, with pending modifiers `tmp`: it
   * carries the prefixed name, the parent, the inherited or pending timeout
   * and the pending flags, and it is listed under its parent or as a root.
   */
  ghost predicate Opened(gs0: seq<Group>, before: Option<nat>, tmp: Temporary, name: string,
                         gs: seq<Group>, roots: seq<nat>, g: nat) {
    InRange(before, |gs0|) && g < |gs|
    && gs[g].name == (if before.Some? then gs0[before.value].name + " " else "") + name
    && gs[g].parent == before
    && gs[g].customTimeout == Or(tmp.timeout, if before.Some? then gs0[before.value].customTimeout else 0)
    && gs[g].skipTest == tmp.skip
    && gs[g].isExclusive == tmp.only
    && (before.Some? ==> before.value < |gs| && g in gs[before.value].groups)
    && (before.None? ==> g in roots)
  }

  /** Later registrations keep an opened group as it was opened. */
  lemma OpenedKept(gs0: seq<Group>, before: Option<nat>, tmp: Temporary, name: string,
                   gs1: seq<Group>, ts1: seq<Test>, r1: seq<nat>, gs2: seq<Group>, ts2: seq<Test>, r2: seq<nat>, g: nat)
    requires Opened(gs0, before, tmp, name, gs1, r1, g) && Grew(gs1, ts1, r1, gs2, ts2, r2)
    ensures Opened(gs0, before, tmp, name, gs2, r2, g)
  {
    assert Keeps(gs1[g], gs2[g]);
    if before.Some? {
      assert Keeps(gs1[before.value], gs2[before.value]);
    }
  }

  /** Setting errors keeps the invariant: running never breaks it. */
  lemma ErrorsKeepArena(gs: seq<Group>, ts: seq<Test>, e: bool, ts': seq<Test>)
    requires ArenaOk(gs, ts, e) && |ts'| == |ts|
    requires forall i :: 0 <= i < |ts| ==> ts'[i] == ts[i].(error := ts'[i].error)
    ensures ArenaOk(gs, ts', e)
  {
    forall i | 0 <= i < |ts| ensures ts'[i].group == ts[i].group && ts'[i].isExclusive == ts[i].isExclusive {
      assert ts'[i] == ts[i].(error := ts'[i].error);
    }
    ArenaFlags(gs, ts, e, gs, ts');
  }

  lemma AttachGrew(gs: seq<Group>, ts: seq<Test>, roots: seq<nat>, grp: Group, roots': seq<nat>)
    requires InRange(grp.parent, |gs|) && roots <= roots'
    ensures Grew(gs, ts, roots, Attach(gs, grp), ts, roots')
  {
    forall i | 0 <= i < |gs| ensures Keeps(gs[i], Attach(gs, grp)[i]) {
      AttachEntries(gs, grp, i);
    }
  }

  /** Changes to the fresh group `g` alone keep the growth. */
  lemma FreshChangeGrew(gs0: seq<Group>, ts0: seq<Test>, r0: seq<nat>, gs1: seq<Group>, ts1: seq<Test>, r1: seq<nat>,
                        gs2: seq<Group>, g: nat)
    requires Grew(gs0, ts0, r0, gs1, ts1, r1) && |gs0| <= g && |gs2| == |gs1|
    requires forall i :: 0 <= i < |gs1| && i != g ==> Keeps(gs1[i], gs2[i])
    ensures Grew(gs0, ts0, r0, gs2, ts1, r1)
  {
    forall i | 0 <= i < |gs0| ensures Keeps(gs0[i], gs2[i]) {
      assert Keeps(gs0[i], gs1[i]) && Keeps(gs1[i], gs2[i]);
    }
  }

  /** `group.only()` on `g` marks `g` exclusive and the other groups only gain marks. */
  lemma OnlyKeeps(gs: seq<Group>, e: bool, g: nat)
    requires ParentsBelow(gs) && g < |gs|
    ensures var gs1 := gs[g := gs[g].(isExclusive := true)];
            var x := HasOnly(gs1, e, g, false);
            |x.groups| == |gs|
            && (forall i :: 0 <= i < |gs| && i != g ==> Keeps(gs[i], x.groups[i]))
            && x.groups[g] == gs[g].(isExclusive := true, hasExclusive := x.groups[g].hasExclusive)
  {
    var gs1 := gs[g := gs[g].(isExclusive := true)];
    assert SameShape(gs, gs1);
    var x := HasOnly(gs1, e, g, false);
    forall i | 0 <= i < |gs| && i != g ensures Keeps(gs[i], x.groups[i]) {
      assert x.groups[i] == gs1[i].(hasExclusive := x.groups[i].hasExclusive);
    }
    assert x.groups[g] == gs1[g].(hasExclusive := x.groups[g].hasExclusive);
  }

  lemma OnlyMarksGrew(gs: seq<Group>, ts: seq<Test>, roots: seq<nat>, gs': seq<Group>)
    requires OnlyMarks(gs, gs')
    ensures Grew(gs, ts, roots, gs', ts, roots)
  {
    forall i | 0 <= i < |gs| ensures Keeps(gs[i], gs'[i]) {
      assert gs'[i] == gs[i].(hasExclusive := gs'[i].hasExclusive);
    }
  }

  /** Calls on the handle of a test registered after `ts0` keep the growth. */
  lemma HandleGrew(gs0: seq<Group>, ts0: seq<Test>, r0: seq<nat>, gs1: seq<Group>, ts1: seq<Test>, r1: seq<nat>,
                   gs2: seq<Group>, ts2: seq<Test>, id: nat)
    requires Grew(gs0, ts0, r0, gs1, ts1, r1) && |ts0| <= id < |ts1|
    requires |ts2| == |ts1| && (forall i :: 0 <= i < |ts1| && i != id ==> ts2[i] == ts1[i])
    requires OnlyMarks(gs1, gs2)
    ensures Grew(gs0, ts0, r0, gs2, ts2, r1)
  {
    OnlyMarksGrew(gs1, ts1, r1, gs2);
    assert ts2[..|ts0|] == ts1[..|ts0|];
    GrewTrans(gs0, ts0, r0, gs1, ts1, r1, gs2, ts1, r1);
  }

  lemma HookGrew(gs: seq<Group>, ts: seq<Test>, roots: seq<nat>, g: nat, t: Test, isBefore: bool)
    requires g < |gs|
    ensures Grew(gs, ts, roots, SetHook(gs, g, |ts|, isBefore), ts + [t], roots)
  {
  }

  lemma ReplaceLast<T>(s: seq<T>, x: T, y: T)
    ensures (s + [x])[|s| := y] == s + [y]
  {
  }

  lemma ListGrew(gs: seq<Group>, ts: seq<Test>, roots: seq<nat>, g: nat, t: Test)
    requires g < |gs|
    ensures Grew(gs, ts, roots, ListTest(gs, g, |ts|), ts + [t], roots)
  {
  }

  // ---------------------------------------------------------------------------
  // The engine

  /** The fields of the engine that only `begin` and running change. */
  datatype RunSettings = RunSettings(failedTests: seq<nat>, ran: seq<nat>, hasTests: bool, starting: bool,
                                     filename: string, prefix: string)

  /** The fields of the engine that only registration and `begin` change. */
  datatype Registration = Registration(groupArena: seq<Group>, hasExclusive: bool, groups: seq<nat>,
                                       fileGroupMap: map<string, nat>, activeGroup: Option<nat>, temporary: Temporary,
                                       hasTests: bool, starting: bool, filename: string, prefix: string)

  class Eltro {
    var groupArena: seq<Group>
    var testArena: seq<Test>
    /** Some test or group anywhere is exclusive and not cut off by a skipped group. */
    var hasExclusive: bool
    var fileGroupMap: map<string, nat>
    /** The root groups, in registration order. */
    var groups: seq<nat>
    var activeGroup: Option<nat>
    var failedTests: seq<nat>
    var hasTests: bool
    var starting: bool
    var filename: string
    var prefix: string
    var temporary: Temporary
    /** The tests and hooks `__runTest` has been called on, in order. */
    ghost var ran: seq<nat>

    ghost predicate Valid()
      reads this`groupArena, this`testArena, this`hasExclusive, this`groups, this`fileGroupMap, this`activeGroup
    {
      ArenaOk(groupArena, testArena, hasExclusive)
      && (forall i :: 0 <= i < |groups| ==> groups[i] < |groupArena|)
      && RootsParentless(groupArena, groups)
      && (forall f :: f in fileGroupMap ==> fileGroupMap[f] < |groupArena|)
      && InRange(activeGroup, |groupArena|)
    }

    /** What the run methods need: the arena is shaped and the roots are groups. */
    ghost predicate Runnable()
      reads this`groupArena, this`testArena, this`groups
    {
      RunnableArena(groupArena, |testArena|, groups)
    }

    /** The fields running leaves alone. */
    function Registry(): Registration
      reads this
    {
      Registration(groupArena, hasExclusive, groups, fileGroupMap, activeGroup, temporary, hasTests, starting, filename, prefix)
    }

    /** Running changes only test errors, `failedTests`, `ran` and the counters. */
    twostate predicate RunFrame()
      reads this
    {
      Registry() == old(Registry())
    }

    function Snapshot(): Tree
      reads this
    {
      Tree(groupArena, testArena, hasExclusive)
    }

    /** The part of the state running changes, for a given `stats` object. */
    ghost function Progress(stats: Stats): RunState
      reads this, stats
    {
      RunState(testArena, stats.Value(), failedTests, ran)
    }

    /** The fields only `begin` and the runs change. */
    ghost function Settings(): RunSettings
      reads this`failedTests, this`ran, this`hasTests, this`starting, this`filename, this`prefix
    {
      RunSettings(failedTests, ran, hasTests, starting, filename, prefix)
    }

    /** The fields only `begin` and the runs change stay as they were. */
    twostate predicate SettingsKept()
      reads this`failedTests, this`ran, this`hasTests, this`starting, this`filename, this`prefix
    {
      Settings() == old(Settings())
    }

    /** The fields only registration changes stay as they were. */
    twostate predicate RegistryKept()
      reads this
    {
      groupArena == old(groupArena) && hasExclusive == old(hasExclusive) && groups == old(groups)
      && fileGroupMap == old(fileGroupMap) && activeGroup == old(activeGroup) && temporary == old(temporary)
    }

    /** `new Eltro()` (lib/eltro.mjs:77-100). */
    constructor ()
      ensures Valid()
      ensures groupArena == [] && testArena == [] && !hasExclusive && fileGroupMap == map[] && groups == []
      ensures activeGroup == None && failedTests == [] && !hasTests && !starting && filename == "" && prefix == ""
      ensures temporary == NoTemporary && ran == []
    {
      groupArena, testArena, hasExclusive := [], [], false;
      fileGroupMap, groups, activeGroup := map[], [], None;
      failedTests, hasTests, starting := [], false, false;
      filename, prefix, temporary := "", "", NoTemporary;
      ran := [];
    }

    /**
     * `begin()` (lib/eltro.mjs:102-112): a second call changes nothing;
     * the first clears the per-file state. The groups registered so far stay.
     */
    method Begin()
      requires Valid()
      modifies this
      ensures Valid()
      ensures old(starting) ==> unchanged(this)
      ensures !old(starting) ==>
                !hasTests && starting && filename == "" && prefix == "" && fileGroupMap == map[]
                && groupArena == old(groupArena) && testArena == old(testArena) && hasExclusive == old(hasExclusive)
                && groups == old(groups) && activeGroup == old(activeGroup) && temporary == old(temporary)
                && failedTests == old(failedTests) && ran == old(ran)
    {
      if starting {
        return;
      }
      hasTests := false;
      starting := true;
      filename := "";
      prefix := "";
      fileGroupMap := map[];
    }

    // -------------------------------------------------------------------------
    // Methods of Group objects (lib/eltro.mjs:17-50)

    /** `group.timeout(time)` */
    method GroupTimeout(g: nat, time: nat)
      requires Valid() && g < |groupArena|
      modifies this
      ensures Valid() && SettingsKept()
      ensures groupArena == old(groupArena)[g := old(groupArena)[g].(customTimeout := time)]
      ensures testArena == old(testArena) && hasExclusive == old(hasExclusive) && groups == old(groups)
      ensures fileGroupMap == old(fileGroupMap) && activeGroup == old(activeGroup) && temporary == old(temporary)
    {
      ArenaFlags(groupArena, testArena, hasExclusive, groupArena[g := groupArena[g].(customTimeout := time)], testArena);
      groupArena := groupArena[g := groupArena[g].(customTimeout := time)];
    }

    /** `group.skip()` */
    method GroupSkip(g: nat)
      requires Valid() && g < |groupArena|
      modifies this
      ensures Valid() && SettingsKept()
      ensures groupArena == old(groupArena)[g := old(groupArena)[g].(skipTest := true)]
      ensures testArena == old(testArena) && hasExclusive == old(hasExclusive) && groups == old(groups)
      ensures fileGroupMap == old(fileGroupMap) && activeGroup == old(activeGroup) && temporary == old(temporary)
    {
      ArenaFlags(groupArena, testArena, hasExclusive, groupArena[g := groupArena[g].(skipTest := true)], testArena);
      groupArena := groupArena[g := groupArena[g].(skipTest := true)];
    }

    /**
     * `group.__hasonly(markHas)`: the upward walk, stopping at the first
     * skipped group; the engine flag is set when the walk gets past the root.
     */
    method HasOnly(g: nat, markHas: bool)
      requires ParentsBelow(groupArena) && g < |groupArena|
      modifies this
      ensures var x := EltroTree.HasOnly(old(groupArena), old(hasExclusive), g, markHas);
              groupArena == x.groups && hasExclusive == x.hasExclusive
      ensures testArena == old(testArena) && groups == old(groups) && fileGroupMap == old(fileGroupMap)
      ensures activeGroup == old(activeGroup) && temporary == old(temporary) && SettingsKept()
    {
      if groupArena[g].skipTest {
        return;
      }
      groupArena := groupArena[g := groupArena[g].(hasExclusive := groupArena[g].hasExclusive || markHas)];
      MarkOne(old(groupArena), g, markHas);
      ghost var start := groupArena;
      var p := groupArena[g].parent;
      while p.Some?
        invariant ParentsBelow(groupArena) && InRange(p, |groupArena|)
        invariant Climb(groupArena, p) == Climb(start, old(groupArena)[g].parent)
        invariant testArena == old(testArena) && hasExclusive == old(hasExclusive) && groups == old(groups)
        invariant fileGroupMap == old(fileGroupMap) && activeGroup == old(activeGroup) && temporary == old(temporary)
        invariant SettingsKept()
        decreases Rank(p)
      {
        var q := p.value;
        if groupArena[q].skipTest {
          return;
        }
        MarkOne(groupArena, q, true);
        groupArena := groupArena[q := groupArena[q].(hasExclusive := groupArena[q].hasExclusive || true)];
        p := groupArena[q].parent;
      }
      hasExclusive := true;
    }

    /** `group.only()` */
    method GroupOnly(g: nat)
      requires Valid() && g < |groupArena|
      modifies this
      ensures Valid() && SettingsKept()
      ensures var x := EltroTree.HasOnly(old(groupArena)[g := old(groupArena)[g].(isExclusive := true)], old(hasExclusive), g, false);
              groupArena == x.groups && hasExclusive == x.hasExclusive && testArena == old(testArena)
      ensures groups == old(groups) && fileGroupMap == old(fileGroupMap)
      ensures activeGroup == old(activeGroup) && temporary == old(temporary)
    {
      ArenaGroupOnly(groupArena, testArena, hasExclusive, g);
      groupArena := groupArena[g := groupArena[g].(isExclusive := true)];
      assert SameShape(old(groupArena), groupArena);
      HasOnly(g, false);
    }

    // -------------------------------------------------------------------------
    // Methods of Test objects (lib/eltro.mjs:64-75)

    /** `test.timeout(time)` */
    method TestTimeout(id: nat, time: nat)
      requires Valid() && id < |testArena|
      modifies this
      ensures Valid() && SettingsKept() && RegistryKept()
      ensures testArena == old(testArena)[id := old(testArena)[id].(customTimeout := time)]
    {
      ArenaFlags(groupArena, testArena, hasExclusive, groupArena, testArena[id := testArena[id].(customTimeout := time)]);
      testArena := testArena[id := testArena[id].(customTimeout := time)];
    }

    /** `test.skip()` */
    method TestSkip(id: nat)
      requires Valid() && id < |testArena|
      modifies this
      ensures Valid() && SettingsKept() && RegistryKept()
      ensures testArena == old(testArena)[id := old(testArena)[id].(skipTest := true)]
    {
      ArenaFlags(groupArena, testArena, hasExclusive, groupArena, testArena[id := testArena[id].(skipTest := true)]);
      testArena := testArena[id := testArena[id].(skipTest := true)];
    }

    /** `test.only()` */
    method TestOnly(id: nat)
      requires Valid() && id < |testArena|
      modifies this
      ensures Valid() && SettingsKept()
      ensures testArena == old(testArena)[id := old(testArena)[id].(isExclusive := true)]
      ensures var x := EltroTree.HasOnly(old(groupArena), old(hasExclusive), old(testArena)[id].group, true);
              groupArena == x.groups && hasExclusive == x.hasExclusive
      ensures groups == old(groups) && fileGroupMap == old(fileGroupMap)
      ensures activeGroup == old(activeGroup) && temporary == old(temporary)
    {
      ArenaTestOnly(groupArena, testArena, hasExclusive, id);
      testArena := testArena[id := testArena[id].(isExclusive := true)];
      HasOnly(testArena[id].group, true);
    }

    /** One call on the handle of test `id`. */
    method ApplyModifier(id: nat, m: Modifier)
      requires Valid() && id < |testArena|
      modifies this
      ensures Valid() && SettingsKept()
      ensures testArena == old(testArena)[id := ModifyOne(old(testArena)[id], m)]
      ensures var x := if m.OnlyMod? then EltroTree.HasOnly(old(groupArena), old(hasExclusive), old(testArena)[id].group, true)
                       else Exclusivity(old(groupArena), old(hasExclusive));
              groupArena == x.groups && hasExclusive == x.hasExclusive
      ensures groups == old(groups) && fileGroupMap == old(fileGroupMap)
      ensures activeGroup == old(activeGroup) && temporary == old(temporary)
    {
      match m {
        case TimeoutMod(ms) => TestTimeout(id, ms);
        case SkipMod => TestSkip(id);
        case OnlyMod => TestOnly(id);
      }
    }

    /**
     * The calls of `mods` on the handle of test `id`: the test ends up as
     * `Modified` says, and the groups as one `only()` would leave them when
     * some call was `only()` (a second `__hasonly` changes nothing).
     */
    method ApplyModifiers(id: nat, mods: seq<Modifier>)
      requires Valid() && id < |testArena|
      modifies this
      ensures Valid() && SettingsKept()
      ensures testArena == old(testArena)[id := Modified(old(testArena)[id], mods)]
      ensures var x := if OnlyMod in mods then EltroTree.HasOnly(old(groupArena), old(hasExclusive), old(testArena)[id].group, true)
                       else Exclusivity(old(groupArena), old(hasExclusive));
              groupArena == x.groups && hasExclusive == x.hasExclusive
      ensures groups == old(groups) && fileGroupMap == old(fileGroupMap)
      ensures activeGroup == old(activeGroup) && temporary == old(temporary)
    {
      ghost var gs0, e0, grp := groupArena, hasExclusive, testArena[id].group;
      for k := 0 to |mods|
        invariant Valid() && SettingsKept()
        invariant testArena == old(testArena)[id := Modified(old(testArena)[id], mods[..k])]
        invariant var x := if OnlyMod in mods[..k] then EltroTree.HasOnly(gs0, e0, grp, true) else Exclusivity(gs0, e0);
                  groupArena == x.groups && hasExclusive == x.hasExclusive
        invariant groups == old(groups) && fileGroupMap == old(fileGroupMap)
        invariant activeGroup == old(activeGroup) && temporary == old(temporary)
      {
        assert mods[..k + 1][..k] == mods[..k];
        assert OnlyMod in mods[..k + 1] <==> OnlyMod in mods[..k] || mods[k] == OnlyMod by {
          assert mods[..k + 1] == mods[..k] + [mods[k]];
        }
        if mods[k].OnlyMod? && OnlyMod in mods[..k] {
          EltroTree.HasOnlyIdempotent(gs0, e0, grp, true);
        }
        ApplyModifier(id, mods[k]);
      }
      assert mods[..|mods|] == mods;
    }

    // -------------------------------------------------------------------------
    // Registration (lib/eltro.mjs:311-427)

    /** `setFilename(filename)`: the file's root group, created on first use, becomes the active group. */
    method SetFilename(f: string)
      requires Valid()
      modifies this
      ensures Valid() && SettingsKept()
      ensures Grew(old(groupArena), old(testArena), old(groups), groupArena, testArena, groups)
      ensures f in old(fileGroupMap) ==>
                groupArena == old(groupArena) && groups == old(groups) && fileGroupMap == old(fileGroupMap)
      ensures f !in old(fileGroupMap) ==>
                groupArena == old(groupArena) + [NewGroup(f + ":")] && groups == old(groups) + [|old(groupArena)|]
                && fileGroupMap == old(fileGroupMap)[f := |old(groupArena)|]
      ensures f in fileGroupMap && activeGroup == Some(fileGroupMap[f])
      ensures testArena == old(testArena) && hasExclusive == old(hasExclusive) && temporary == old(temporary)
    {
      if f !in fileGroupMap {
        var g := AddRoot(f + ":");
        fileGroupMap := fileGroupMap[f := g];
      }
      activeGroup := Some(fileGroupMap[f]);
    }

    /** `resetFilename()`: no group is active any more. */
    method ResetFilename()
      requires Valid()
      modifies this
      ensures Valid() && SettingsKept()
      ensures Grew(old(groupArena), old(testArena), old(groups), groupArena, testArena, groups)
      ensures activeGroup == None
      ensures groupArena == old(groupArena) && testArena == old(testArena) && hasExclusive == old(hasExclusive)
      ensures groups == old(groups) && fileGroupMap == old(fileGroupMap) && temporary == old(temporary)
    {
      activeGroup := None;
    }

    /** `eltro.timeout(time)`: pending for the next registration. */
    method Timeout(time: nat)
      requires Valid()
      modifies this
      ensures Valid() && SettingsKept()
      ensures Grew(old(groupArena), old(testArena), old(groups), groupArena, testArena, groups)
      ensures temporary == old(temporary).(timeout := time)
      ensures groupArena == old(groupArena) && testArena == old(testArena) && hasExclusive == old(hasExclusive)
      ensures groups == old(groups) && fileGroupMap == old(fileGroupMap) && activeGroup == old(activeGroup)
    {
      temporary := temporary.(timeout := time);
    }

    /** `eltro.skip()`: pending for the next registration. */
    method Skip()
      requires Valid()
      modifies this
      ensures Valid() && SettingsKept()
      ensures Grew(old(groupArena), old(testArena), old(groups), groupArena, testArena, groups)
      ensures temporary == old(temporary).(skip := true)
      ensures groupArena == old(groupArena) && testArena == old(testArena) && hasExclusive == old(hasExclusive)
      ensures groups == old(groups) && fileGroupMap == old(fileGroupMap) && activeGroup == old(activeGroup)
    {
      temporary := temporary.(skip := true);
    }

    /** `eltro.only()`: pending for the next registration. */
    method Only()
      requires Valid()
      modifies this
      ensures Valid() && SettingsKept()
      ensures Grew(old(groupArena), old(testArena), old(groups), groupArena, testArena, groups)
      ensures temporary == old(temporary).(only := true)
      ensures groupArena == old(groupArena) && testArena == old(testArena) && hasExclusive == old(hasExclusive)
      ensures groups == old(groups) && fileGroupMap == old(fileGroupMap) && activeGroup == old(activeGroup)
    {
      temporary := temporary.(only := true);
    }

    /**
     * `before(func)` and `after(func)`: outside a group, an error and no
     * change. Otherwise a new hook named after the group replaces the
     * group's hook; it takes the pending timeout, or else the group's, and
     * the pending timeout is consumed.
     */
    method Hook(body: Body, isBefore: bool) returns (r: Result<nat>)
      requires Valid()
      modifies this
      ensures Valid() && SettingsKept()
      ensures Grew(old(groupArena), old(testArena), old(groups), groupArena, testArena, groups)
      ensures old(activeGroup).None? ==> r == Err(OutsideGroups) && unchanged(this)
      ensures old(activeGroup).Some? ==>
                var g := old(activeGroup).value;
                var t := NewTest(g, (if isBefore then "Before: " else "After: ") + old(groupArena)[g].name, body);
                r == Ok(|old(testArena)|)
                && testArena == old(testArena) + [t.(customTimeout := Or(old(temporary).timeout, old(groupArena)[g].customTimeout))]
                && groupArena == SetHook(old(groupArena), g, |old(testArena)|, isBefore)
                && temporary == old(temporary).(timeout := 0)
                && hasExclusive == old(hasExclusive) && groups == old(groups)
                && fileGroupMap == old(fileGroupMap) && activeGroup == old(activeGroup)
    {
      if activeGroup.None? {
        return Err(OutsideGroups);
      }
      var g := activeGroup.value;
      var id := |testArena|;
      var t := NewTest(g, (if isBefore then "Before: " else "After: ") + groupArena[g].name, body);
      t := t.(customTimeout := Or(temporary.timeout, groupArena[g].customTimeout));
      ArenaAddHook(groupArena, testArena, hasExclusive, t, isBefore);
      HookGrew(groupArena, testArena, groups, g, t, isBefore);
      testArena := testArena + [t];
      groupArena := SetHook(groupArena, g, id, isBefore);
      temporary := temporary.(timeout := 0);
      return Ok(id);
    }

    /**
     * `test(name, func)`: outside a group, an error and no change. Otherwise
     * a new test named after the group is appended to the group's tests. A
     * pending `only()` makes it exclusive unless a `skip()` is pending too;
     * both are consumed, and so is the pending timeout, which (or else the
     * group's) becomes the test's.
     */
    method Test(name: string, body: Body) returns (r: Result<nat>)
      requires Valid()
      modifies this
      ensures Valid() && SettingsKept()
      ensures Grew(old(groupArena), old(testArena), old(groups), groupArena, testArena, groups)
      ensures old(activeGroup).None? ==> r == Err(OutsideGroups) && unchanged(this)
      ensures old(activeGroup).Some? ==>
                var g := old(activeGroup).value;
                var tmp := old(temporary);
                var id := |old(testArena)|;
                var t := EltroTree.Test(g, tmp.skip, tmp.only && !tmp.skip, Or(tmp.timeout, old(groupArena)[g].customTimeout),
                              old(groupArena)[g].name + " " + name, body, None);
                var x := if tmp.only && !tmp.skip then EltroTree.HasOnly(ListTest(old(groupArena), g, id), old(hasExclusive), g, true)
                         else Exclusivity(ListTest(old(groupArena), g, id), old(hasExclusive));
                r == Ok(id) && testArena == old(testArena) + [t]
                && groupArena == x.groups && hasExclusive == x.hasExclusive
                && temporary == NoTemporary
                && groups == old(groups) && fileGroupMap == old(fileGroupMap) && activeGroup == old(activeGroup)
    {
      if activeGroup.None? {
        return Err(OutsideGroups);
      }
      var id := RegisterTest(activeGroup.value, name, body);
      return Ok(id);
    }

    /**
     * The registration half of `test(name, func)` in the active group `g`.
     * The test is built with the pending skip flag and timeout already in
     * place; the source sets them through the handle right after, with the
     * same result.
     */
    method RegisterTest(g: nat, name: string, body: Body) returns (id: nat)
      requires Valid() && activeGroup == Some(g)
      modifies this
      ensures Valid() && SettingsKept()
      ensures Grew(old(groupArena), old(testArena), old(groups), groupArena, testArena, groups)
      ensures var tmp := old(temporary);
              var t := EltroTree.Test(g, tmp.skip, tmp.only && !tmp.skip, Or(tmp.timeout, old(groupArena)[g].customTimeout),
                            old(groupArena)[g].name + " " + name, body, None);
              var x := if tmp.only && !tmp.skip then EltroTree.HasOnly(ListTest(old(groupArena), g, id), old(hasExclusive), g, true)
                       else Exclusivity(ListTest(old(groupArena), g, id), old(hasExclusive));
              id == |old(testArena)| && testArena == old(testArena) + [t]
              && groupArena == x.groups && hasExclusive == x.hasExclusive
              && temporary == NoTemporary
              && groups == old(groups) && fileGroupMap == old(fileGroupMap) && activeGroup == old(activeGroup)
    {
      var tmp := temporary;
      var t := EltroTree.Test(g, tmp.skip, false, Or(tmp.timeout, groupArena[g].customTimeout),
                              groupArena[g].name + " " + name, body, None);
      ListGrew(groupArena, testArena, groups, g, t.(isExclusive := tmp.only && !tmp.skip));
      id := AddTest(t);
      if tmp.only && !tmp.skip {
        ghost var listed := groupArena;
        TestOnly(id);
        assert testArena == old(testArena) + [t.(isExclusive := true)];
        OnlyMarksGrew(listed, testArena, groups, groupArena);
        GrewTrans(old(groupArena), old(testArena), old(groups), listed, testArena, groups,
                  groupArena, testArena, groups);
      }
      temporary := NoTemporary;
    }

    /** Appends `t` to the test arena and to the tests of its group. */
    method AddTest(t: Test) returns (id: nat)
      requires Valid() && t.group < |groupArena| && !t.isExclusive
      modifies this
      ensures Valid() && SettingsKept() && id == |old(testArena)|
      ensures testArena == old(testArena) + [t] && groupArena == ListTest(old(groupArena), t.group, id)
      ensures hasExclusive == old(hasExclusive) && groups == old(groups) && fileGroupMap == old(fileGroupMap)
      ensures activeGroup == old(activeGroup) && temporary == old(temporary)
    {
      id := |testArena|;
      ArenaAddTest(groupArena, testArena, hasExclusive, t);
      testArena := testArena + [t];
      groupArena := ListTest(groupArena, t.group, id);
    }

    /**
     * The start of `describe(name, func)`: a new group named after the active
     * group (if any) becomes a subgroup of it, inheriting its timeout, or
     * else a root; it becomes the active group.
     */
    method AttachGroup(name: string) returns (g: nat)
      requires Valid()
      modifies this
      ensures Valid() && SettingsKept()
      ensures Grew(old(groupArena), old(testArena), old(groups), groupArena, testArena, groups)
      ensures g == |old(groupArena)| && |groupArena| == g + 1 && activeGroup == Some(g)
      ensures testArena == old(testArena) && hasExclusive == old(hasExclusive)
      ensures fileGroupMap == old(fileGroupMap) && temporary == old(temporary)
      ensures var before := old(activeGroup);
              groupArena[g] == NewGroup((if before.Some? then old(groupArena)[before.value].name + " " else "") + name)
                                 .(parent := before,
                                   customTimeout := if before.Some? then old(groupArena)[before.value].customTimeout else 0)
              && (before.Some? ==> g in groupArena[before.value].groups)
              && (before.None? ==> g in groups)
    {
      if activeGroup.None? {
        g := AddRoot(name);
      } else {
        g := AddChild(name, activeGroup.value);
      }
      activeGroup := Some(g);
    }

    /** `new Group(this, name)` pushed to `this.groups`: a new root group. */
    method AddRoot(name: string) returns (g: nat)
      requires Valid()
      modifies this
      ensures Valid() && SettingsKept()
      ensures Grew(old(groupArena), old(testArena), old(groups), groupArena, testArena, groups)
      ensures g == |old(groupArena)| && groupArena == old(groupArena) + [NewGroup(name)] && groups == old(groups) + [g]
      ensures testArena == old(testArena) && hasExclusive == old(hasExclusive)
      ensures fileGroupMap == old(fileGroupMap) && activeGroup == old(activeGroup) && temporary == old(temporary)
    {
      g := |groupArena|;
      ArenaAttach(groupArena, testArena, hasExclusive, NewGroup(name));
      AttachGrew(groupArena, testArena, groups, NewGroup(name), groups + [g]);
      AttachKeepsRoots(groupArena, groups, fileGroupMap, NewGroup(name));
      groupArena, groups := Attach(groupArena, NewGroup(name)), groups + [g];
    }

    /** A new group under `p`, named after it and inheriting its timeout, pushed to `p.groups`. */
    method AddChild(name: string, p: nat) returns (g: nat)
      requires Valid() && p < |groupArena|
      modifies this
      ensures Valid() && SettingsKept()
      ensures Grew(old(groupArena), old(testArena), old(groups), groupArena, testArena, groups)
      ensures g == |old(groupArena)|
      ensures groupArena == Attach(old(groupArena), NewGroup(old(groupArena)[p].name + " " + name)
                                                      .(parent := Some(p), customTimeout := old(groupArena)[p].customTimeout))
      ensures g in groupArena[p].groups
      ensures testArena == old(testArena) && hasExclusive == old(hasExclusive) && groups == old(groups)
      ensures fileGroupMap == old(fileGroupMap) && activeGroup == old(activeGroup) && temporary == old(temporary)
    {
      g := |groupArena|;
      var grp := NewGroup(groupArena[p].name + " " + name).(parent := Some(p), customTimeout := groupArena[p].customTimeout);
      ArenaAttach(groupArena, testArena, hasExclusive, grp);
      AttachGrew(groupArena, testArena, groups, grp, groups);
      AttachKeepsRoots(groupArena, groups, fileGroupMap, grp);
      AttachEntries(groupArena, grp, p);
      groupArena := Attach(groupArena, grp);
    }

    /** `group.timeout(time)` when `time` is set, then `group.skip()` when `skip` is. */
    method PendingTimeoutSkip(g: nat, time: nat, skip: bool)
      requires Valid() && g < |groupArena|
      modifies this
      ensures Valid() && SettingsKept()
      ensures groupArena == old(groupArena)[g := old(groupArena)[g].(customTimeout := Or(time, old(groupArena)[g].customTimeout),
                                                                   skipTest := old(groupArena)[g].skipTest || skip)]
      ensures testArena == old(testArena) && hasExclusive == old(hasExclusive) && groups == old(groups)
      ensures fileGroupMap == old(fileGroupMap) && activeGroup == old(activeGroup) && temporary == old(temporary)
    {
      if time != 0 {
        GroupTimeout(g, time);
      }
      if skip {
        GroupSkip(g);
      }
    }

    /**
     * The pending modifiers applied to the new group `g` through its
     * `timeout`, `skip` and `only` methods, and consumed. Other groups only
     * gain marks.
     */
    method TakePending(g: nat)
      requires Valid() && g < |groupArena|
      modifies this
      ensures Valid() && SettingsKept() && temporary == NoTemporary
      ensures |groupArena| == |old(groupArena)| && testArena == old(testArena) && groups == old(groups)
      ensures fileGroupMap == old(fileGroupMap) && activeGroup == old(activeGroup)
      ensures forall i :: 0 <= i < |groupArena| && i != g ==> Keeps(old(groupArena)[i], groupArena[i])
      ensures var before := old(groupArena)[g];
              groupArena[g].name == before.name && groupArena[g].parent == before.parent
              && groupArena[g].groups == before.groups && groupArena[g].tests == before.tests
              && groupArena[g].customTimeout == Or(old(temporary).timeout, before.customTimeout)
              && groupArena[g].skipTest == (before.skipTest || old(temporary).skip)
              && groupArena[g].isExclusive == (before.isExclusive || old(temporary).only)
    {
      var tmp := temporary;
      PendingTimeoutSkip(g, tmp.timeout, tmp.skip);
      if tmp.only {
        ghost var gs := groupArena;
        GroupOnly(g);
        OnlyKeeps(gs, hasExclusive, g);
      }
      temporary := NoTemporary;
    }

    /**
     * The first half of `describe(name, func)`: the new group with the
     * pending modifiers, active.
     */
    method OpenGroup(name: string) returns (g: nat)
      requires Valid()
      modifies this
      ensures Valid() && SettingsKept()
      ensures Grew(old(groupArena), old(testArena), old(groups), groupArena, testArena, groups)
      ensures g == |old(groupArena)| && activeGroup == Some(g) && temporary == NoTemporary
      ensures Opened(old(groupArena), old(activeGroup), old(temporary), name, groupArena, groups, g)
    {
      g := AttachGroup(name);
      ghost var gs1 := groupArena;
      TakePending(g);
      FreshChangeGrew(old(groupArena), old(testArena), old(groups), gs1, testArena, groups, groupArena, g);
      if old(activeGroup).Some? {
        assert Keeps(gs1[old(activeGroup).value], groupArena[old(activeGroup).value]);
      }
    }

    /**
     * `describe(name, func)`: the new group is active while the calls of
     * `func` are made, and the previous active group is restored. The only
     * registration error, a test or hook with no active group, can arise only
     * after `func` has reset the file name; it propagates without the
     * restore, as the source has no `finally`, so no group is active then.
     */
    method Describe(name: string, body: seq<Decl>) returns (err: Option<string>)
      requires Valid()
      modifies this
      ensures Valid() && SettingsKept()
      ensures Grew(old(groupArena), old(testArena), old(groups), groupArena, testArena, groups)
      ensures Opened(old(groupArena), old(activeGroup), old(temporary), name, groupArena, groups, |old(groupArena)|)
      ensures err.None? ==> activeGroup == old(activeGroup)
      ensures err.Some? ==> err.value == OutsideGroups && activeGroup.None?
      decreases body, 2
    {
      var before := activeGroup;
      err := OpenAndDeclare(name, body);
      Restore(before, err);
    }

    /** The new group made active and the calls of `func` made under it. */
    method OpenAndDeclare(name: string, body: seq<Decl>) returns (err: Option<string>)
      requires Valid()
      modifies this
      ensures Valid() && SettingsKept()
      ensures Grew(old(groupArena), old(testArena), old(groups), groupArena, testArena, groups)
      ensures Opened(old(groupArena), old(activeGroup), old(temporary), name, groupArena, groups, |old(groupArena)|)
      ensures InRange(old(activeGroup), |groupArena|)
      ensures err.Some? ==> err.value == OutsideGroups && activeGroup.None?
      decreases body, 1
    {
      var g := OpenGroup(name);
      ghost var gs1, ts1, r1 := groupArena, testArena, groups;
      err := Declare(body);
      GrewTrans(old(groupArena), old(testArena), old(groups), gs1, ts1, r1, groupArena, testArena, groups);
      OpenedKept(old(groupArena), old(activeGroup), old(temporary), name, gs1, ts1, r1, groupArena, testArena, groups, g);
    }

    /**
     * `this.activeGroup = before` at the end of `describe`, reached only
     * when `func` returned without an error.
     */
    method Restore(before: Option<nat>, err: Option<string>)
      requires Valid() && InRange(before, |groupArena|)
      modifies this`activeGroup
      ensures Valid() && activeGroup == if err.None? then before else old(activeGroup)
    {
      if err.None? {
        activeGroup := before;
      }
    }

    /** `test(name, func)` followed by the calls `handle` on the test it returns. */
    method TestWithHandle(name: string, body: Body, handle: seq<Modifier>) returns (err: Option<string>)
      requires Valid()
      modifies this
      ensures Valid() && SettingsKept()
      ensures Grew(old(groupArena), old(testArena), old(groups), groupArena, testArena, groups)
      ensures err.Some? <==> old(activeGroup).None?
      ensures err.Some? ==> err.value == OutsideGroups && activeGroup.None?
      ensures old(activeGroup).Some? ==>
                var g := old(activeGroup).value;
                var tmp := old(temporary);
                var id := |old(testArena)|;
                var t := EltroTree.Test(g, tmp.skip, tmp.only && !tmp.skip, Or(tmp.timeout, old(groupArena)[g].customTimeout),
                              old(groupArena)[g].name + " " + name, body, None);
                var x1 := if tmp.only && !tmp.skip then EltroTree.HasOnly(ListTest(old(groupArena), g, id), old(hasExclusive), g, true)
                          else Exclusivity(ListTest(old(groupArena), g, id), old(hasExclusive));
                var x := if OnlyMod in handle then EltroTree.HasOnly(x1.groups, x1.hasExclusive, g, true) else x1;
                testArena == old(testArena) + [Modified(t, handle)]
                && groupArena == x.groups && hasExclusive == x.hasExclusive
                && temporary == NoTemporary
                && groups == old(groups) && fileGroupMap == old(fileGroupMap) && activeGroup == old(activeGroup)
    {
      var r := Test(name, body);
      if r.Err? {
        return Some(r.message);
      }
      ghost var gs1, ts1, r1 := groupArena, testArena, groups;
      ApplyModifiers(r.value, handle);
      HandleGrew(old(groupArena), old(testArena), old(groups), gs1, ts1, r1, groupArena, testArena, r.value);
      ReplaceLast(old(testArena), ts1[r.value], Modified(ts1[r.value], handle));
      return None;
    }

    /** `before(func)` or `after(func)` followed by the calls `handle` on the hook it returns. */
    method HookWithHandle(body: Body, isBefore: bool, handle: seq<Modifier>) returns (err: Option<string>)
      requires Valid()
      modifies this
      ensures Valid() && SettingsKept()
      ensures Grew(old(groupArena), old(testArena), old(groups), groupArena, testArena, groups)
      ensures err.Some? <==> old(activeGroup).None?
      ensures err.Some? ==> err.value == OutsideGroups && activeGroup.None?
      ensures old(activeGroup).Some? ==>
                var g := old(activeGroup).value;
                var id := |old(testArena)|;
                var t := NewTest(g, (if isBefore then "Before: " else "After: ") + old(groupArena)[g].name, body)
                           .(customTimeout := Or(old(temporary).timeout, old(groupArena)[g].customTimeout));
                var gs1 := SetHook(old(groupArena), g, id, isBefore);
                var x := if OnlyMod in handle then EltroTree.HasOnly(gs1, old(hasExclusive), g, true)
                         else Exclusivity(gs1, old(hasExclusive));
                testArena == old(testArena) + [Modified(t, handle)]
                && groupArena == x.groups && hasExclusive == x.hasExclusive
                && temporary == old(temporary).(timeout := 0)
                && groups == old(groups) && fileGroupMap == old(fileGroupMap) && activeGroup == old(activeGroup)
    {
      var r := Hook(body, isBefore);
      if r.Err? {
        return Some(r.message);
      }
      ghost var gs1, ts1, r1 := groupArena, testArena, groups;
      ApplyModifiers(r.value, handle);
      HandleGrew(old(groupArena), old(testArena), old(groups), gs1, ts1, r1, groupArena, testArena, r.value);
      ReplaceLast(old(testArena), ts1[r.value], Modified(ts1[r.value], handle));
      return None;
    }

    /** One call other than `describe` that a test file or a `describe` body makes. */
    method Apply(d: Decl) returns (err: Option<string>)
      requires Valid() && !d.DescribeCall?
      modifies this
      ensures Valid() && SettingsKept()
      ensures Grew(old(groupArena), old(testArena), old(groups), groupArena, testArena, groups)
      ensures err.Some? ==> err.value == OutsideGroups && activeGroup.None?
    {
      err := None;
      match d {
        case TestCall(name, test, handle) => err := TestWithHandle(name, test, handle);
        case BeforeCall(hook, handle) => err := HookWithHandle(hook, true, handle);
        case AfterCall(hook, handle) => err := HookWithHandle(hook, false, handle);
        case TimeoutCall(ms) => Timeout(ms);
        case SkipCall => Skip();
        case OnlyCall => Only();
        case SetFilenameCall(f) => SetFilename(f);
        case ResetFilenameCall => ResetFilename();
      }
    }

    /**
     * The calls `ds` make in order, stopping at the first one that throws
     * (a registration outside any group) and returning its message.
     */
    method Declare(ds: seq<Decl>) returns (err: Option<string>)
      requires Valid()
      modifies this
      ensures Valid() && SettingsKept()
      ensures Grew(old(groupArena), old(testArena), old(groups), groupArena, testArena, groups)
      ensures err.Some? ==> err.value == OutsideGroups && activeGroup.None?
      decreases ds, 0
    {
      err := None;
      var i := 0;
      while i < |ds|
        invariant 0 <= i <= |ds| && Valid() && SettingsKept() && err.None?
        invariant Grew(old(groupArena), old(testArena), old(groups), groupArena, testArena, groups)
        decreases |ds| - i
      {
        ghost var gs1, ts1, r1 := groupArena, testArena, groups;
        if ds[i].DescribeCall? {
          err := Describe(ds[i].name, ds[i].body);
        } else {
          err := Apply(ds[i]);
        }
        GrewTrans(old(groupArena), old(testArena), old(groups), gs1, ts1, r1, groupArena, testArena, groups);
        if err.Some? {
          return;
        }
        i := i + 1;
      }
    }

    // -------------------------------------------------------------------------
    // Running (lib/eltro.mjs:114-309)

    /**
     * `__runTest(stats, test, prefix)`: the race of the body against its
     * timeout is decided by `Settle`; the counters, the stored error and
     * `failedTests` change as EltroRun.RunTest says.
     */
    method RunTest(stats: Stats, id: nat, p: Prefix)
      requires Runnable() && id < |testArena|
      modifies this`testArena, this`failedTests, this`ran, stats
      ensures Runnable() && RunFrame()
      ensures Progress(stats) == EltroRun.RunTest(old(Progress(stats)), id, p)
    {
      Settled(stats, id, p);
      if ErrorSet(testArena[id]) {
        failedTests := failedTests + [id];
      }
      ran := ran + [id];
    }

    /** The outcome part of `__runTest`: the counter bumped and the error stored. */
    method Settled(stats: Stats, id: nat, p: Prefix)
      requires id < |testArena|
      modifies this`testArena, stats
      ensures var r := EltroRun.RunTest(old(Progress(stats)), id, p);
              testArena == r.tests && stats.Value() == r.stats
    {
      var t := testArena[id];
      if !t.skipTest {
        match Settle(t.body, EffectiveTimeout(t.customTimeout)) {
          case Pass =>
            if p == TestPrefix {
              stats.passed := stats.passed + 1;
            }
          case Fail(err) =>
            testArena := testArena[id := t.(error := Some(Normalize(p, err)))];
            stats.failed := stats.failed + 1;
        }
      } else {
        stats.skipped := stats.skipped + 1;
      }
    }

    /**
     * `__runGroup(g, stats)`: the before hook, stopping if it left an error;
     * the eligible tests; the eligible subgroups; the after hook.
     */
    method RunGroup(stats: Stats, g: nat)
      requires Runnable() && g < |groupArena|
      modifies this`testArena, this`failedTests, this`ran, stats
      ensures Runnable() && RunFrame()
      ensures Progress(stats) == EltroRun.RunGroup(groupArena, g, old(Progress(stats)))
      decreases |groupArena| - g, 1
    {
      var grp := groupArena[g];
      if grp.before.Some? {
        RunTest(stats, grp.before.value, BeforePrefix);
        if ErrorSet(testArena[grp.before.value]) {
          return;
        }
      }
      RunGroupTests(stats, g);
      RunGroupSubgroups(stats, g);
      if grp.after.Some? {
        RunTest(stats, grp.after.value, AfterPrefix);
      }
    }

    /** The tests loop of `__runGroup`. */
    method RunGroupTests(stats: Stats, g: nat)
      requires Runnable() && g < |groupArena|
      modifies this`testArena, this`failedTests, this`ran, stats
      ensures Runnable() && RunFrame()
      ensures Progress(stats) == RunTests(old(Progress(stats)), groupArena[g].tests, groupArena[g].hasExclusive)
    {
      var grp := groupArena[g];
      for x := 0 to |grp.tests|
        invariant Runnable() && RunFrame()
        invariant Progress(stats) == RunTests(old(Progress(stats)), grp.tests[..x], grp.hasExclusive)
      {
        var id := grp.tests[x];
        RunTestsStep(old(Progress(stats)), grp.tests, x, grp.hasExclusive);
        if !testArena[id].skipTest && testArena[id].isExclusive == grp.hasExclusive {
          RunTest(stats, id, TestPrefix);
        }
      }
      assert grp.tests[..|grp.tests|] == grp.tests;
    }

    /** The subgroups loop of `__runGroup`. */
    method RunGroupSubgroups(stats: Stats, g: nat)
      requires Runnable() && g < |groupArena|
      modifies this`testArena, this`failedTests, this`ran, stats
      ensures Runnable() && RunFrame()
      ensures Progress(stats) == RunSubgroups(groupArena, g, |groupArena[g].groups|, old(Progress(stats)))
      decreases |groupArena| - g, 0
    {
      var grp := groupArena[g];
      ghost var s0 := Progress(stats);
      for x := 0 to |grp.groups|
        invariant Runnable() && RunFrame()
        invariant Progress(stats) == RunSubgroups(groupArena, g, x, s0)
      {
        var c := grp.groups[x];
        ghost var sx := Progress(stats);
        if !groupArena[c].skipTest && grp.hasExclusive == (groupArena[c].hasExclusive || groupArena[c].isExclusive) {
          RunGroup(stats, c);
          assert Progress(stats) == EltroRun.RunGroup(groupArena, c, sx);
        } else {
          assert Progress(stats) == sx;
        }
      }
    }

    /**
     * `run()`: fresh counters, then every eligible root group in
     * registration order; the counters are returned.
     */
    method Run() returns (stats: Stats)
      requires Valid()
      modifies this
      ensures fresh(stats) && Valid() && RunFrame()
      ensures Progress(stats) == RunRoots(groupArena, groups, hasExclusive, RunState(old(testArena), Counts(0, 0, 0), old(failedTests), old(ran)))
      ensures old(ran) <= ran && forall i :: |old(ran)| <= i < |ran| ==> Reached(groupArena, old(testArena), hasExclusive, ran[i])
      ensures ChildrenListed(groupArena) && RootsComplete(groupArena, groups) && BeforeHooksSurvive(groupArena, old(testArena)) ==>
                forall id :: id in ran[|old(ran)|..] <==> Reached(groupArena, old(testArena), hasExclusive, id)
    {
      stats := new Stats();
      ghost var s0 := Progress(stats);
      for i := 0 to |groups|
        invariant Runnable() && RunFrame() && fresh(stats)
        invariant Progress(stats) == RunRoots(groupArena, groups[..i], hasExclusive, s0)
      {
        var g := groups[i];
        assert groups[..i + 1][..i] == groups[..i];
        if !groupArena[g].skipTest && hasExclusive == (groupArena[g].hasExclusive || groupArena[g].isExclusive) {
          RunGroup(stats, g);
        }
      }
      assert groups[..|groups|] == groups;
      ErrorsKeepArena(groupArena, old(testArena), hasExclusive, testArena);
      assert SameTests(old(testArena), s0);
      RunRootsReach(groupArena, old(testArena), hasExclusive, groups, s0);
      if ChildrenListed(groupArena) && RootsComplete(groupArena, groups) && BeforeHooksSurvive(groupArena, old(testArena)) {
        RunRootsRunsExactlyReached(groupArena, old(testArena), hasExclusive, groups, s0);
      }
    }
  }
}
