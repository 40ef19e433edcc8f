/**
 * The group/test tree of lib/eltro.mjs, stored in arenas: groups and tests
 * are values in two sequences and refer to each other by index. This module
 * holds the entities, the shape the registration API keeps the arenas in,
 * the upward exclusivity walk `Group.__hasonly` (lib/eltro.mjs:25-45) as a
 * function, and the invariant it maintains.
 */
module EltroTree {
  import opened Values
  import opened Execution

  /** A `Group` (lib/eltro.mjs:3-15); `parent`, `groups`, `tests`, `before` and `after` are arena ids. */
  datatype Group = Group(
    name: string,
    hasExclusive: bool,
    parent: Option<nat>,
    groups: seq<nat>,
    tests: seq<nat>,
    customTimeout: nat,
    skipTest: bool,
    isExclusive: bool,
    before: Option<nat>,
    after: Option<nat>)

  function NewGroup(name: string): Group {
    Group(name, false, None, [], [], 0, false, false, None, None)
  }

  /** A `Test` (lib/eltro.mjs:52-62); hooks are tests too. `group` is the id of its owner. */
  datatype Test = Test(
    group: nat,
    skipTest: bool,
    isExclusive: bool,
    customTimeout: nat,
    name: string,
    body: Body,
    error: Option<Value>)

  function NewTest(group: nat, name: string, body: Body): Test {
    Test(group, false, false, 0, name, body, None)
  }

  predicate InRange(p: Option<nat>, n: nat) {
    p.Some? ==> p.value < n
  }

  function Rank(p: Option<nat>): nat {
    if p.Some? then p.value + 1 else 0
  }

  /** Every parent has a smaller id than its child, so every parent chain ends. */
  ghost predicate ParentsBelow(gs: seq<Group>) {
    forall g :: 0 <= g < |gs| ==> InRange(gs[g].parent, g)
  }

  /** Every id the arenas hold points into them; children have larger ids than their parent. */
  ghost predicate Shaped(gs: seq<Group>, n: nat) {
    ParentsBelow(gs)
    && (forall g, i :: 0 <= g < |gs| && 0 <= i < |gs[g].groups| ==> g < gs[g].groups[i] < |gs|)
    && (forall g, i :: 0 <= g < |gs| && 0 <= i < |gs[g].tests| ==> gs[g].tests[i] < n)
    && (forall g :: 0 <= g < |gs| ==> InRange(gs[g].before, n) && InRange(gs[g].after, n))
  }

  /** Back references agree with forward ones: a child's parent, a test's and a hook's group. */
  ghost predicate Linked(gs: seq<Group>, ts: seq<Test>)
    requires Shaped(gs, |ts|)
  {
    (forall g, i :: 0 <= g < |gs| && 0 <= i < |gs[g].groups| ==> gs[gs[g].groups[i]].parent == Some(g))
    && (forall g, i :: 0 <= g < |gs| && 0 <= i < |gs[g].tests| ==> ts[gs[g].tests[i]].group == g)
    && (forall g :: 0 <= g < |gs| && gs[g].before.Some? ==> ts[gs[g].before.value].group == g)
    && (forall g :: 0 <= g < |gs| && gs[g].after.Some? ==> ts[gs[g].after.value].group == g)
    && (forall t :: 0 <= t < |ts| ==> ts[t].group < |gs|)
  }

  /** `gs'` has the parents and skip flags of `gs`. */
  ghost predicate SameShape(gs: seq<Group>, gs': seq<Group>) {
    |gs'| == |gs|
    && forall i :: 0 <= i < |gs| ==> gs'[i].parent == gs[i].parent && gs'[i].skipTest == gs[i].skipTest
  }

  /** `gs'` differs from `gs` only in `hasExclusive` flags, and only by setting them. */
  ghost predicate OnlyMarks(gs: seq<Group>, gs': seq<Group>) {
    |gs'| == |gs|
    && forall i :: 0 <= i < |gs| ==>
         gs'[i] == gs[i].(hasExclusive := gs'[i].hasExclusive) && (gs[i].hasExclusive ==> gs'[i].hasExclusive)
  }

  lemma OnlyMarksShape(gs: seq<Group>, gs': seq<Group>)
    requires ParentsBelow(gs) && OnlyMarks(gs, gs')
    ensures SameShape(gs, gs') && ParentsBelow(gs')
  {
    forall i | 0 <= i < |gs| ensures gs'[i].parent == gs[i].parent && gs'[i].skipTest == gs[i].skipTest {
      assert gs'[i] == gs[i].(hasExclusive := gs'[i].hasExclusive);
    }
  }

  lemma MarkOne(gs: seq<Group>, q: nat, flag: bool)
    requires ParentsBelow(gs) && q < |gs|
    ensures OnlyMarks(gs, gs[q := gs[q].(hasExclusive := gs[q].hasExclusive || flag)])
    ensures ParentsBelow(gs[q := gs[q].(hasExclusive := gs[q].hasExclusive || flag)])
  {
    var gs' := gs[q := gs[q].(hasExclusive := gs[q].hasExclusive || flag)];
    assert OnlyMarks(gs, gs');
    OnlyMarksShape(gs, gs');
  }

  lemma OnlyMarksTrans(a: seq<Group>, b: seq<Group>, c: seq<Group>)
    requires OnlyMarks(a, b) && OnlyMarks(b, c)
    ensures OnlyMarks(a, c)
  {
  }

  // ---------------------------------------------------------------------------
  // The upward walk of `__hasonly` (lib/eltro.mjs:34-44)

  /** What the walk leaves: the groups, and whether it climbed past the root. */
  datatype Marking = Marking(groups: seq<Group>, reachedRoot: bool)

  /**
   * The `while (g)` loop: from group `p` upward, stop at the first skipped
   * group, otherwise set `hasExclusive` and go to the parent.
   */
  function Climb(gs: seq<Group>, p: Option<nat>): (m: Marking)
    requires ParentsBelow(gs) && InRange(p, |gs|)
    ensures OnlyMarks(gs, m.groups) && ParentsBelow(m.groups)
    decreases Rank(p)
  {
    match p
    case None => Marking(gs, true)
    case Some(q) =>
      if gs[q].skipTest then Marking(gs, false)
      else
        var gs1 := gs[q := gs[q].(hasExclusive := gs[q].hasExclusive || true)];
        MarkOne(gs, q, true);
        var m := Climb(gs1, gs[q].parent);
        OnlyMarksTrans(gs, gs1, m.groups);
        m
  }

  /** What `__hasonly` leaves: the groups and the process-wide `hasExclusive`. */
  datatype Exclusivity = Exclusivity(groups: seq<Group>, hasExclusive: bool)

  /**
   * `Group.prototype.__hasonly(markHas)` on group `g` with the process-wide
   * flag `e`: nothing if `g` is skipped; otherwise `g.hasExclusive ||=
   * markHas`, the walk from its parent, and the process-wide flag set when
   * the walk gets past the root.
   */
  function HasOnly(gs: seq<Group>, e: bool, g: nat, markHas: bool): (r: Exclusivity)
    requires ParentsBelow(gs) && g < |gs|
    ensures OnlyMarks(gs, r.groups) && ParentsBelow(r.groups) && (e ==> r.hasExclusive)
  {
    if gs[g].skipTest then Exclusivity(gs, e)
    else
      var gs1 := gs[g := gs[g].(hasExclusive := gs[g].hasExclusive || markHas)];
      MarkOne(gs, g, markHas);
      var m := Climb(gs1, gs[g].parent);
      OnlyMarksTrans(gs, gs1, m.groups);
      Exclusivity(m.groups, if m.reachedRoot then true else e)
  }

  // ---------------------------------------------------------------------------
  // An independent description of the walk: the ancestor chain, cut at the
  // first skipped group

  /** `p`, its parent, its parent's parent, ..., the root. */
  function Ancestors(gs: seq<Group>, p: Option<nat>): (chain: seq<nat>)
    requires ParentsBelow(gs) && InRange(p, |gs|)
    ensures forall i :: 0 <= i < |chain| ==> chain[i] < Rank(p)
    decreases Rank(p)
  {
    match p
    case None => []
    case Some(q) => [q] + Ancestors(gs, gs[q].parent)
  }

  /** The number of groups at the start of `chain` that are not skipped. */
  function UnskippedPrefix(gs: seq<Group>, chain: seq<nat>): (k: nat)
    requires forall i :: 0 <= i < |chain| ==> chain[i] < |gs|
    ensures k <= |chain|
    ensures forall i :: 0 <= i < k ==> !gs[chain[i]].skipTest
    ensures k < |chain| ==> gs[chain[k]].skipTest
    decreases |chain|
  {
    if chain == [] || gs[chain[0]].skipTest then 0 else 1 + UnskippedPrefix(gs, chain[1..])
  }

  lemma {:induction false} AncestorsOfSameShape(gs: seq<Group>, gs': seq<Group>, p: Option<nat>)
    requires ParentsBelow(gs) && ParentsBelow(gs') && SameShape(gs, gs') && InRange(p, |gs|)
    ensures Ancestors(gs', p) == Ancestors(gs, p)
    ensures UnskippedPrefix(gs', Ancestors(gs, p)) == UnskippedPrefix(gs, Ancestors(gs, p))
    decreases Rank(p)
  {
    if p.Some? {
      AncestorsOfSameShape(gs, gs', gs[p.value].parent);
    }
  }

  /** `gs'` is `gs` with `hasExclusive` set on exactly the groups in `marked`. */
  ghost predicate MarkedExactly(gs: seq<Group>, gs': seq<Group>, marked: seq<nat>) {
    |gs'| == |gs|
    && forall i :: 0 <= i < |gs| ==> gs'[i] == if i in marked then gs[i].(hasExclusive := true) else gs[i]
  }

  lemma MarkedExactlyStep(gs: seq<Group>, q: nat, gs': seq<Group>, marked: seq<nat>)
    requires q < |gs| && q !in marked
    requires MarkedExactly(gs[q := gs[q].(hasExclusive := true)], gs', marked)
    ensures MarkedExactly(gs, gs', [q] + marked)
  {
    var gs1 := gs[q := gs[q].(hasExclusive := true)];
    forall i | 0 <= i < |gs|
      ensures gs'[i] == if i in [q] + marked then gs[i].(hasExclusive := true) else gs[i]
    {
      assert (i in [q] + marked) == (i == q || i in marked);
      if i != q {
        assert gs1[i] == gs[i];
      }
    }
  }

  lemma PrefixOfCons(x: nat, s: seq<nat>, k: nat)
    requires k <= |s|
    ensures ([x] + s)[..1 + k] == [x] + s[..k]
  {
    assert |([x] + s)[..1 + k]| == 1 + k;
    forall i | 0 <= i < 1 + k ensures ([x] + s)[..1 + k][i] == ([x] + s[..k])[i] {
      if i > 0 {
        assert ([x] + s)[i] == s[i - 1];
      }
    }
  }

  /**
   * The walk from `p` marks exactly the ancestors before the first skipped
   * one, leaves that one and everything above it alone, and gets past the
   * root exactly when no ancestor is skipped.
   */
  lemma {:induction false} ClimbMarksUnskippedPrefix(gs: seq<Group>, p: Option<nat>)
    requires ParentsBelow(gs) && InRange(p, |gs|)
    ensures var chain := Ancestors(gs, p);
            var k := UnskippedPrefix(gs, chain);
            MarkedExactly(gs, Climb(gs, p).groups, chain[..k])
            && (Climb(gs, p).reachedRoot <==> k == |chain|)
    decreases Rank(p)
  {
    match p
    case None =>
    case Some(q) =>
      if !gs[q].skipTest {
        var gs1 := gs[q := gs[q].(hasExclusive := true)];
        assert gs1 == gs[q := gs[q].(hasExclusive := gs[q].hasExclusive || true)];
        MarkOne(gs, q, true);
        OnlyMarksShape(gs, gs1);
        var up := gs[q].parent;
        ClimbMarksUnskippedPrefix(gs1, up);
        AncestorsOfSameShape(gs, gs1, up);
        var rest := Ancestors(gs, up);
        var k1 := UnskippedPrefix(gs, rest);
        var chain := Ancestors(gs, p);
        assert chain == [q] + rest;
        assert chain[1..] == rest;
        assert UnskippedPrefix(gs, chain) == 1 + k1;
        PrefixOfCons(q, rest, k1);
        assert q !in rest[..k1];
        MarkedExactlyStep(gs, q, Climb(gs1, up).groups, rest[..k1]);
        assert Climb(gs, p) == Climb(gs1, up);
        assert MarkedExactly(gs, Climb(gs, p).groups, chain[..UnskippedPrefix(gs, chain)]);
        assert Climb(gs, p).reachedRoot <==> UnskippedPrefix(gs, chain) == |chain|;
      }
  }

  /**
   * `__hasonly(markHas)` on `g`: a skipped `g` is left as it is and nothing
   * else changes. Otherwise `g.hasExclusive` becomes `g.hasExclusive ||
   * markHas`, the ancestors of `g` before the first skipped one get
   * `hasExclusive`, no other group changes, and the process-wide flag is set
   * exactly when no ancestor is skipped (else it keeps its value).
   */
  lemma HasOnlyEffect(gs: seq<Group>, e: bool, g: nat, markHas: bool)
    requires ParentsBelow(gs) && g < |gs|
    ensures var r := HasOnly(gs, e, g, markHas);
            var chain := Ancestors(gs, gs[g].parent);
            var k := UnskippedPrefix(gs, chain);
            |r.groups| == |gs|
            && (gs[g].skipTest ==> r == Exclusivity(gs, e))
            && (!gs[g].skipTest ==>
                  r.groups[g] == gs[g].(hasExclusive := gs[g].hasExclusive || markHas)
                  && (forall i :: 0 <= i < |gs| && i != g ==>
                        r.groups[i] == if i in chain[..k] then gs[i].(hasExclusive := true) else gs[i])
                  && r.hasExclusive == (e || k == |chain|))
  {
    if !gs[g].skipTest {
      var gs1 := gs[g := gs[g].(hasExclusive := gs[g].hasExclusive || markHas)];
      MarkOne(gs, g, markHas);
      OnlyMarksShape(gs, gs1);
      ClimbMarksUnskippedPrefix(gs1, gs[g].parent);
      AncestorsOfSameShape(gs, gs1, gs[g].parent);
      var chain := Ancestors(gs, gs[g].parent);
      assert g !in chain;
      var k := UnskippedPrefix(gs, chain);
      assert g !in chain[..k];
    }
  }

  // ---------------------------------------------------------------------------
  // `only()` on a group or a test

  /** The part of the engine state exclusivity concerns. */
  datatype Tree = Tree(groups: seq<Group>, tests: seq<Test>, hasExclusive: bool)

  ghost predicate TreeOk(t: Tree) {
    ParentsBelow(t.groups) && forall id :: 0 <= id < |t.tests| ==> t.tests[id].group < |t.groups|
  }

  /** `Group.prototype.only` (lib/eltro.mjs:47-50). */
  function GroupOnly(t: Tree, g: nat): (r: Tree)
    requires TreeOk(t) && g < |t.groups|
    ensures TreeOk(r) && r.tests == t.tests
  {
    var gs := t.groups[g := t.groups[g].(isExclusive := true)];
    assert SameShape(t.groups, gs);
    var x := HasOnly(gs, t.hasExclusive, g, false);
    Tree(x.groups, t.tests, x.hasExclusive)
  }

  /** `Test.prototype.only` (lib/eltro.mjs:72-75). */
  function TestOnly(t: Tree, id: nat): (r: Tree)
    requires TreeOk(t) && id < |t.tests|
    ensures TreeOk(r) && |r.tests| == |t.tests|
  {
    var x := HasOnly(t.groups, t.hasExclusive, t.tests[id].group, true);
    Tree(x.groups, t.tests[id := t.tests[id].(isExclusive := true)], x.hasExclusive)
  }

  /** One entry of what `__hasonly` leaves on an unskipped group. */
  lemma HasOnlyAt(gs: seq<Group>, e: bool, g: nat, markHas: bool, i: nat)
    requires ParentsBelow(gs) && g < |gs| && !gs[g].skipTest && i < |gs|
    ensures var r := HasOnly(gs, e, g, markHas);
            var chain := Ancestors(gs, gs[g].parent);
            |r.groups| == |gs|
            && r.groups[i] == if i == g then gs[g].(hasExclusive := gs[g].hasExclusive || markHas)
                              else if i in chain[..UnskippedPrefix(gs, chain)] then gs[i].(hasExclusive := true)
                              else gs[i]
  {
    HasOnlyEffect(gs, e, g, markHas);
  }

  /** A second `__hasonly` with the same arguments changes nothing. */
  lemma HasOnlyIdempotent(gs: seq<Group>, e: bool, g: nat, markHas: bool)
    requires ParentsBelow(gs) && g < |gs|
    ensures var r := HasOnly(gs, e, g, markHas);
            HasOnly(r.groups, r.hasExclusive, g, markHas) == r
  {
    if !gs[g].skipTest {
      var r := HasOnly(gs, e, g, markHas);
      OnlyMarksShape(gs, r.groups);
      assert !r.groups[g].skipTest;
      var r2 := HasOnly(r.groups, r.hasExclusive, g, markHas);
      AncestorsOfSameShape(gs, r.groups, gs[g].parent);
      assert r2.hasExclusive == r.hasExclusive by {
        HasOnlyEffect(gs, e, g, markHas);
        HasOnlyEffect(r.groups, r.hasExclusive, g, markHas);
      }
      forall i | 0 <= i < |gs| ensures r2.groups[i] == r.groups[i] {
        HasOnlyAt(gs, e, g, markHas, i);
        HasOnlyAt(r.groups, r.hasExclusive, g, markHas, i);
      }
      assert |r2.groups| == |r.groups|;
      assert r2.groups == r.groups;
    }
  }

  /** Calling `only()` twice on a group gives the state calling it once gives. */
  lemma GroupOnlyIdempotent(t: Tree, g: nat)
    requires TreeOk(t) && g < |t.groups|
    ensures GroupOnly(GroupOnly(t, g), g) == GroupOnly(t, g)
  {
    var gs := t.groups[g := t.groups[g].(isExclusive := true)];
    assert SameShape(t.groups, gs);
    var x := HasOnly(gs, t.hasExclusive, g, false);
    HasOnlyIdempotent(gs, t.hasExclusive, g, false);
    assert x.groups[g].isExclusive;
    assert x.groups[g := x.groups[g].(isExclusive := true)] == x.groups;
  }

  /** Calling `only()` twice on a test gives the state calling it once gives. */
  lemma TestOnlyIdempotent(t: Tree, id: nat)
    requires TreeOk(t) && id < |t.tests|
    ensures TestOnly(TestOnly(t, id), id) == TestOnly(t, id)
  {
    HasOnlyIdempotent(t.groups, t.hasExclusive, t.tests[id].group, true);
    var ts := t.tests[id := t.tests[id].(isExclusive := true)];
    assert ts[id := ts[id].(isExclusive := true)] == ts;
  }

  // ---------------------------------------------------------------------------
  // The exclusivity invariant

  /**
   * Walking up from `p`, every group is marked `hasExclusive` until a skipped
   * group is met; if none is met, the process-wide flag `e` is set.
   */
  ghost predicate UpMarked(gs: seq<Group>, e: bool, p: Option<nat>)
    requires ParentsBelow(gs) && InRange(p, |gs|)
    decreases Rank(p)
  {
    match p
    case None => e
    case Some(q) => gs[q].skipTest || (gs[q].hasExclusive && UpMarked(gs, e, gs[q].parent))
  }

  /**
   * Every exclusive test has its group and the ancestors above it marked up
   * to the first skipped one; every exclusive group that is not skipped has
   * its ancestors so marked (its own flag says only whether something
   * beneath it is exclusive).
   */
  ghost predicate ExclusivityHolds(t: Tree)
    requires TreeOk(t)
  {
    (forall id :: 0 <= id < |t.tests| && t.tests[id].isExclusive ==>
       UpMarked(t.groups, t.hasExclusive, Some(t.tests[id].group)))
    && (forall g :: 0 <= g < |t.groups| && t.groups[g].isExclusive && !t.groups[g].skipTest ==>
          UpMarked(t.groups, t.hasExclusive, t.groups[g].parent))
  }

  /** `gs'` extends `gs`: same parents, and skip and `hasExclusive` flags only set, never cleared. */
  ghost predicate FlagsGrow(gs: seq<Group>, gs': seq<Group>) {
    |gs| <= |gs'|
    && forall i :: 0 <= i < |gs| ==>
         gs'[i].parent == gs[i].parent
         && (gs[i].skipTest ==> gs'[i].skipTest)
         && (gs[i].hasExclusive ==> gs'[i].hasExclusive)
  }

  lemma {:induction false} UpMarkedGrows(gs: seq<Group>, e: bool, gs': seq<Group>, e': bool, p: Option<nat>)
    requires ParentsBelow(gs) && ParentsBelow(gs') && FlagsGrow(gs, gs') && (e ==> e')
    requires InRange(p, |gs|) && UpMarked(gs, e, p)
    ensures UpMarked(gs', e', p)
    decreases Rank(p)
  {
    if p.Some? && !gs[p.value].skipTest {
      UpMarkedGrows(gs, e, gs', e', gs[p.value].parent);
    }
  }

  /** After the walk from `p`, the chain above `p` is marked. */
  lemma {:induction false} ClimbMarks(gs: seq<Group>, e: bool, p: Option<nat>)
    requires ParentsBelow(gs) && InRange(p, |gs|)
    ensures var m := Climb(gs, p); UpMarked(m.groups, e || m.reachedRoot, p)
    decreases Rank(p)
  {
    match p
    case None =>
    case Some(q) =>
      if !gs[q].skipTest {
        var gs1 := gs[q := gs[q].(hasExclusive := gs[q].hasExclusive || true)];
        MarkOne(gs, q, true);
        ClimbMarks(gs1, e, gs[q].parent);
        var m := Climb(gs1, gs[q].parent);
        OnlyMarksShape(gs1, m.groups);
        assert m.groups[q].hasExclusive;
        assert m.groups[q].parent == gs[q].parent;
      }
  }

  /** `__hasonly(markHas)` on an unskipped `g` marks the chain above `g`, and `g` too when `markHas`. */
  lemma HasOnlyMarks(gs: seq<Group>, e: bool, g: nat, markHas: bool)
    requires ParentsBelow(gs) && g < |gs| && !gs[g].skipTest
    ensures var r := HasOnly(gs, e, g, markHas);
            UpMarked(r.groups, r.hasExclusive, gs[g].parent)
            && (markHas ==> UpMarked(r.groups, r.hasExclusive, Some(g)))
  {
    var gs1 := gs[g := gs[g].(hasExclusive := gs[g].hasExclusive || markHas)];
    MarkOne(gs, g, markHas);
    ClimbMarks(gs1, e, gs[g].parent);
    var m := Climb(gs1, gs[g].parent);
    OnlyMarksShape(gs1, m.groups);
    assert markHas ==> m.groups[g].hasExclusive;
  }

  /**
   * A change that sets flags, adds groups and tests that are not exclusive,
   * and makes nothing newly exclusive keeps the invariant.
   */
  lemma ExclusivityKept(t: Tree, t': Tree)
    requires TreeOk(t) && TreeOk(t') && ExclusivityHolds(t)
    requires FlagsGrow(t.groups, t'.groups) && (t.hasExclusive ==> t'.hasExclusive)
    requires |t.tests| <= |t'.tests|
    requires forall id :: 0 <= id < |t.tests| ==>
               t'.tests[id].group == t.tests[id].group && (t'.tests[id].isExclusive ==> t.tests[id].isExclusive)
    requires forall id :: |t.tests| <= id < |t'.tests| ==> !t'.tests[id].isExclusive
    requires forall g :: 0 <= g < |t.groups| ==> (t'.groups[g].isExclusive ==> t.groups[g].isExclusive)
    requires forall g :: |t.groups| <= g < |t'.groups| ==> !t'.groups[g].isExclusive
    ensures ExclusivityHolds(t')
  {
    forall id | 0 <= id < |t'.tests| && t'.tests[id].isExclusive
      ensures UpMarked(t'.groups, t'.hasExclusive, Some(t'.tests[id].group))
    {
      UpMarkedGrows(t.groups, t.hasExclusive, t'.groups, t'.hasExclusive, Some(t.tests[id].group));
    }
    forall g | 0 <= g < |t'.groups| && t'.groups[g].isExclusive && !t'.groups[g].skipTest
      ensures UpMarked(t'.groups, t'.hasExclusive, t'.groups[g].parent)
    {
      UpMarkedGrows(t.groups, t.hasExclusive, t'.groups, t'.hasExclusive, t.groups[g].parent);
    }
  }

  /** `only()` on a group keeps the invariant. */
  lemma GroupOnlyKeepsExclusivity(t: Tree, g: nat)
    requires TreeOk(t) && g < |t.groups| && ExclusivityHolds(t)
    ensures ExclusivityHolds(GroupOnly(t, g))
  {
    var gs := t.groups[g := t.groups[g].(isExclusive := true)];
    assert SameShape(t.groups, gs);
    var x := HasOnly(gs, t.hasExclusive, g, false);
    var r := GroupOnly(t, g);
    OnlyMarksShape(gs, x.groups);
    assert FlagsGrow(t.groups, r.groups);
    if !gs[g].skipTest {
      HasOnlyMarks(gs, t.hasExclusive, g, false);
    }
    forall id | 0 <= id < |r.tests| && r.tests[id].isExclusive
      ensures UpMarked(r.groups, r.hasExclusive, Some(r.tests[id].group))
    {
      UpMarkedGrows(t.groups, t.hasExclusive, r.groups, r.hasExclusive, Some(t.tests[id].group));
    }
    forall h | 0 <= h < |r.groups| && r.groups[h].isExclusive && !r.groups[h].skipTest
      ensures UpMarked(r.groups, r.hasExclusive, r.groups[h].parent)
    {
      if h != g {
        assert r.groups[h].isExclusive == t.groups[h].isExclusive;
        UpMarkedGrows(t.groups, t.hasExclusive, r.groups, r.hasExclusive, t.groups[h].parent);
      }
    }
  }

  /** `only()` on a test keeps the invariant. */
  lemma TestOnlyKeepsExclusivity(t: Tree, id: nat)
    requires TreeOk(t) && id < |t.tests| && ExclusivityHolds(t)
    ensures ExclusivityHolds(TestOnly(t, id))
  {
    var g := t.tests[id].group;
    var x := HasOnly(t.groups, t.hasExclusive, g, true);
    var r := TestOnly(t, id);
    OnlyMarksShape(t.groups, x.groups);
    assert FlagsGrow(t.groups, r.groups);
    if !t.groups[g].skipTest {
      HasOnlyMarks(t.groups, t.hasExclusive, g, true);
    }
    forall j | 0 <= j < |r.tests| && r.tests[j].isExclusive
      ensures UpMarked(r.groups, r.hasExclusive, Some(r.tests[j].group))
    {
      if j != id {
        UpMarkedGrows(t.groups, t.hasExclusive, r.groups, r.hasExclusive, Some(t.tests[j].group));
      }
    }
    forall h | 0 <= h < |r.groups| && r.groups[h].isExclusive && !r.groups[h].skipTest
      ensures UpMarked(r.groups, r.hasExclusive, r.groups[h].parent)
    {
      UpMarkedGrows(t.groups, t.hasExclusive, r.groups, r.hasExclusive, t.groups[h].parent);
    }
  }
}
