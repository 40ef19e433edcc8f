# Eltro test engine, modelled in Dafny

This project models the two test engines of the `eltro` test runner and
proves properties of them:

- `Eltro` (lib/eltro.mjs), the main engine, which does the following:
  - Nested `describe` calls build a tree of groups.
  - `test`, `before` and `after` attach tests and hooks to the active group.
  - One-shot `timeout`/`skip`/`only` modifiers apply to the next
    declaration.
  - `only()` propagates up the parent chain (`__hasonly`).
  - `run` walks the tree. It filters tests and groups by exclusivity, lets
    a failing `before` hook abort its group, and races each test body
    against its deadline. It then counts the outcome, normalizes
    non-error rejections and records failures.
- `Casette` (lib/casette.mjs), the legacy engine, which is simpler:
  - `describe` only builds a name prefix.
  - Tests go into one group per test file or into a loose list.
  - `run` visits the groups in creation order and then the loose tests.

## Files and modules

- `values.dfy` (`Values`) holds the JavaScript values the engines inspect:
  - truthiness and the "error-shaped" test (an object with `message` and
    `stack`);
  - the decimal rendering of a number;
  - `JSON.stringify` of a string, with its escape decoder and round trip;
  - the renderings of other values, which are inputs.
- `execution.dfy` (`Execution`) holds the timeout race both engines share:
  - A test body is given by its calling convention (done-callback or
    direct), what calling it does (throws, or returns a value), and the
    asynchronous events that follow, in order. The events are a `done`
    call, promise fulfilment or rejection, and the timer firing.
  - Each event becomes a signal: resolve, reject or expire.
  - The first signal settles the race, and the timer is always last in
    line.
  - `Counts` and the `Stats` class hold the counters.
- `eltro_tree.dfy` (`EltroTree`) holds the group and test records of
  lib/eltro.mjs, kept in two arenas with indices as ids:
  - `__hasonly` as a pure function (`Climb`, `HasOnly`);
  - an independent description of its effect (the ancestor chain cut at
    the first skipped group);
  - the exclusivity invariant that `only()` keeps.
- `eltro_run.dfy` (`EltroRun`) has what running does, as functions of a run
  state: `__runTest`, the tests loop, `__runGroup` and the root loop of
  `run`. It includes the rejection normalization and the eligibility
  filters.
- `eltro.dfy` (`EltroEngine`) is the `Eltro` object as a class:
  - Registration is written as methods over the arenas.
  - A `describe` body is a script of registration calls (`Decl`), run by
    mutually recursive methods.
  - The run methods are loops proved equal to the `EltroRun` functions.
- `casette.dfy` (`CasetteEngine`) is the `Casette` object as a class. It has
  its own pure run specification (`RunOne`, `RunList`, `RunFlat`, `RunAll`)
  and a reference definition of the names a script of calls registers
  (`Names`).

The model follows the code, including these points where its behaviour
may be unexpected. The one exception is the `then` check, listed under
"## Findings":
- Hook failures in eltro increment `failed` (lib/eltro.mjs:209). Only
  `passed` is reserved for plain tests.
- `begin()` in eltro clears only the file map and settings. The groups
  registered so far stay (lib/eltro.mjs:102-112).
- A passing run never clears `test.error`. A test that failed in an
  earlier run is reported again (lib/eltro.mjs:216-218,
  lib/casette.mjs:141-143).
- In eltro a test that the exclusivity filter omits never reaches
  `__runTest`, and the filter also omits explicitly skipped tests. So
  `skipped` counts only skipped hooks (lib/eltro.mjs:251-255).

`RegisterTest` builds the new test with its skip flag and timeout already
set, whereas lib/eltro.mjs:412-425 applies `only`, `skip` and the timeout
to the pushed test one after the other. These modifiers do not interact
(a pending `only` is dropped when `skip` is pending), so the resulting
state is the same.

## Model

| member | source | states |
|---|---|---|
| Values.NatToDecimal | lib/eltro.mjs:128 | the text a number becomes in the timeout message is all digits, with no leading zero |
| Values.DecimalRoundTrip | lib/eltro.mjs:128 | that text reads back as the same number |
| Values.PlainTextEscapesToItself | lib/eltro.mjs:201 | `JSON.stringify` of a string with no quote, backslash or control character is the string between quotes |
| Values.HexRoundTrip | lib/eltro.mjs:201 | the hex digit of a `\u` escape decodes back to its value |
| Values.EscapeCharRoundTrip | lib/eltro.mjs:201 | decoding the escape of one character gives that character back, whatever follows |
| Values.JsonRoundTrip | lib/eltro.mjs:201 | decoding the JSON text of any string gives the string back |
| Values.FalsyExactly | lib/eltro.mjs:142 | the values `if (err)` treats as false are exactly `undefined`, `null`, `false`, `0` and the empty string |
| Values.ErrorShapedTruthy | lib/eltro.mjs:198-200 | a value taken as error-shaped (an object with non-null `message` and `stack`) is truthy, so it never reaches the empty-message branch |
| Execution.Settle | lib/eltro.mjs:119-191 | a test's outcome is the outcome of the first signal its body produces, and a timeout when it produces none |
| Execution.SettleAsWritten | lib/eltro.mjs:154 | as Settle, with the `then` check as written |
| Execution.SettledStaysSettled | lib/eltro.mjs:127 | once the race has settled, later signals change nothing (the `finished` guard) |
| Execution.FirstSignalWins | lib/eltro.mjs:119-191 | the race settles on the first signal delivered |
| Execution.LaterSignalsAppend | lib/eltro.mjs:139-170 | the signals of two event sequences in a row are the signals of each, in order |
| Execution.SynchronousReturnPasses | lib/eltro.mjs:171-178 | a direct-style body that returns something other than a promise passes |
| Execution.ThrowSignals | lib/eltro.mjs:139-189 | a synchronous throw rejects, after the signals of the `done` calls a callback-style body made before it; a direct-style body's `done` calls are ignored |
| Execution.SynchronousThrowFails | lib/eltro.mjs:139-189 | a body that throws fails with what it threw, unless it is callback-style and called `done` first: then that first call decides |
| Execution.FirstDoneCallDecides | lib/eltro.mjs:139-147 | in callback style the first `done(err)` before the timer decides: a truthy `err` fails with it, anything else passes |
| Execution.NoSignalsBefore | lib/eltro.mjs:139-170 | events that produce no signal contribute nothing |
| Execution.MissingDoneTimesOut | lib/eltro.mjs:126-129 | a callback-style body that does not call `done` before the timer fails with the timeout error |
| Execution.FirstTimerIndex | lib/eltro.mjs:126-129 | the position of the first timer event: none before it, and it is one |
| Execution.TimeoutMessageNamesDeadline | lib/eltro.mjs:128 | the timeout message starts with `timeout of ` followed by the deadline in decimal |
| Execution.LaterEventsIgnored | lib/eltro.mjs:155-170 | once a body has produced a signal, further events do not change the outcome |
| Execution.NotCallableThenFailsAsWritten | lib/eltro.mjs:154 | as written, a returned object with a non-callable `then` fails, where the corrected check passes it |
| Execution.AsWrittenAgreesElsewhere | lib/eltro.mjs:154 | apart from that case, the check as written and the corrected one agree |
| Execution.Stats.constructor | lib/eltro.mjs:271-275 | the counters start at zero |
| Execution.EffectiveTimeout | lib/eltro.mjs:123 | the deadline of `customTimeout || this.__timeout` is always positive and is the test's own timeout when it has one |
| Execution.Step | lib/eltro.mjs:125-189 | a handler does nothing once `finished` is set, a settled promise keeps its outcome, and a signal reaching an unfinished race settles it, with only the timer's leaving `finished` unset |
| EltroTree.OnlyMarksShape | lib/eltro.mjs:25-45 | setting `hasExclusive` flags keeps parents and skip flags |
| EltroTree.Climb | lib/eltro.mjs:34-44 | the `while (g)` walk only sets `hasExclusive` flags |
| EltroTree.HasOnly | lib/eltro.mjs:25-45 | `__hasonly` only sets flags, and never clears the process-wide one |
| EltroTree.Ancestors | lib/eltro.mjs:34-44 | the parent chain lists only smaller ids |
| EltroTree.UnskippedPrefix | lib/eltro.mjs:36-38 | the length of the chain before its first skipped group |
| EltroTree.AncestorsOfSameShape | lib/eltro.mjs:34-44 | the chain and its cut depend only on parents and skip flags |
| EltroTree.ClimbMarksUnskippedPrefix | lib/eltro.mjs:34-44 | the walk marks exactly the ancestors before the first skipped one, and gets past the root exactly when none is skipped |
| EltroTree.HasOnlyEffect | lib/eltro.mjs:25-45 | a skipped group changes nothing. Otherwise the group gets `hasExclusive \|\|= markHas`, exactly the unskipped ancestor prefix is marked, nothing else changes, and the process-wide flag is set exactly when no ancestor is skipped |
| EltroTree.HasOnlyAt | lib/eltro.mjs:25-45 | the same, one group at a time |
| EltroTree.GroupOnly | lib/eltro.mjs:47-50 | `group.only()` keeps the tree well formed and leaves the tests alone |
| EltroTree.TestOnly | lib/eltro.mjs:72-75 | `test.only()` keeps the tree well formed |
| EltroTree.HasOnlyIdempotent | lib/eltro.mjs:25-45 | a second `__hasonly` with the same arguments changes nothing |
| EltroTree.GroupOnlyIdempotent | lib/eltro.mjs:47-50 | `only()` twice on a group gives the state `only()` once gives |
| EltroTree.TestOnlyIdempotent | lib/eltro.mjs:72-75 | `only()` twice on a test gives the state `only()` once gives |
| EltroTree.UpMarkedGrows | lib/eltro.mjs:34-44 | an ancestor chain marked up to its first skipped group stays marked when flags are only set |
| EltroTree.ClimbMarks | lib/eltro.mjs:34-44 | after the walk, the chain is marked up to the first skipped group, or the process-wide flag is set |
| EltroTree.HasOnlyMarks | lib/eltro.mjs:25-45 | after `__hasonly`, the group's chain (and the group itself when `markHas`) is marked |
| EltroTree.ExclusivityKept | lib/eltro.mjs:25-75 | adding and marking that creates no new exclusive node keeps the exclusivity invariant |
| EltroTree.GroupOnlyKeepsExclusivity | lib/eltro.mjs:47-50 | `group.only()` keeps the invariant: every exclusive node's chain is marked up to the first skipped group |
| EltroTree.TestOnlyKeepsExclusivity | lib/eltro.mjs:72-75 | `test.only()` keeps the invariant |
| EltroRun.Normalize | lib/eltro.mjs:196-208 | the stored error is always truthy and error-shaped. An error-shaped rejection is kept as it is. Any other truthy one is wrapped in a new error that keeps it as `originalError` and whose message starts `<prefix> promise rejected with ` |
| EltroRun.NormalizeIdempotent | lib/eltro.mjs:196-208 | normalizing an already normalized error changes nothing |
| EltroRun.FalsyRejectionsAlike | lib/eltro.mjs:198-199 | every falsy rejection gives the same error, with message `<prefix> promise rejected with empty message` |
| EltroRun.TextRejectionRecoverable | lib/eltro.mjs:200-202 | a string rejection's message ends in its JSON text, which decodes back to the string |
| EltroRun.BoomMessage | lib/eltro.mjs:200-202 | `reject('boom')` is recorded as `Test promise rejected with "boom"` |
| EltroRun.RunTest | lib/eltro.mjs:114-218 | one run touches only the error of the test run, and appends it to the run order |
| EltroRun.RunTestEffect | lib/eltro.mjs:119-218 | skipped counts as skipped. A pass counts as passed only with the `Test` prefix. A failure stores the normalized error and counts as failed for every prefix. The test is reported exactly when its error is set afterwards |
| EltroRun.StaleErrorReported | lib/eltro.mjs:216-218 | a test that passes while an earlier error is still stored is reported again |
| EltroRun.TimedOutTestRecordsDeadline | lib/eltro.mjs:123-129 | a callback-style test that never calls `done` stores the timeout error for `customTimeout \|\| 2000` and is reported |
| EltroRun.ExtendsTrans | lib/eltro.mjs:241-263 | running only changes errors, counters, failures and run order, and this composes |
| EltroRun.RunTests | lib/eltro.mjs:251-255 | the tests loop only extends the run state |
| EltroRun.EligibleTests | lib/eltro.mjs:252 | the selected tests are listed in the group and pass `!skipTest && isExclusive === g.hasExclusive` |
| EltroRun.RunTestsRunsEligible | lib/eltro.mjs:251-255 | the tests loop runs exactly the eligible tests in order, each adding to passed or failed and none to skipped |
| EltroRun.RunGroup | lib/eltro.mjs:241-263 | `__runGroup` only extends the run state |
| EltroRun.RunSubgroups | lib/eltro.mjs:256-259 | the subgroups loop only extends the run state |
| EltroRun.RunRoots | lib/eltro.mjs:278-282 | the root loop only extends the run state |
| EltroRun.FailedBeforeStopsGroup | lib/eltro.mjs:247-250 | a `before` hook that ends with an error stops the group: nothing else in it runs |
| EltroRun.HooksBracketGroup | lib/eltro.mjs:247-262 | the `before` hook runs first, and the `after` hook runs last unless `before` failed |
| EltroRun.HooksUnskippedKept | lib/eltro.mjs:241-263 | running keeps hooks unskipped |
| EltroRun.SkippedTestsNotCounted | lib/eltro.mjs:241-263 | with unskipped hooks, running a group never counts a test as skipped |
| EltroRun.SkippedSubgroupsNotCounted | lib/eltro.mjs:256-259 | the same for the subgroups loop |
| EltroRun.UnskippedChainMarked | lib/eltro.mjs:34-44 | a marked chain with no skipped group has every ancestor marked, and the process-wide flag set |
| EltroRun.MarkedChainEligible | lib/eltro.mjs:256-259 | such a chain passes the subgroup and root filters all the way down |
| EltroRun.ExclusiveTestSelected | lib/eltro.mjs:72-75 | an exclusive test under no skipped group is reached by every filter on its path and passes the tests filter |
| EltroRun.ExclusiveGroupSelected | lib/eltro.mjs:47-50 | with the invariant `only()` keeps, an exclusive group that is not skipped and has no skipped group above it passes the skip and exclusivity filter of every group on its path |
| EltroRun.RunTestsStep | lib/eltro.mjs:251-255 | one more step of the tests loop runs the next id exactly when it is eligible |
| EltroRun.SameTestsKept | lib/eltro.mjs:241-263 | running keeps every test as registered apart from its error |
| EltroRun.RunsReachedTrans | lib/eltro.mjs:241-282 | "everything run so far was reached" composes |
| EltroRun.ListedTestsReached | lib/eltro.mjs:251-255 | the tests loop of a group whose path passes the filters runs only that group's tests, each passing the tests filter |
| EltroRun.HookRunReached | lib/eltro.mjs:247-262 | a hook of such a group belongs to it |
| EltroRun.RunGroupReaches | lib/eltro.mjs:241-263 | `__runGroup` on a group whose path passes the filters runs only its hooks, its eligible tests and what its eligible subgroups run |
| EltroRun.RunSubgroupsReach | lib/eltro.mjs:256-259 | the subgroups loop runs only what groups passing the subgroup filter reach |
| EltroRun.RunRootsReach | lib/eltro.mjs:278-282 | the root loop over parentless roots runs only hooks and tests of groups whose whole path passes the filters, and plain tests only when they pass the tests filter |
| EltroRun.PathEligibleUnskipped | lib/eltro.mjs:256-282 | a path that passes the filters has no skipped group on it |
| EltroRun.SkippedGroupRunsNothing | lib/eltro.mjs:256-282 | no test or hook under a skipped group runs |
| EltroRun.SurvivorsKeptTrans | lib/eltro.mjs:241-282 | keeping every surviving test unchanged composes over consecutive runs |
| EltroRun.RunTestKeepsSurvivors | lib/eltro.mjs:114-218 | `__runTest` leaves unchanged a test that holds no error and is skipped or passes |
| EltroRun.HooksSurviveKept | lib/eltro.mjs:247-250 | when every before hook survives and surviving tests are kept, every before hook still survives |
| EltroRun.RunTestsKeepsSurvivors | lib/eltro.mjs:251-255 | the tests loop leaves every surviving test unchanged |
| EltroRun.RunGroupKeepsSurvivors | lib/eltro.mjs:241-263 | `__runGroup` leaves every surviving test unchanged |
| EltroRun.RunSubgroupsKeepsSurvivors | lib/eltro.mjs:256-259 | the subgroups loop leaves every surviving test unchanged |
| EltroRun.RunRootsKeepsSurvivors | lib/eltro.mjs:278-282 | the root loop leaves every surviving test unchanged |
| EltroRun.ChildToward | lib/eltro.mjs:256-259 | a group reached from `g` through the subgroup filters, other than `g`, lies under a child of `g` that passes the filter and from which it is reached |
| EltroRun.TopOf | lib/eltro.mjs:278-282 | every group lies under a parentless group |
| EltroRun.PathEligibleFromTop | lib/eltro.mjs:278-282 | a path passing every filter starts at a root the root loop picks and continues through subgroups the subgroups loops pick |
| EltroRun.RanWidened | lib/eltro.mjs:241-282 | a test appended by an inner run is among those appended by any run that contains it |
| EltroRun.EligibleTestsListed | lib/eltro.mjs:251-255 | the tests filter picks every listed test that passes it |
| EltroRun.RunsAllKept | lib/eltro.mjs:241-282 | the conditions for a complete run hold again after a run that keeps surviving tests |
| EltroRun.Middle | lib/eltro.mjs:247-255 | the state after the before hook and the tests loop only extends the run state |
| EltroRun.GroupPassesMiddle | lib/eltro.mjs:247-259 | with its before hook surviving, `__runGroup` goes on past its tests loop into the subgroups loop, and what the subgroups loop runs the group runs |
| EltroRun.GroupRunsHooks | lib/eltro.mjs:247-262 | with its before hook surviving, `__runGroup` runs both hooks of its group |
| EltroRun.GroupRunsTests | lib/eltro.mjs:251-255 | with its before hook surviving, `__runGroup` runs every listed test of its group that passes the tests filter |
| EltroRun.RunGroupRunsOwned | lib/eltro.mjs:241-263 | `__runGroup(g)` runs every hook and every eligible test of each group reached from `g` through the subgroup filters |
| EltroRun.RunSubgroupsRunsOwned | lib/eltro.mjs:256-259 | the subgroups loop runs all that a subgroup passing its filter reaches |
| EltroRun.RunRootsRunsOwned | lib/eltro.mjs:278-282 | the root loop runs all that a root passing its filter reaches |
| EltroRun.RunRootsRunsReached | lib/eltro.mjs:241-282 | when every group is listed under its parent or among the roots and no before hook fails, the root loop runs every reached test and hook: the converse of `RunRootsReach` |
| EltroRun.RunRootsRunsExactlyReached | lib/eltro.mjs:241-282 | under those conditions, with parentless roots, a test or hook is run exactly when it is reached |
| EltroRun.ExclusiveGroupTestsRun | lib/eltro.mjs:47-50 | a test that is neither skipped nor exclusive, in an exclusive group with nothing exclusive beneath it and no skipped group above it, is run |
| EltroEngine.ModifyOne | lib/eltro.mjs:64-75 | a test handle call changes only its flags and timeout |
| EltroEngine.Modified | lib/eltro.mjs:64-75 | the same for a chain of handle calls |
| EltroEngine.LastTimeoutIsLast | lib/eltro.mjs:64-70 | `LastTimeout` of a chain of handle calls is the argument of the `timeout(ms)` call no later `timeout` follows, or the default when there is none |
| EltroEngine.ModifiedFlags | lib/eltro.mjs:64-75 | after handle calls the test is skipped iff it was or `skip()` was called, and exclusive iff it was or `only()` was called. Its timeout is `LastTimeout` of the calls, so a later `skip()` or `only()` keeps it, and it is unchanged when no call set one |
| EltroEngine.StructureKept | lib/eltro.mjs:3-15 | changing no link keeps the arenas shaped and linked |
| EltroEngine.ArenaFlags | lib/eltro.mjs:25-45 | setting flags without new exclusive nodes keeps the arena invariant |
| EltroEngine.OnlyMarksLinks | lib/eltro.mjs:34-44 | marking keeps every link |
| EltroEngine.ArenaGroupOnly | lib/eltro.mjs:47-50 | `group.only()` keeps the arena invariant |
| EltroEngine.ArenaTestOnly | lib/eltro.mjs:72-75 | `test.only()` keeps the arena invariant |
| EltroEngine.Attach | lib/eltro.mjs:360-368 | a new group is appended to the arena |
| EltroEngine.AttachEntries | lib/eltro.mjs:360-368 | only the parent's subgroup list changes |
| EltroEngine.AttachShaped | lib/eltro.mjs:360-368 | attaching keeps the arena shaped |
| EltroEngine.AttachLinked | lib/eltro.mjs:360-368 | attaching keeps the arena linked |
| EltroEngine.ArenaAttach | lib/eltro.mjs:360-368 | attaching keeps the whole arena invariant |
| EltroEngine.ListTest | lib/eltro.mjs:410 | listing a test keeps the number of groups |
| EltroEngine.ShapedWider | lib/eltro.mjs:3-15 | a shaped arena stays shaped when the test arena grows |
| EltroEngine.TestShapedLinked | lib/eltro.mjs:409-410 | a new test listed under its group keeps the arenas shaped and linked |
| EltroEngine.ArenaAddTest | lib/eltro.mjs:409-410 | a new, not yet exclusive test keeps the arena invariant |
| EltroEngine.SetHook | lib/eltro.mjs:335 | setting a hook keeps the number of groups |
| EltroEngine.HookLastWriteWins | lib/eltro.mjs:335 | a second `before` (or `after`) replaces the first |
| EltroEngine.HookShapedLinked | lib/eltro.mjs:329-336 | a new hook keeps the arenas shaped and linked |
| EltroEngine.ArenaAddHook | lib/eltro.mjs:329-336 | a new hook keeps the arena invariant |
| EltroEngine.GrewTrans | lib/eltro.mjs:311-427 | registration only adds and sets, and this composes |
| EltroEngine.OpenedKept | lib/eltro.mjs:356-387 | a group stays as `describe` opened it while its body registers more |
| EltroEngine.ErrorsKeepArena | lib/eltro.mjs:208 | storing errors keeps the arena invariant |
| EltroEngine.AttachGrew | lib/eltro.mjs:360-368 | attaching a group only adds |
| EltroEngine.AttachKeepsRoots | lib/eltro.mjs:360-368 | attaching keeps the roots parentless and in range, and a parentless new group may join them |
| EltroEngine.FreshChangeGrew | lib/eltro.mjs:374-385 | changing only the new group only adds |
| EltroEngine.OnlyKeeps | lib/eltro.mjs:47-50 | `group.only()` changes other groups only by setting marks, and the group itself only in its two flags |
| EltroEngine.OnlyMarksGrew | lib/eltro.mjs:34-44 | marking only adds |
| EltroEngine.HandleGrew | lib/eltro.mjs:64-75 | calls on a new test's handle only add |
| EltroEngine.HookGrew | lib/eltro.mjs:335 | setting a hook only adds |
| EltroEngine.ListGrew | lib/eltro.mjs:410 | listing a test only adds |
| EltroEngine.Eltro.constructor | lib/eltro.mjs:77-100 | the engine starts empty, with nothing pending |
| EltroEngine.Eltro.Begin | lib/eltro.mjs:102-112 | a second `begin()` changes nothing. The first resets the settings and the file map, and keeps the groups |
| EltroEngine.Eltro.GroupTimeout | lib/eltro.mjs:17-19 | `group.timeout(t)` sets only that group's timeout |
| EltroEngine.Eltro.GroupSkip | lib/eltro.mjs:21-23 | `group.skip()` sets only that group's skip flag |
| EltroEngine.Eltro.HasOnly | lib/eltro.mjs:25-45 | the `while (g)` loop leaves the groups and the process-wide flag as `EltroTree.HasOnly` says |
| EltroEngine.Eltro.GroupOnly | lib/eltro.mjs:47-50 | `group.only()` sets `isExclusive` and then runs `__hasonly(false)` |
| EltroEngine.Eltro.TestTimeout | lib/eltro.mjs:64-66 | `test.timeout(t)` sets only that test's timeout |
| EltroEngine.Eltro.TestSkip | lib/eltro.mjs:68-70 | `test.skip()` sets only that test's skip flag |
| EltroEngine.Eltro.TestOnly | lib/eltro.mjs:72-75 | `test.only()` sets `isExclusive` and runs `__hasonly(true)` on the test's group |
| EltroEngine.Eltro.ApplyModifier | lib/eltro.mjs:64-75 | one handle call, as `ModifyOne` and `__hasonly` say |
| EltroEngine.Eltro.ApplyModifiers | lib/eltro.mjs:64-75 | handle calls in order leave the test as `Modified` says, and the groups as one `__hasonly` does if any call was `only()` |
| EltroEngine.Eltro.SetFilename | lib/eltro.mjs:311-318 | the first use of a file name adds one root group named `<file>:`, later uses reuse it, and the file's group becomes active |
| EltroEngine.Eltro.ResetFilename | lib/eltro.mjs:320-322 | no group is active afterwards; nothing else changes |
| EltroEngine.Eltro.Timeout | lib/eltro.mjs:389-392 | sets the pending timeout |
| EltroEngine.Eltro.Skip | lib/eltro.mjs:394-397 | sets the pending skip |
| EltroEngine.Eltro.Only | lib/eltro.mjs:399-402 | sets the pending only |
| EltroEngine.Eltro.Hook | lib/eltro.mjs:324-354 | with no active group this is the "outside groups" error and nothing changes. Otherwise the new hook, named `Before: `/`After: ` plus the group name and given the pending or inherited timeout, replaces the group's hook, and the pending timeout is consumed |
| EltroEngine.Eltro.Test | lib/eltro.mjs:404-427 | with no active group this is the "outside groups" error and nothing changes. Otherwise the new test is named after its group and listed there. A pending `only` applies only without a pending `skip` (then it runs `__hasonly(true)`). Its timeout is `temporary.timeout \|\| group.customTimeout`. All pending modifiers are consumed |
| EltroEngine.Eltro.RegisterTest | lib/eltro.mjs:409-426 | the same, once the active group is known |
| EltroEngine.Eltro.AddTest | lib/eltro.mjs:409-410 | a test is appended and listed under its group |
| EltroEngine.Eltro.AttachGroup | lib/eltro.mjs:357-368 | the new group is named after the previous active group (or just `name` at the root), inherits its timeout, is listed under it or among the roots, and becomes active |
| EltroEngine.Eltro.AddRoot | lib/eltro.mjs:312-315 | a new parentless group (a file group, or a top-level `describe` at lib/eltro.mjs:366-367) is appended to the arena and to the roots; nothing else changes |
| EltroEngine.Eltro.AddChild | lib/eltro.mjs:358-365 | a new group named `<parent name> <name>`, with the parent's timeout, is appended to the arena and listed under its parent; the roots stay |
| EltroEngine.Eltro.PendingTimeoutSkip | lib/eltro.mjs:370-377 | the pending timeout and skip go to the new group |
| EltroEngine.Eltro.TakePending | lib/eltro.mjs:370-381 | timeout, skip and only go to the new group in that order, and all are consumed |
| EltroEngine.Eltro.OpenGroup | lib/eltro.mjs:356-381 | the group `describe` opens, with the pending modifiers consumed |
| EltroEngine.Eltro.OpenAndDeclare | lib/eltro.mjs:356-385 | the group `describe` opens stays as opened while the body's calls register more, which only adds |
| EltroEngine.Eltro.Restore | lib/eltro.mjs:386 | the previous active group is active again, unless the body ended with an error |
| EltroEngine.Eltro.Describe | lib/eltro.mjs:356-387 | the opened group stays as opened while the body runs, registration only adds, and the active group is restored unless the body threw the "outside groups" error, after which no group is active |
| EltroEngine.Eltro.TestWithHandle | lib/eltro.mjs:404-427 | a `test(...)` call with handle calls fails exactly when no group is active, and then no group is active. Otherwise the new test is as `test` registers it with the handle calls applied (`Modified`), and the groups are marked as the pending `only` and then a handle `only()` mark them |
| EltroEngine.Eltro.HookWithHandle | lib/eltro.mjs:324-354 | a `before`/`after` call with handle calls fails exactly when no group is active. Otherwise the new hook is as `before`/`after` registers it with the handle calls applied, it replaces the group's hook, and the groups are marked only if a handle call was `only()` |
| EltroEngine.Eltro.Apply | lib/eltro.mjs:311-427 | one registration call only adds; its only error is "outside groups", after which no group is active |
| EltroEngine.Eltro.Declare | lib/eltro.mjs:385 | a body's calls in order only add; the only error is "outside groups", after which no group is active |
| EltroEngine.Eltro.RunTest | lib/eltro.mjs:114-218 | the imperative `__runTest` leaves tests, counters, failures and run order as `EltroRun.RunTest` says, and nothing else changes |
| EltroEngine.Eltro.Settled | lib/eltro.mjs:119-213 | the settled race bumps the counter and stores the error as `EltroRun.RunTest` says |
| EltroEngine.Eltro.RunGroup | lib/eltro.mjs:241-263 | `__runGroup` leaves them as `EltroRun.RunGroup` says |
| EltroEngine.Eltro.RunGroupTests | lib/eltro.mjs:251-255 | the tests loop, as `EltroRun.RunTests` says |
| EltroEngine.Eltro.RunGroupSubgroups | lib/eltro.mjs:256-259 | the subgroups loop, as `EltroRun.RunSubgroups` says |
| EltroEngine.Eltro.Run | lib/eltro.mjs:265-309 | `run()` starts fresh counters and leaves everything as `EltroRun.RunRoots` says for the root loop with the process-wide flag, returning the counters; registration state is untouched. Every test or hook it runs belongs to a group whose whole path passes the skip and exclusivity filters, and a plain test also passes the tests filter. When every group is listed under its parent or among the roots and every before hook is skipped or passes, it runs exactly those |
| CasetteEngine.JoinNested | lib/casette.mjs:230-239 | nesting `describe(a)` in prefix `p` and naming `b` gives `a + ' ' + b` under `p`, except that a top-level `describe('')` leaves no trace |
| CasetteEngine.Adjusted | lib/casette.mjs:17-23 | handle calls change only the flags and timeout |
| CasetteEngine.LastTimeoutIsLast | lib/casette.mjs:17-23 | `LastTimeout` of a chain of handle calls is the argument of the last `timeout(ms)` call, or the default when there is none |
| CasetteEngine.AdjustedFlags | lib/casette.mjs:17-23 | after handle calls the test is skipped iff it was or `skip()` was called, and its timeout is `LastTimeout` of the calls |
| CasetteEngine.NestedTestName | lib/casette.mjs:230-246 | a test declared in `describe(a)` under prefix `p` is named `a + ' ' + b` under `p` |
| CasetteEngine.NamesOf | lib/casette.mjs:242-245 | the names of a list of tests, in order |
| CasetteEngine.ErrorsKeepRegistry | lib/casette.mjs:133 | storing errors keeps the registry invariant |
| CasetteEngine.AdjustKeepsRegistry | lib/casette.mjs:17-23 | handle calls keep the registry invariant |
| CasetteEngine.AddLooseKeepsRegistry | lib/casette.mjs:248-260 | a loose test keeps the registry invariant |
| CasetteEngine.AddToGroupKeepsRegistry | lib/casette.mjs:248-260 | a test added to its file's group keeps the registry invariant |
| CasetteEngine.NewGroupKeepsRegistry | lib/casette.mjs:249-253 | a new file group keeps the registry invariant |
| CasetteEngine.RunOne | lib/casette.mjs:52-143 | one run touches only that test's error and appends it to the run order |
| CasetteEngine.RunOneCounts | lib/casette.mjs:57-143 | each run adds one to exactly one counter: skipped iff the test is skipped, passed iff it settles passing, failed iff it fails. A failure stores the raw rejection value. The test is reported exactly when its error is truthy afterwards |
| CasetteEngine.FalsyRejectionUnreported | lib/casette.mjs:133-143 | a test rejecting with `undefined` counts as failed but is not reported |
| CasetteEngine.StaleErrorReported | lib/casette.mjs:130-143 | a pass with an earlier error still stored is reported again |
| CasetteEngine.RunList | lib/casette.mjs:184-190 | running a list keeps the number of tests |
| CasetteEngine.RunListVisits | lib/casette.mjs:184-190 | a list runs exactly its tests in order and counts each exactly once |
| CasetteEngine.ErrorsOnlyTrans | lib/casette.mjs:133 | "only errors changed" composes |
| CasetteEngine.RunListErrorsOnly | lib/casette.mjs:184-190 | running a list changes only errors |
| CasetteEngine.GroupsInFront | lib/casette.mjs:179-180 | the groups before the last are still in range |
| CasetteEngine.RunFlat | lib/casette.mjs:179-188 | the group loop keeps the number of tests |
| CasetteEngine.RunAll | lib/casette.mjs:179-192 | `run()` keeps the number of tests |
| CasetteEngine.RunFlatVisits | lib/casette.mjs:179-188 | the group loop runs the tests of the groups in `groupsFlat` order, each group's in order, counting each once |
| CasetteEngine.RunFlatErrorsOnly | lib/casette.mjs:179-188 | the group loop changes only errors |
| CasetteEngine.RunAllVisits | lib/casette.mjs:179-192 | `run()` visits the groups' tests and then the loose tests, counts each once, and changes only errors |
| CasetteEngine.Casette.constructor | lib/casette.mjs:25-37 | the engine starts empty |
| CasetteEngine.Casette.Begin | lib/casette.mjs:39-50 | a second `begin()` changes nothing. The first resets the settings, clears the file map and the loose tests, and keeps `groupsFlat` |
| CasetteEngine.Casette.SetFilename | lib/casette.mjs:222-224 | sets only the file name |
| CasetteEngine.Casette.ResetFilename | lib/casette.mjs:226-228 | clears only the file name |
| CasetteEngine.Casette.TestTimeout | lib/casette.mjs:17-19 | `test.timeout(t)` sets only that test's timeout |
| CasetteEngine.Casette.TestSkip | lib/casette.mjs:21-23 | `test.skip()` sets only that test's skip flag |
| CasetteEngine.Casette.ApplyAdjustments | lib/casette.mjs:17-23 | handle calls in order leave the test as `Adjusted` says |
| CasetteEngine.Casette.AddLoose | lib/casette.mjs:256-259 | a test joins the loose list |
| CasetteEngine.Casette.AddToGroup | lib/casette.mjs:256-259 | a test joins a group |
| CasetteEngine.Casette.AddFileGroup | lib/casette.mjs:249-253 | a new group for the current file joins the map and `groupsFlat` |
| CasetteEngine.Casette.Test | lib/casette.mjs:241-261 | the test gets the prefixed name and sets `hasTests`. With no file it joins the loose tests. Otherwise it joins its file's group, which is created and appended to `groupsFlat` on first use only. `test.group` is its container |
| CasetteEngine.Casette.Describe | lib/casette.mjs:230-239 | the body's tests are named under the joined prefix, and the prefix is restored |
| CasetteEngine.Casette.Declare | lib/casette.mjs:230-261 | the tests a script of calls registers carry exactly the names `Names` gives |
| CasetteEngine.Casette.RunTest | lib/casette.mjs:52-143 | the imperative `__runTest` leaves everything as `RunOne` says |
| CasetteEngine.Casette.RunIds | lib/casette.mjs:184-190 | a tests loop, as `RunList` says |
| CasetteEngine.Casette.Run | lib/casette.mjs:166-192 | `run()` leaves everything as `RunAll` says for `groupsFlat` and the loose tests, from fresh counters |

## Left out

- Console and stdout reporting (status lines, ANSI colours, `clearLine`,
  `cursorTo`), the `reporter` field and `process.hrtime`: these are output
  formatting only.
- `printError`, `cli.mjs` and the command-line tests: they live in
  lib/cli.mjs, which is not part of this model.
- Promises, timers and the event loop: a test body's asynchronous behaviour
  is the given sequence of events that follow calling it. A body that keeps
  running after its race settled is not modelled beyond its later events
  being ignored.
- The `Function.toString` check for a callback parameter: the calling
  convention is an input of each body.
- `JSON.stringify` of values other than strings: its text, or the error it
  throws, is an input of the value (`Rendering`). Object identity and
  property order are not modelled.
- Values have no case for a function, a symbol or a BigInt. A function a
  body rejects with is wrapped by lib/eltro.mjs:200 even when it has
  `message` and `stack`, because its `typeof` is `'function'`; the nearest
  value, an `Object` with both properties, is kept as it is.
- Strings are sequences of Unicode scalar values, so a JavaScript string
  holding a lone surrogate cannot be expressed, and the lone-surrogate
  escape of `JSON.stringify` is not modelled.
- Timeouts are naturals: negative, fractional and non-numeric timeouts are
  not modelled. A null timeout and 0 are both 0, since
  `customTimeout || 2000` treats them the same.
- A number a body throws, rejects with or passes to `done` is an integer
  (`Number(n: int)`), negative ones included, rendered by `IntToDecimal`
  with a leading minus sign. Fractions, `NaN` and the infinities are not
  modelled. `NaN` is falsy, so it would take the "empty message" branch of
  lib/eltro.mjs:198-199, like the falsy values that are modelled. JavaScript
  numbers are doubles, and the model does not follow them there: an integer
  above 2^53 is not held exactly, and `JSON.stringify` and `'' + n` write an
  integer of magnitude 1e21 or more in exponent form, while `IntToDecimal`
  writes every digit of the unbounded integer.
- `__timeout` is the constant 2000; nothing in the core changes it.
- EltroEngine.Eltro.Run: its "runs exactly the reached tests" clause is
  conditional on every group being listed under its parent or among the
  roots (`ChildrenListed`, `RootsComplete`). Registration in
  lib/eltro.mjs:356-387 and 311-318 establishes both, but `Eltro.Valid`
  does not carry them, so the model does not prove that they hold.
- EltroRun.RunRootsRunsReached: it assumes every before hook is skipped or
  passes. When one fails, what its group still runs is stated by
  `EltroRun.FailedBeforeStopsGroup` and `EltroRun.HooksBracketGroup`, not by
  a completeness lemma.
- `describeTemporary` is never read or written after construction; it is
  not modelled.
- The body of a `describe` is a script of registration calls (`Decl` in
  eltro, `Call` in casette). Arbitrary code in a body is not modelled, and
  an exception other than the "outside groups" error is not modelled.
- `Casette.run` returns nothing in lib/casette.mjs. The model returns its
  counters so that the result can be stated.
- EltroRun.RunTest, CasetteEngine.RunOne, EltroEngine.Eltro.RunTest and
  CasetteEngine.Casette.RunTest: they settle a body with the corrected
  `then` check (`Settle`), not the one written at lib/eltro.mjs:154 and
  lib/casette.mjs:92. For a direct-style body that returns a value with a
  truthy, non-callable `then`, the code fails the test with the
  `TypeError` it catches (lib/eltro.mjs:179-189, lib/casette.mjs:119-127),
  and these members pass it. `Execution.SettleAsWritten` and
  `Execution.AsWrittenAgreesElsewhere` state the difference; see
  "## Findings".
- EltroEngine.Eltro.TakePending: states that ancestors only gain
  `hasExclusive` marks (`Keeps`), not exactly which ones. The exact marking is
  in the contract of `EltroEngine.Eltro.GroupOnly`, which it calls.
- EltroEngine.Eltro.Describe: states the group it opens, that registration
  only adds, and how the active group is restored. It does not state the
  full tree its body builds, which follows from the contracts of the calls
  in the body.
- EltroEngine.Eltro.Declare: states only that registration adds and the
  error it can return.
- EltroEngine.Eltro.Apply: states only that registration adds and the error
  it can return.
- CasetteEngine.Casette.Declare: states the names and the order of the
  registered tests, not which container each joins. The latter is in the
  contract of `CasetteEngine.Casette.Test`.

## Findings

| source | as written | input that shows it | evidently intended | confidence | as-written member | corrected member |
|---|---|---|---|---|---|---|
| lib/eltro.mjs:154 | `typeof(promise.then === 'function')` is the string `"boolean"`, which is always truthy. So any truthy `then` property is called as a function, and the `TypeError` fails the test. lib/casette.mjs:92 has the same test | a direct-style body returning `{ then: 1 }` | `typeof(promise.then) === 'function'`: a value with a non-callable `then` is a synchronous return, and the test passes | not executed | Execution.NotCallableThenFailsAsWritten | Execution.SynchronousReturnPasses |
