/**
 * Timeout-bound execution of one test body, shared by both engines
 * (lib/eltro.mjs:119-191 and lib/casette.mjs:57-129).
 *
 * The engine starts a deadline timer, invokes the body and settles on
 * whichever of success, failure or timeout happens first. Real timers and
 * promises are replaced by an explicit record of what the body does: what its
 * synchronous invocation does, then the events that follow, in the order they
 * happen, with the moment the deadline timer fires placed among them. If the
 * timer is not listed it fires after everything listed.
 */
module Execution {
  import opened Values

  /** `this.__timeout`: the deadline used when a test has no timeout of its own. */
  const DefaultTimeout: nat := 2000

  /** `test.customTimeout || this.__timeout`; a falsy timeout (null or 0) is 0 here. */
  function EffectiveTimeout(customTimeout: nat): (ms: nat)
    ensures ms > 0
    ensures customTimeout != 0 ==> ms == customTimeout
  {
    if customTimeout != 0 then customTimeout else DefaultTimeout
  }

  function TimeoutMessage(ms: nat): string {
    "timeout of " + NatToDecimal(ms) + "ms exceeded. Ensure the done() callback is being called in this test."
  }

  function TimeoutError(ms: nat): Value {
    Error(TimeoutMessage(ms), None)
  }

  /** The TypeError `promise.then(...)` throws when `then` is truthy but not a function. */
  const NotCallableThenError: Value := Error("promise.then is not a function", None)

  /**
   * Whether the engine passes a `done` callback (the source decides this by
   * matching the body's source text against a parameter list) or calls the
   * body directly.
   */
  datatype Convention = CallbackStyle | DirectStyle

  /**
   * What the synchronous call does: for a direct body, the call of the body
   * itself; for a callback body, the promise executor that calls it with
   * `done`, whose return value the engine discards. `doneFirst` lists the
   * arguments of the `done` calls a callback body makes before it throws
   * (a direct body has no `done`, and its list plays no part).
   */
  datatype Invocation = Throws(thrown: Value, doneFirst: seq<Value>) | Returns(returned: Value)

  /** What can happen after the invocation. */
  datatype Event =
    | DoneCalled(arg: Value)           // the body calls the `done` it was given
    | ReturnedFulfilled                // the thenable the body returned fulfils
    | ReturnedRejected(reason: Value)  // the thenable the body returned rejects
    | TimerFired                       // the deadline timer fires

  /** A test body: its calling convention, its invocation and the events after it. */
  datatype Body = Body(convention: Convention, invocation: Invocation, later: seq<Event>)

  /** A settlement attempt on the engine's outer promise. */
  datatype Signal =
    | Resolve              // the body succeeded
    | Reject(reason: Value)  // the body failed
    | Expire               // the deadline timer fired

  datatype Outcome = Pass | Fail(reason: Value)

  /**
   * The closure state of one execution: the `finished` flag that the body's
   * handlers set, and the state of the outer promise, which keeps its first
   * settlement.
   */
  datatype Race = Race(finished: bool, settled: Option<Outcome>)

  const Idle: Race := Race(false, None)

  function SignalOutcome(s: Signal, ms: nat): Outcome {
    match s
    case Resolve => Pass
    case Reject(e) => Fail(e)
    case Expire => Fail(TimeoutError(ms))
  }

  /** A promise settles once: later calls of resolve or reject do nothing. */
  function SettleOnce(settled: Option<Outcome>, o: Outcome): Option<Outcome> {
    if settled.Some? then settled else Some(o)
  }

  /**
   * One signal reaching the race. Every handler returns at once when
   * `finished` is set (and the timer is cleared by then); the body's handlers
   * set `finished`, the timer's does not.
   */
  function Step(r: Race, s: Signal, ms: nat): (r': Race)
    ensures r.finished ==> r' == r
    ensures r.settled.Some? ==> r'.settled == r.settled
    ensures !r.finished ==> r'.settled.Some? && r'.finished == (s != Expire)
  {
    if r.finished then r
    else if s == Expire then Race(false, SettleOnce(r.settled, SignalOutcome(s, ms)))
    else Race(true, SettleOnce(r.settled, SignalOutcome(s, ms)))
  }

  function Deliver(r: Race, ss: seq<Signal>, ms: nat): Race
    decreases |ss|
  {
    if ss == [] then r else Deliver(Step(r, ss[0], ms), ss[1..], ms)
  }

  /** Once the outer promise has settled, no later signal changes its outcome. */
  lemma {:induction false} SettledStaysSettled(r: Race, ss: seq<Signal>, ms: nat)
    requires r.settled.Some?
    ensures Deliver(r, ss, ms).settled == r.settled
    decreases |ss|
  {
    if ss != [] {
      SettledStaysSettled(Step(r, ss[0], ms), ss[1..], ms);
    }
  }

  /** The first signal, whichever it is, decides the outcome. */
  lemma FirstSignalWins(ss: seq<Signal>, ms: nat)
    requires ss != []
    ensures Deliver(Idle, ss, ms).settled == Some(SignalOutcome(ss[0], ms))
  {
    SettledStaysSettled(Step(Idle, ss[0], ms), ss[1..], ms);
  }

  /** `done(err)`: `rej(err)` when `err` is truthy, `res()` otherwise. */
  function DoneSignal(arg: Value): Signal {
    if Truthy(arg) then Reject(arg) else Resolve
  }

  /**
   * A throw from a callback body reaches the executor of the inner promise,
   * which rejects with it unless a `done` call made before it has already
   * settled that promise; a throw from a direct body is caught by the engine
   * and rejects at once.
   */
  function ThrowSignals(conv: Convention, e: Value, doneFirst: seq<Value>): (ss: seq<Signal>)
    ensures |ss| > 0
  {
    if conv == CallbackStyle then seq(|doneFirst|, i requires 0 <= i < |doneFirst| => DoneSignal(doneFirst[i])) + [Reject(e)]
    else [Reject(e)]
  }

  /** The signal one event sends, for a body of the given convention. */
  function EventSignal(conv: Convention, e: Event): Option<Signal> {
    match e
    case TimerFired => Some(Expire)
    case DoneCalled(arg) => if conv == CallbackStyle then Some(DoneSignal(arg)) else None
    case ReturnedFulfilled => if conv == DirectStyle then Some(Resolve) else None
    case ReturnedRejected(reason) => if conv == DirectStyle then Some(Reject(reason)) else None
  }

  /** The signals the events send, in order; events the convention ignores send none. */
  function LaterSignals(conv: Convention, es: seq<Event>): seq<Signal>
    decreases |es|
  {
    if es == [] then []
    else
      var rest := LaterSignals(conv, es[1..]);
      match EventSignal(conv, es[0])
      case Some(s) => [s] + rest
      case None => rest
  }

  lemma {:induction false} LaterSignalsAppend(conv: Convention, es: seq<Event>, more: seq<Event>)
    ensures LaterSignals(conv, es + more) == LaterSignals(conv, es) + LaterSignals(conv, more)
    decreases |es|
  {
    if es == [] {
      assert es + more == more;
    } else {
      assert (es + more)[0] == es[0];
      assert (es + more)[1..] == es[1..] + more;
      LaterSignalsAppend(conv, es[1..], more);
    }
  }

  /**
   * `promise && promise.then && typeof(promise.then === 'function')` as the
   * source writes it: the last conjunct is the string "boolean" and always
   * truthy, so any truthy `then` makes the engine call it.
   */
  predicate WaitsOnThenAsWritten(v: Value) {
    Truthy(v) && v.Object? && v.thenProp != NoThen
  }

  /** The evidently intended `typeof(promise.then) === 'function'`. */
  predicate WaitsOnThen(v: Value) {
    Truthy(v) && v.Object? && v.thenProp == ThenCallable
  }

  /**
   * The signals of a body as the source is written: a synchronous throw
   * rejects, after any `done` calls the body made before it; a
   * callback body then waits on its `done` calls; a direct body waits on a
   * returned value with a truthy `then`, where calling a `then` that is not a
   * function throws a TypeError that rejects; any other return resolves at
   * once.
   */
  function SignalsAsWritten(b: Body): seq<Signal> {
    match b.invocation
    case Throws(e, ds) => ThrowSignals(b.convention, e, ds)
    case Returns(v) =>
      if b.convention == CallbackStyle then LaterSignals(CallbackStyle, b.later)
      else if WaitsOnThenAsWritten(v) then
        if v.thenProp == ThenCallable then LaterSignals(DirectStyle, b.later) else [Reject(NotCallableThenError)]
      else [Resolve]
  }

  /** The signals of a body with the `typeof` check corrected; the rest of the model uses this. */
  function Signals(b: Body): seq<Signal> {
    match b.invocation
    case Throws(e, ds) => ThrowSignals(b.convention, e, ds)
    case Returns(v) =>
      if b.convention == CallbackStyle then LaterSignals(CallbackStyle, b.later)
      else if WaitsOnThen(v) then LaterSignals(DirectStyle, b.later)
      else [Resolve]
  }

  /**
   * The outcome of running `b` with deadline `ms`: the timer is started
   * before the body and fires eventually unless something settles first.
   */
  function Settle(b: Body, ms: nat): (o: Outcome)
    ensures o == SignalOutcome((Signals(b) + [Expire])[0], ms)
  {
    var ss := Signals(b) + [Expire];
    FirstSignalWins(ss, ms);
    Deliver(Idle, ss, ms).settled.value
  }

  /** The same, with the `then` check as the source writes it. */
  function SettleAsWritten(b: Body, ms: nat): (o: Outcome)
    ensures o == SignalOutcome((SignalsAsWritten(b) + [Expire])[0], ms)
  {
    var ss := SignalsAsWritten(b) + [Expire];
    FirstSignalWins(ss, ms);
    Deliver(Idle, ss, ms).settled.value
  }

  /** The first event that sends a signal, if any. */
  function FirstSignal(conv: Convention, es: seq<Event>): Option<Signal> {
    var ss := LaterSignals(conv, es);
    if ss == [] then None else Some(ss[0])
  }

  /** A direct body that returns something that is not a thenable passes at once, whatever happens later. */
  lemma SynchronousReturnPasses(b: Body, ms: nat)
    requires b.convention == DirectStyle && b.invocation.Returns? && !WaitsOnThen(b.invocation.returned)
    ensures Settle(b, ms) == Pass
  {
  }

  /**
   * A body whose invocation throws fails with what it threw, unless it is a
   * callback body that called `done` first: then that first call decides,
   * and the throw is ignored.
   */
  lemma SynchronousThrowFails(b: Body, ms: nat)
    requires b.invocation.Throws?
    ensures var ds := b.invocation.doneFirst;
            Settle(b, ms) ==
              if b.convention == CallbackStyle && ds != [] then (if Truthy(ds[0]) then Fail(ds[0]) else Pass)
              else Fail(b.invocation.thrown)
  {
  }

  /**
   * A callback body settles on its first `done` call, if that comes before
   * the deadline: a falsy argument passes, a truthy one fails with it; the
   * value the body returns plays no part.
   */
  lemma {:induction false} FirstDoneCallDecides(b: Body, ms: nat, k: nat)
    requires b.convention == CallbackStyle && b.invocation.Returns?
    requires k < |b.later| && b.later[k].DoneCalled?
    requires forall j :: 0 <= j < k ==> !b.later[j].DoneCalled? && !b.later[j].TimerFired?
    ensures var arg := b.later[k].arg;
            Settle(b, ms) == if Truthy(arg) then Fail(arg) else Pass
  {
    var es := b.later;
    NoSignalsBefore(CallbackStyle, es, k);
    LaterSignalsAppend(CallbackStyle, es[..k], es[k..]);
    assert es == es[..k] + es[k..];
    assert es[k..][0] == es[k];
  }

  /** Events before index `k` that send no signal leave the signal list to the events from `k` on. */
  lemma {:induction false} NoSignalsBefore(conv: Convention, es: seq<Event>, k: nat)
    requires k <= |es|
    requires forall j :: 0 <= j < k ==> EventSignal(conv, es[j]).None?
    ensures LaterSignals(conv, es[..k]) == []
    decreases k
  {
    if k > 0 {
      NoSignalsBefore(conv, es[1..], k - 1);
      assert es[..k][1..] == es[1..][..k - 1];
    }
  }

  /**
   * A callback body that does not call `done` before the deadline fails with
   * the timeout error, whose message names the deadline in milliseconds.
   */
  lemma {:induction false} MissingDoneTimesOut(b: Body, ms: nat, k: nat)
    requires b.convention == CallbackStyle && b.invocation.Returns?
    requires k <= |b.later|
    requires forall j :: 0 <= j < k ==> !b.later[j].DoneCalled? && !b.later[j].TimerFired?
    requires k < |b.later| ==> b.later[k].TimerFired?
    ensures Settle(b, ms) == Fail(TimeoutError(ms))
  {
    var es := b.later;
    NoSignalsBefore(CallbackStyle, es, k);
    LaterSignalsAppend(CallbackStyle, es[..k], es[k..]);
    assert es == es[..k] + es[k..];
    var ss := LaterSignals(CallbackStyle, es);
    assert ss == LaterSignals(CallbackStyle, es[k..]);
    if k < |es| {
      assert es[k..][0] == es[k];
      assert ss[0] == Expire;
    } else {
      assert es[k..] == [];
      assert ss == [];
    }
    assert Signals(b) == ss;
    assert (Signals(b) + [Expire])[0] == Expire;
  }

  /** The position of the first timer event, or the number of events when there is none. */
  function FirstTimerIndex(es: seq<Event>): (k: nat)
    ensures k <= |es| && (k < |es| ==> es[k].TimerFired?)
    ensures forall j :: 0 <= j < k ==> !es[j].TimerFired?
    decreases |es|
  {
    if es == [] || es[0].TimerFired? then 0 else 1 + FirstTimerIndex(es[1..])
  }

  /** The timeout message starts with "timeout of " followed by the deadline in milliseconds. */
  lemma TimeoutMessageNamesDeadline(ms: nat)
    ensures var m := TimeoutMessage(ms); var d := NatToDecimal(ms);
            |m| > 11 + |d| && m[..11] == "timeout of " && m[11..11 + |d|] == d
  {
    var d := NatToDecimal(ms);
    var tail := "ms exceeded. Ensure the done() callback is being called in this test.";
    var m := "timeout of " + d + tail;
    assert TimeoutMessage(ms) == m;
    assert m[..11] == "timeout of ";
    assert m[11..11 + |d|] == d;
  }

  /** Events after the one that settles a body are discarded: appending more never changes the outcome. */
  lemma LaterEventsIgnored(b: Body, more: seq<Event>, ms: nat)
    requires Signals(b) != []
    ensures Settle(b.(later := b.later + more), ms) == Settle(b, ms)
  {
    var b' := b.(later := b.later + more);
    if b.invocation.Returns? && (b.convention == CallbackStyle || WaitsOnThen(b.invocation.returned)) {
      LaterSignalsAppend(b.convention, b.later, more);
      assert Signals(b') == Signals(b) + LaterSignals(b.convention, more);
    } else {
      assert Signals(b') == Signals(b);
    }
    assert (Signals(b') + [Expire])[0] == Signals(b)[0] == (Signals(b) + [Expire])[0];
  }

  /**
   * The discrepancy: as written, a direct body that returns an object whose
   * `then` is truthy but not a function fails with a TypeError, although it
   * returned no thenable.
   */
  lemma NotCallableThenFailsAsWritten(ms: nat)
    ensures var b := Body(DirectStyle, Returns(Object(None, None, ThenNotCallable, Stringified("{\"then\":1}"))), []);
            SettleAsWritten(b, ms) == Fail(NotCallableThenError) && Settle(b, ms) == Pass
  {
  }

  /** The two versions agree on every body except one returning a non-callable `then`. */
  lemma AsWrittenAgreesElsewhere(b: Body, ms: nat)
    requires !(b.convention == DirectStyle && b.invocation.Returns? && b.invocation.returned.Object?
               && b.invocation.returned.thenProp == ThenNotCallable)
    ensures SettleAsWritten(b, ms) == Settle(b, ms)
  {
    assert SignalsAsWritten(b) == Signals(b);
  }

  /** The pass/fail/skip accumulator `stats` both engines increment in place. */
  datatype Counts = Counts(passed: nat, failed: nat, skipped: nat)

  function Total(c: Counts): nat {
    c.passed + c.failed + c.skipped
  }

  class Stats {
    var passed: nat
    var failed: nat
    var skipped: nat

    constructor ()
      ensures passed == 0 && failed == 0 && skipped == 0
    {
      passed, failed, skipped := 0, 0, 0;
    }

    function Value(): Counts
      reads this
    {
      Counts(passed, failed, skipped)
    }
  }
}
