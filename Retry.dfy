/** The bounded, fixed-delay retry loop that wraps the screenshot action.

    The action itself (browser session, login, file write) is abstract: it is
    given as the outcome each attempt would have. Everything the loop does
    that can be observed from outside -- its printed lines and its sleeps --
    is recorded as a trace of events, in order.
 */
module Retry {

  /** What one invocation of the action does: it returns, or it raises an
      `Exception` whose message is `cause`. */
  datatype Outcome = Success | Failure(cause: string)

  /** The action as the loop sees it: the outcome of the attempt with 0-based index i. */
  type Action = nat -> Outcome

  /** One observable effect of the loop. */
  datatype Event =
    | Succeeded(attempt: nat)              // "Screenshot taken successfully on attempt n."
    | Failed(attempt: nat, cause: string)  // "Attempt n failed: cause"
    | RetryNotice(delay: real)             // "Retrying in d seconds..."
    | Slept(delay: real)                   // time.sleep(d) returned
    | GaveUp                               // "Max retries reached. Skipping for now."

  /** How one call of the loop ends. `time.sleep` raises for a delay it
      rejects (see `SleepAccepted`); it is called inside the `except` handler,
      so that error is not caught and leaves the loop. */
  datatype Completion = Returned | SleepRaised

  /** CPython's `time.sleep` converts the delay to a signed 64-bit count of
      nanoseconds: it raises `OverflowError` when that count would reach 2^63
      (about 292 years) and `ValueError` when the delay is negative. */
  const NanosPerSecond: real := 1000000000.0
  const SleepLimitNanos: real := 9223372036854775808.0

  predicate SleepAccepted(delay: real)
  {
    0.0 <= delay && delay * NanosPerSecond < SleepLimitNanos
  }

  datatype Run = Run(trace: seq<Event>, completion: Completion)

  /** What the loop does from the attempt with 0-based index `attempt` on. */
  function RetryFrom(action: Action, maxRetries: int, delay: real, attempt: nat): Run
    decreases maxRetries - attempt
  {
    if maxRetries <= attempt then Run([], Returned)
    else match action(attempt)
      case Success => Run([Succeeded(attempt + 1)], Returned)
      case Failure(cause) =>
        if attempt < maxRetries - 1 then
          if !SleepAccepted(delay) then Run([Failed(attempt + 1, cause), RetryNotice(delay)], SleepRaised)
          else
            var rest := RetryFrom(action, maxRetries, delay, attempt + 1);
            Run(Round(attempt + 1, cause, delay) + rest.trace, rest.completion)
        else Run([Failed(attempt + 1, cause), GaveUp], Returned)
  }

  /** The events of a failed attempt `n` that is followed by another one. */
  function Round(n: nat, cause: string, delay: real): seq<Event>
  {
    [Failed(n, cause), RetryNotice(delay), Slept(delay)]
  }

  /** What one call `take_screenshot_with_retry(config, maxRetries, delay)` does. */
  function Retry(action: Action, maxRetries: int, delay: real): Run
  {
    RetryFrom(action, maxRetries, delay, 0)
  }

  /** The loop itself: at most `maxRetries` attempts, stop at the first
      success, announce and sleep `delay` after every failure but the last
      allowed one, announce giving up after that one. */
  method TakeScreenshotWithRetry(action: Action, maxRetries: int, delay: real)
    returns (trace: seq<Event>, completion: Completion)
    ensures Run(trace, completion) == Retry(action, maxRetries, delay)
  {
    ghost var whole := Retry(action, maxRetries, delay);
    trace, completion := [], Returned;
    var attempt: nat := 0;
    while attempt < maxRetries
      invariant trace + RetryFrom(action, maxRetries, delay, attempt).trace == whole.trace
      invariant RetryFrom(action, maxRetries, delay, attempt).completion == whole.completion
      invariant completion == Returned
      decreases maxRetries - attempt
    {
      ghost var before := trace;
      match action(attempt)
      case Success =>
        trace := trace + [Succeeded(attempt + 1)];
        LastStep(action, maxRetries, delay, attempt, before, trace);
        break;
      case Failure(cause) =>
        trace := trace + [Failed(attempt + 1, cause)];
        if attempt < maxRetries - 1 {
          trace := trace + [RetryNotice(delay)];
          if !SleepAccepted(delay) {
            completion := SleepRaised;
            LastStep(action, maxRetries, delay, attempt, before, trace);
            return;
          }
          trace := trace + [Slept(delay)];
          MiddleStep(action, maxRetries, delay, attempt, before, trace);
        } else {
          trace := trace + [GaveUp];
          LastStep(action, maxRetries, delay, attempt, before, trace);
        }
      attempt := attempt + 1;
    }
  }

  /** A failed attempt that is retried extends the finished part of the trace by one round. */
  lemma MiddleStep(action: Action, maxRetries: int, delay: real, i: nat, before: seq<Event>, after: seq<Event>)
    requires i < maxRetries - 1 && action(i).Failure? && SleepAccepted(delay)
    requires after == before + [Failed(i + 1, action(i).cause)] + [RetryNotice(delay)] + [Slept(delay)]
    ensures before + RetryFrom(action, maxRetries, delay, i).trace == after + RetryFrom(action, maxRetries, delay, i + 1).trace
    ensures RetryFrom(action, maxRetries, delay, i).completion == RetryFrom(action, maxRetries, delay, i + 1).completion
  {
    RetryStep(action, maxRetries, delay, i);
  }

  /** The step that ends the loop: a success, the last allowed failure, or a sleep that raises. */
  lemma LastStep(action: Action, maxRetries: int, delay: real, i: nat, before: seq<Event>, after: seq<Event>)
    requires i < maxRetries
    requires !(i < maxRetries - 1 && action(i).Failure? && SleepAccepted(delay))
    requires action(i).Success? ==> after == before + [Succeeded(i + 1)]
    requires action(i).Failure? && i == maxRetries - 1 ==> after == before + [Failed(i + 1, action(i).cause)] + [GaveUp]
    requires action(i).Failure? && i < maxRetries - 1 ==> after == before + [Failed(i + 1, action(i).cause)] + [RetryNotice(delay)]
    ensures before + RetryFrom(action, maxRetries, delay, i).trace == after
    ensures i == maxRetries - 1 && action(i).Failure? ==> RetryFrom(action, maxRetries, delay, i + 1) == Run([], Returned)
  {
  }

  // ---------------------------------------------------------------------------
  // Reading a trace

  /** The attempt numbers the action was invoked for, in order. */
  function Attempts(trace: seq<Event>): seq<nat>
  {
    if trace == [] then []
    else AttemptOf(trace[0]) + Attempts(trace[1..])
  }

  /** The durations slept, in order. */
  function Sleeps(trace: seq<Event>): seq<real>
  {
    if trace == [] then []
    else SleepOf(trace[0]) + Sleeps(trace[1..])
  }

  /** The number of failed attempts. */
  function Failures(trace: seq<Event>): nat
  {
    if trace == [] then 0
    else (if trace[0].Failed? then 1 else 0) + Failures(trace[1..])
  }

  /** The number of "Max retries reached" lines. */
  function GiveUps(trace: seq<Event>): nat
  {
    if trace == [] then 0
    else (if trace[0].GaveUp? then 1 else 0) + GiveUps(trace[1..])
  }

  predicate IsAttempt(e: Event)
  {
    e.Succeeded? || e.Failed?
  }

  function AttemptOf(e: Event): seq<nat>
  {
    if IsAttempt(e) then [e.attempt] else []
  }

  function SleepOf(e: Event): seq<real>
  {
    if e.Slept? then [e.delay] else []
  }

  /** Each reading of a trace distributes over concatenation. */
  lemma {:induction false} AttemptsConcat(a: seq<Event>, b: seq<Event>)
    ensures Attempts(a + b) == Attempts(a) + Attempts(b)
  {
    if a == [] {
      assert a + b == b;
    } else {
      var c := a + b;
      assert c[0] == a[0] && c[1..] == a[1..] + b;
      AttemptsConcat(a[1..], b);
      assert Attempts(c) == AttemptOf(a[0]) + (Attempts(a[1..]) + Attempts(b));
      assert Attempts(a) == AttemptOf(a[0]) + Attempts(a[1..]);
      assert AttemptOf(a[0]) + (Attempts(a[1..]) + Attempts(b)) == (AttemptOf(a[0]) + Attempts(a[1..])) + Attempts(b);
    }
  }

  lemma {:induction false} SleepsConcat(a: seq<Event>, b: seq<Event>)
    ensures Sleeps(a + b) == Sleeps(a) + Sleeps(b)
  {
    if a == [] {
      assert a + b == b;
    } else {
      var c := a + b;
      assert c[0] == a[0] && c[1..] == a[1..] + b;
      SleepsConcat(a[1..], b);
      assert Sleeps(c) == SleepOf(a[0]) + (Sleeps(a[1..]) + Sleeps(b));
      assert Sleeps(a) == SleepOf(a[0]) + Sleeps(a[1..]);
      assert SleepOf(a[0]) + (Sleeps(a[1..]) + Sleeps(b)) == (SleepOf(a[0]) + Sleeps(a[1..])) + Sleeps(b);
    }
  }

  lemma {:induction false} FailuresConcat(a: seq<Event>, b: seq<Event>)
    ensures Failures(a + b) == Failures(a) + Failures(b)
  {
    if a == [] {
      assert a + b == b;
    } else {
      var c := a + b;
      assert c[0] == a[0] && c[1..] == a[1..] + b;
      FailuresConcat(a[1..], b);
      assert Failures(c) == Failures([a[0]]) + Failures(c[1..]) by { SingleReadings(a[0]); }
    }
  }

  lemma {:induction false} GiveUpsConcat(a: seq<Event>, b: seq<Event>)
    ensures GiveUps(a + b) == GiveUps(a) + GiveUps(b)
  {
    if a == [] {
      assert a + b == b;
    } else {
      var c := a + b;
      assert c[0] == a[0] && c[1..] == a[1..] + b;
      GiveUpsConcat(a[1..], b);
      assert GiveUps(c) == GiveUps([a[0]]) + GiveUps(c[1..]) by { SingleReadings(a[0]); }
    }
  }

  /** Every attempt from index `from` on fails. */
  ghost predicate AllFailFrom(action: Action, from: nat, maxRetries: int)
  {
    forall j: nat :: from <= j < maxRetries ==> action(j).Failure?
  }

  // ---------------------------------------------------------------------------
  // Properties of the loop from any attempt on

  lemma SingleReadings(e: Event)
    ensures Attempts([e]) == AttemptOf(e)
    ensures Sleeps([e]) == SleepOf(e)
    ensures Failures([e]) == (if e.Failed? then 1 else 0)
    ensures GiveUps([e]) == (if e.GaveUp? then 1 else 0)
  {
    assert [e][1..] == [];
  }

  lemma PairReadings(e1: Event, e2: Event)
    ensures Attempts([e1, e2]) == Attempts([e1]) + Attempts([e2])
    ensures Sleeps([e1, e2]) == Sleeps([e1]) + Sleeps([e2])
    ensures Failures([e1, e2]) == Failures([e1]) + Failures([e2])
    ensures GiveUps([e1, e2]) == GiveUps([e1]) + GiveUps([e2])
  {
    assert [e1, e2] == [e1] + [e2];
    AttemptsConcat([e1], [e2]);
    SleepsConcat([e1], [e2]);
    FailuresConcat([e1], [e2]);
    GiveUpsConcat([e1], [e2]);
  }

  lemma RoundReadings(n: nat, cause: string, delay: real)
    ensures Attempts(Round(n, cause, delay)) == [n] && Sleeps(Round(n, cause, delay)) == [delay]
    ensures Failures(Round(n, cause, delay)) == 1 && GiveUps(Round(n, cause, delay)) == 0
  {
    var r := Round(n, cause, delay);
    assert r == [Failed(n, cause), RetryNotice(delay)] + [Slept(delay)];
    PairReadings(Failed(n, cause), RetryNotice(delay));
    SingleReadings(Failed(n, cause));
    SingleReadings(RetryNotice(delay));
    SingleReadings(Slept(delay));
    AttemptsConcat([Failed(n, cause), RetryNotice(delay)], [Slept(delay)]);
    SleepsConcat([Failed(n, cause), RetryNotice(delay)], [Slept(delay)]);
    FailuresConcat([Failed(n, cause), RetryNotice(delay)], [Slept(delay)]);
    GiveUpsConcat([Failed(n, cause), RetryNotice(delay)], [Slept(delay)]);
  }

  /** One failed attempt that is retried, then the rest of the loop. */
  lemma RetryStep(action: Action, maxRetries: int, delay: real, i: nat)
    requires i < maxRetries - 1 && action(i).Failure? && SleepAccepted(delay)
    ensures var rest := RetryFrom(action, maxRetries, delay, i + 1);
      RetryFrom(action, maxRetries, delay, i) == Run(Round(i + 1, action(i).cause, delay) + rest.trace, rest.completion)
  {
  }

  /** The loop's last step: no attempt left, a success, a final failure, or a sleep that raises. */
  lemma LastStepReadings(action: Action, maxRetries: int, delay: real, i: nat)
    requires !(i < maxRetries - 1 && action(i).Failure? && SleepAccepted(delay))
    ensures var t := RetryFrom(action, maxRetries, delay, i).trace;
      Attempts(t) == (if i < maxRetries then [i + 1] else []) && Sleeps(t) == [] &&
      Failures(t) == (if i < maxRetries && action(i).Failure? then 1 else 0) &&
      GiveUps(t) == (if i == maxRetries - 1 && action(i).Failure? then 1 else 0)
  {
    var t := RetryFrom(action, maxRetries, delay, i).trace;
    if i < maxRetries {
      SingleReadings(t[0]);
      if action(i).Failure? {
        PairReadings(t[0], t[1]);
        SingleReadings(t[1]);
      }
    }
  }

  lemma {:induction false} AttemptsFrom(action: Action, maxRetries: int, delay: real, i: nat)
    ensures var a := Attempts(RetryFrom(action, maxRetries, delay, i).trace);
      (i < maxRetries ==> 1 <= |a|) &&
      (maxRetries <= i ==> a == []) &&
      (maxRetries > i ==> i + |a| <= maxRetries) &&
      forall j :: 0 <= j < |a| ==> a[j] == i + 1 + j
    decreases maxRetries - i
  {
    if i < maxRetries - 1 && action(i).Failure? && SleepAccepted(delay) {
      var rest := RetryFrom(action, maxRetries, delay, i + 1).trace;
      var head := Round(i + 1, action(i).cause, delay);
      RetryStep(action, maxRetries, delay, i);
      RoundReadings(i + 1, action(i).cause, delay);
      AttemptsConcat(head, rest);
      AttemptsFrom(action, maxRetries, delay, i + 1);
    } else {
      LastStepReadings(action, maxRetries, delay, i);
    }
  }

  lemma {:induction false} SleepsFrom(action: Action, maxRetries: int, delay: real, i: nat)
    ensures var r := RetryFrom(action, maxRetries, delay, i);
      (forall k :: 0 <= k < |Sleeps(r.trace)| ==> Sleeps(r.trace)[k] == delay) &&
      |Sleeps(r.trace)| == Failures(r.trace) - GiveUps(r.trace) - (if r.completion == SleepRaised then 1 else 0)
    decreases maxRetries - i
  {
    if i < maxRetries - 1 && action(i).Failure? && SleepAccepted(delay) {
      var rest := RetryFrom(action, maxRetries, delay, i + 1).trace;
      var head := Round(i + 1, action(i).cause, delay);
      RetryStep(action, maxRetries, delay, i);
      RoundReadings(i + 1, action(i).cause, delay);
      SleepsConcat(head, rest);
      FailuresConcat(head, rest);
      GiveUpsConcat(head, rest);
      SleepsFrom(action, maxRetries, delay, i + 1);
    } else {
      LastStepReadings(action, maxRetries, delay, i);
    }
  }

  lemma {:induction false} GaveUpFrom(action: Action, maxRetries: int, delay: real, i: nat)
    ensures var t := RetryFrom(action, maxRetries, delay, i).trace;
      (GiveUps(t) > 0 <==>
        i < maxRetries && AllFailFrom(action, i, maxRetries) && (SleepAccepted(delay) || i == maxRetries - 1)) &&
      (GiveUps(t) > 0 ==> GiveUps(t) == 1 && t[|t| - 1] == GaveUp)
    decreases maxRetries - i
  {
    if i < maxRetries && action(i).Success? {
      assert !AllFailFrom(action, i, maxRetries);
    } else if i < maxRetries - 1 && SleepAccepted(delay) {
      var rest := RetryFrom(action, maxRetries, delay, i + 1).trace;
      var head := Round(i + 1, action(i).cause, delay);
      RetryStep(action, maxRetries, delay, i);
      RoundReadings(i + 1, action(i).cause, delay);
      GiveUpsConcat(head, rest);
      GaveUpFrom(action, maxRetries, delay, i + 1);
      assert AllFailFrom(action, i, maxRetries) <==> AllFailFrom(action, i + 1, maxRetries);
      if GiveUps(rest) > 0 {
        assert (head + rest)[|head + rest| - 1] == rest[|rest| - 1];
      }
    } else {
      LastStepReadings(action, maxRetries, delay, i);
    }
  }

  lemma {:induction false} CompletionFrom(action: Action, maxRetries: int, delay: real, i: nat)
    ensures var r := RetryFrom(action, maxRetries, delay, i);
      (r.completion == SleepRaised <==> !SleepAccepted(delay) && i < maxRetries - 1 && action(i).Failure?) &&
      (r.completion == SleepRaised ==> r.trace == [Failed(i + 1, action(i).cause), RetryNotice(delay)])
    decreases maxRetries - i
  {
    if i < maxRetries - 1 && action(i).Failure? && SleepAccepted(delay) {
      RetryStep(action, maxRetries, delay, i);
      CompletionFrom(action, maxRetries, delay, i + 1);
    }
  }

  /** The run from attempt i on when attempts i .. k-2 fail and attempt k-1 succeeds. */
  lemma {:induction false} SucceedsFrom(action: Action, maxRetries: int, delay: real, i: nat, k: nat)
    requires i < k <= maxRetries
    requires forall j: nat :: i <= j < k - 1 ==> action(j).Failure?
    requires action(k - 1).Success?
    requires SleepAccepted(delay) || k == i + 1
    ensures var t := RetryFrom(action, maxRetries, delay, i).trace;
      |Attempts(t)| == k - i && |Sleeps(t)| == k - 1 - i && GiveUps(t) == 0
    decreases k - i
  {
    if i < k - 1 {
      var rest := RetryFrom(action, maxRetries, delay, i + 1).trace;
      var head := Round(i + 1, action(i).cause, delay);
      RetryStep(action, maxRetries, delay, i);
      RoundReadings(i + 1, action(i).cause, delay);
      AttemptsConcat(head, rest);
      SleepsConcat(head, rest);
      GiveUpsConcat(head, rest);
      SucceedsFrom(action, maxRetries, delay, i + 1, k);
      var t := RetryFrom(action, maxRetries, delay, i).trace;
      assert t == head + rest;
      assert |Attempts(t)| == 1 + |Attempts(rest)|;
      assert |Sleeps(t)| == 1 + |Sleeps(rest)|;
    } else {
      assert action(i).Success?;
      assert RetryFrom(action, maxRetries, delay, i).trace == [Succeeded(k)];
      SingleReadings(Succeeded(k));
    }
  }

  /** The same run ends with the success of attempt k and returns normally. */
  lemma {:induction false} SucceedsFromEnds(action: Action, maxRetries: int, delay: real, i: nat, k: nat)
    requires i < k <= maxRetries
    requires forall j: nat :: i <= j < k - 1 ==> action(j).Failure?
    requires action(k - 1).Success?
    requires SleepAccepted(delay) || k == i + 1
    ensures var r := RetryFrom(action, maxRetries, delay, i);
      r.completion == Returned && r.trace != [] && r.trace[|r.trace| - 1] == Succeeded(k)
    decreases k - i
  {
    if i < k - 1 {
      var rest := RetryFrom(action, maxRetries, delay, i + 1).trace;
      var head := Round(i + 1, action(i).cause, delay);
      RetryStep(action, maxRetries, delay, i);
      SucceedsFromEnds(action, maxRetries, delay, i + 1, k);
      assert (head + rest)[|head + rest| - 1] == rest[|rest| - 1];
    }
  }

  /** The run from attempt i on when every remaining allowed attempt fails. */
  lemma {:induction false} ExhaustsFrom(action: Action, maxRetries: int, delay: real, i: nat)
    requires i < maxRetries
    requires forall j: nat :: i <= j < maxRetries ==> action(j).Failure?
    requires SleepAccepted(delay) || i == maxRetries - 1
    ensures var r := RetryFrom(action, maxRetries, delay, i);
      |Attempts(r.trace)| == maxRetries - i && |Sleeps(r.trace)| == maxRetries - 1 - i &&
      GiveUps(r.trace) == 1 && r.completion == Returned && r.trace != [] && r.trace[|r.trace| - 1] == GaveUp
    decreases maxRetries - i
  {
    if i < maxRetries - 1 {
      var rest := RetryFrom(action, maxRetries, delay, i + 1).trace;
      var head := Round(i + 1, action(i).cause, delay);
      RetryStep(action, maxRetries, delay, i);
      RoundReadings(i + 1, action(i).cause, delay);
      AttemptsConcat(head, rest);
      SleepsConcat(head, rest);
      GiveUpsConcat(head, rest);
      ExhaustsFrom(action, maxRetries, delay, i + 1);
      assert (head + rest)[|head + rest| - 1] == rest[|rest| - 1];
    } else {
      LastStepReadings(action, maxRetries, delay, i);
    }
  }

  /** Every sleep is announced right after a failure and is followed by another attempt. */
  lemma {:induction false} SleepPlacementFrom(action: Action, maxRetries: int, delay: real, i: nat)
    ensures var t := RetryFrom(action, maxRetries, delay, i).trace;
      (i < maxRetries ==> t != [] && IsAttempt(t[0])) &&
      forall p :: 0 <= p < |t| && t[p].Slept? ==>
        2 <= p && t[p - 2].Failed? && t[p - 1] == RetryNotice(delay) && p + 1 < |t| && IsAttempt(t[p + 1])
    decreases maxRetries - i
  {
    if i < maxRetries - 1 && action(i).Failure? && SleepAccepted(delay) {
      var t := RetryFrom(action, maxRetries, delay, i).trace;
      var rest := RetryFrom(action, maxRetries, delay, i + 1).trace;
      RetryStep(action, maxRetries, delay, i);
      SleepPlacementFrom(action, maxRetries, delay, i + 1);
      forall p | 0 <= p < |t| && t[p].Slept?
        ensures 2 <= p && t[p - 2].Failed? && t[p - 1] == RetryNotice(delay) && p + 1 < |t| && IsAttempt(t[p + 1])
      {
        if 3 <= p {
          assert t[p] == rest[p - 3];
        }
      }
    }
  }

  // ---------------------------------------------------------------------------
  // Properties of one call of the loop

  /** The action is invoked for attempts 1, 2, ... in order, at most `maxRetries`
      times, and at least once when `maxRetries` is positive. */
  lemma AttemptsNumbered(action: Action, maxRetries: int, delay: real)
    ensures var a := Attempts(Retry(action, maxRetries, delay).trace);
      (forall j :: 0 <= j < |a| ==> a[j] == j + 1) &&
      |a| <= (if maxRetries < 0 then 0 else maxRetries) &&
      (0 < maxRetries ==> 1 <= |a|)
  {
    AttemptsFrom(action, maxRetries, delay, 0);
  }

  /** With no attempt allowed (`range` of a non-positive number is empty),
      nothing happens at all. */
  lemma NoAttemptsAllowed(action: Action, maxRetries: int, delay: real)
    requires maxRetries <= 0
    ensures Retry(action, maxRetries, delay) == Run([], Returned)
  {
  }

  /** Attempts 1 .. k-1 fail and attempt k succeeds: exactly k invocations,
      k-1 sleeps, no give-up line, and the success is the last event. */
  lemma SucceedsAtAttempt(action: Action, maxRetries: int, delay: real, k: nat)
    requires 1 <= k <= maxRetries
    requires forall j: nat :: j < k - 1 ==> action(j).Failure?
    requires action(k - 1).Success?
    requires SleepAccepted(delay) || k == 1
    ensures var r := Retry(action, maxRetries, delay);
      |Attempts(r.trace)| == k && |Sleeps(r.trace)| == k - 1 && GiveUps(r.trace) == 0 &&
      r.completion == Returned && r.trace[|r.trace| - 1] == Succeeded(k)
  {
    SucceedsFrom(action, maxRetries, delay, 0, k);
    SucceedsFromEnds(action, maxRetries, delay, 0, k);
  }

  /** Every allowed attempt fails: exactly `maxRetries` invocations,
      `maxRetries - 1` sleeps, one give-up line as the last event, and the
      call returns normally. */
  lemma ExhaustsAllAttempts(action: Action, maxRetries: int, delay: real)
    requires 1 <= maxRetries
    requires forall j: nat :: j < maxRetries ==> action(j).Failure?
    requires SleepAccepted(delay) || maxRetries == 1
    ensures var r := Retry(action, maxRetries, delay);
      |Attempts(r.trace)| == maxRetries && |Sleeps(r.trace)| == maxRetries - 1 &&
      GiveUps(r.trace) == 1 && r.completion == Returned && r.trace[|r.trace| - 1] == GaveUp
  {
    ExhaustsFrom(action, maxRetries, delay, 0);
  }

  /** The give-up line appears exactly when every allowed attempt fails (and
      the loop got that far), and then it appears once, as the last event. */
  lemma GaveUpExactlyWhenAllFail(action: Action, maxRetries: int, delay: real)
    ensures var t := Retry(action, maxRetries, delay).trace;
      (GiveUps(t) > 0 <==>
        1 <= maxRetries && AllFailFrom(action, 0, maxRetries) && (SleepAccepted(delay) || maxRetries == 1)) &&
      (GiveUps(t) > 0 ==> GiveUps(t) == 1 && t[|t| - 1] == GaveUp)
  {
    GaveUpFrom(action, maxRetries, delay, 0);
  }

  /** Every sleep lasts exactly `delay`, and there is one sleep per failed
      attempt except the final allowed one (and except the one whose sleep
      raised). */
  lemma FixedDelayPerFailure(action: Action, maxRetries: int, delay: real)
    ensures var r := Retry(action, maxRetries, delay);
      (forall k :: 0 <= k < |Sleeps(r.trace)| ==> Sleeps(r.trace)[k] == delay) &&
      |Sleeps(r.trace)| == Failures(r.trace) - GiveUps(r.trace) - (if r.completion == SleepRaised then 1 else 0)
  {
    SleepsFrom(action, maxRetries, delay, 0);
  }

  /** No failure of the action escapes: the call returns normally unless
      `time.sleep` rejects the delay, a second attempt is allowed and the
      first one fails, in which case `time.sleep` raises right after the
      retry notice. */
  lemma ReturnsNormally(action: Action, maxRetries: int, delay: real)
    ensures var r := Retry(action, maxRetries, delay);
      (r.completion == SleepRaised <==> !SleepAccepted(delay) && 2 <= maxRetries && action(0).Failure?) &&
      (r.completion == SleepRaised ==> r.trace == [Failed(1, action(0).cause), RetryNotice(delay)])
  {
    CompletionFrom(action, maxRetries, delay, 0);
  }

  /** A sleep never ends the trace: each one follows a failure and its retry
      notice and is followed by the next attempt. */
  lemma SleepOnlyBetweenAttempts(action: Action, maxRetries: int, delay: real)
    ensures var t := Retry(action, maxRetries, delay).trace;
      forall p :: 0 <= p < |t| && t[p].Slept? ==>
        2 <= p && t[p - 2].Failed? && t[p - 1] == RetryNotice(delay) && p + 1 < |t| && IsAttempt(t[p + 1])
  {
    SleepPlacementFrom(action, maxRetries, delay, 0);
  }

  /** A delay of 10^10 seconds overflows `time.sleep`: with two attempts
      allowed and a failed first one, the call raises after the retry notice
      instead of making the second attempt. */
  lemma HugeDelayRaises(action: Action)
    requires action(0).Failure?
    ensures Retry(action, 2, 10000000000.0) ==
      Run([Failed(1, action(0).cause), RetryNotice(10000000000.0)], SleepRaised)
  {
    assert !SleepAccepted(10000000000.0);
  }

  /** A delay of 0 is accepted: the retry happens immediately. */
  lemma ZeroDelayRetries(action: Action)
    requires action(0).Failure? && action(1).Success?
    ensures Retry(action, 2, 0.0) ==
      Run([Failed(1, action(0).cause), RetryNotice(0.0), Slept(0.0), Succeeded(2)], Returned)
  {
    assert SleepAccepted(0.0);
    assert RetryFrom(action, 2, 0.0, 1) == Run([Succeeded(2)], Returned);
  }
}
