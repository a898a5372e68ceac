/**
 Retry decisions and the action and execution state machines, driven together.
 */
module Retry {

  datatype ExecutionState = EPending | ERunning | EWaiting | ESucceeded | EFailed | ECancelled | EDeadLetter

  datatype ActionState = APending | ARunning | ASucceeded | AFailed | ASkipped | ARetryable

  predicate ExecutionMay(from: ExecutionState, next: ExecutionState) {
    match from
    case EPending => next in {ERunning, ECancelled}
    case ERunning => next in {EWaiting, ESucceeded, EFailed, ECancelled, EDeadLetter}
    case EWaiting => next in {ERunning, EFailed, ECancelled, EDeadLetter}
    case ESucceeded => false
    case EFailed => next in {EWaiting, ERunning, EDeadLetter}
    case ECancelled => false
    case EDeadLetter => next == ERunning
  }

  predicate ActionMay(from: ActionState, next: ActionState) {
    match from
    case APending => next in {ARunning, ASkipped}
    case ARunning => next in {ASucceeded, AFailed, ARetryable}
    case ARetryable => next in {ARunning, AFailed}
    case AFailed => next == ARetryable
    case ASucceeded => false
    case ASkipped => false
  }

  /** The states each state is reached from, for both machines. */
  lemma ReachedFrom(execution: ExecutionState, action: ActionState)
    ensures !ExecutionMay(execution, EPending) && !ActionMay(action, APending)
    ensures ExecutionMay(execution, ERunning) <==> execution in {EPending, EWaiting, EFailed, EDeadLetter}
    ensures ExecutionMay(execution, EWaiting) <==> execution in {ERunning, EFailed}
    ensures ExecutionMay(execution, ESucceeded) <==> execution == ERunning
    ensures ExecutionMay(execution, EFailed) <==> execution in {ERunning, EWaiting}
    ensures ExecutionMay(execution, ECancelled) <==> execution in {EPending, ERunning, EWaiting}
    ensures ExecutionMay(execution, EDeadLetter) <==> execution in {ERunning, EWaiting, EFailed}
    ensures ActionMay(action, ARunning) <==> action in {APending, ARetryable}
    ensures ActionMay(action, ASucceeded) <==> action == ARunning
    ensures ActionMay(action, AFailed) <==> action in {ARunning, ARetryable}
    ensures ActionMay(action, ASkipped) <==> action == APending
    ensures ActionMay(action, ARetryable) <==> action in {ARunning, AFailed}
  {
  }

  class Execution {
    var state: ExecutionState

    constructor ()
      ensures state == EPending
    {
      state := EPending;
    }

    /** False is the exception; the state is then as before. */
    method Transition(next: ExecutionState) returns (ok: bool)
      modifies this
      ensures ok == ExecutionMay(old(state), next)
      ensures state == if ok then next else old(state)
    {
      if !ExecutionMay(state, next) {
        return false;
      }
      state := next;
      return true;
    }
  }

  class Action {
    var state: ActionState

    constructor ()
      ensures state == APending
    {
      state := APending;
    }

    method Transition(next: ActionState) returns (ok: bool)
      modifies this
      ensures ok == ActionMay(old(state), next)
      ensures state == if ok then next else old(state)
    {
      if !ActionMay(state, next) {
        return false;
      }
      state := next;
      return true;
    }
  }

  // ----- Decisions

  datatype Decision = Decision(retry: bool, delay: nat, terminal: ExecutionState)

  function Pow2(n: nat): nat {
    if n == 0 then 1 else 2 * Pow2(n - 1)
  }

  function Min(a: nat, b: nat): nat {
    if a < b then a else b
  }

  function Max(a: int, b: int): int {
    if a < b then b else a
  }

  function DecideRetry(retryable: bool, attempt: int, maxAttempts: int, baseDelay: nat, maxDelay: nat): Decision {
    if !retryable || attempt >= maxAttempts then
      Decision(false, 0, if attempt >= maxAttempts then EDeadLetter else EFailed)
    else
      Decision(true, Min(maxDelay, baseDelay * Pow2(if attempt - 1 < 0 then 0 else attempt - 1)), EFailed)
  }

  /** Delay number i is the one decided after attempt i + 1, which was not the last. */
  ghost predicate DelaysOf(delays: seq<nat>, maxAttempts: int, baseDelay: nat, maxDelay: nat) {
    forall i :: 0 <= i < |delays| ==>
      i + 1 < maxAttempts && delays[i] == DecideRetry(true, i + 1, maxAttempts, baseDelay, maxDelay).delay
  }

  // ----- Driving one action

  datatype Outcome = Succeeds | FailsForNow | FailsForGood

  /** The attempt is the last one: it succeeds, it fails for good, or no attempt is left. */
  predicate LastAttempt(outcome: Outcome, attempt: int, maxAttempts: int) {
    !outcome.FailsForNow? || attempt >= maxAttempts
  }

  /**
   Runs the action until it is over, deciding each failure by DecideRetry and waiting out its
   delay; `outcomes` says how each attempt ends.  Every transition it asks for is legal.  An action
   that always fails for now has all its attempts, ends in the dead letter state, and waits no
   longer in total than the doubling delays or the caps add up to.
   */
  method Drive(outcomes: nat -> Outcome, maxAttempts: int, baseDelay: nat, maxDelay: nat, action: Action,
               execution: Execution)
    returns (attempts: nat, delays: seq<nat>)
    requires action.state == APending && execution.state == EPending
    modifies action, execution
    ensures attempts >= 1 && LastAttempt(outcomes(attempts), attempts, maxAttempts)
    ensures forall k :: 1 <= k < attempts ==> !LastAttempt(outcomes(k), k, maxAttempts)
    ensures |delays| == attempts - 1
    ensures DelaysOf(delays, maxAttempts, baseDelay, maxDelay)
    ensures action.state == if outcomes(attempts).Succeeds? then ASucceeded else AFailed
    ensures execution.state == (if outcomes(attempts).Succeeds? then ESucceeded
                                else if attempts >= maxAttempts then EDeadLetter else EFailed)
    ensures (forall k: nat :: outcomes(k) == FailsForNow) ==>
              && attempts == Max(1, maxAttempts)
              && execution.state == EDeadLetter
              && Sum(delays) <= baseDelay * (Pow2(attempts - 1) - 1)
              && Sum(delays) <= (attempts - 1) * maxDelay
              && forall i, j :: 0 <= i <= j < |delays| ==> delays[i] <= delays[j] <= maxDelay
  {
    attempts := 1;
    delays := [];
    var ok := execution.Transition(ERunning);
    assert ok;
    while true
      invariant attempts >= 1 && |delays| == attempts - 1
      invariant execution.state == ERunning
      invariant action.state == if attempts == 1 then APending else ARetryable
      invariant forall k :: 1 <= k < attempts ==> !LastAttempt(outcomes(k), k, maxAttempts)
      invariant DelaysOf(delays, maxAttempts, baseDelay, maxDelay)
      decreases maxAttempts - attempts
    {
      ok := action.Transition(ARunning);
      assert ok;
      if outcomes(attempts).Succeeds? {
        ok := action.Transition(ASucceeded);
        assert ok;
        ok := execution.Transition(ESucceeded);
        assert ok;
        return;
      }
      var decision := DecideRetry(outcomes(attempts).FailsForNow?, attempts, maxAttempts, baseDelay, maxDelay);
      if !decision.retry {
        ok := action.Transition(AFailed);
        assert ok;
        ok := execution.Transition(decision.terminal);
        assert ok;
        if forall k: nat :: outcomes(k) == FailsForNow {
          AlwaysFailingAttempts(outcomes, maxAttempts, attempts);
        }
        DelaysGrowToCap(delays, maxAttempts, baseDelay, maxDelay);
        TotalDelayBound(delays, maxAttempts, baseDelay, maxDelay);
        return;
      }
      ok := action.Transition(ARetryable);
      assert ok;
      ok := execution.Transition(EWaiting);
      assert ok;
      delays := delays + [decision.delay];
      ok := execution.Transition(ERunning);
      assert ok;
      attempts := attempts + 1;
    }
  }

  /** An action that never stops failing for now gets exactly maxAttempts attempts, and at least one. */
  lemma AlwaysFailingAttempts(outcomes: nat -> Outcome, maxAttempts: int, attempts: nat)
    requires forall k: nat :: outcomes(k) == FailsForNow
    requires attempts >= 1 && LastAttempt(outcomes(attempts), attempts, maxAttempts)
    requires forall k :: 1 <= k < attempts ==> !LastAttempt(outcomes(k), k, maxAttempts)
    ensures attempts == if maxAttempts < 1 then 1 else maxAttempts
  {
    if attempts > 1 {
      assert !LastAttempt(outcomes(attempts - 1), attempts - 1, maxAttempts);
    }
  }

  // ----- Delays

  function Sum(delays: seq<nat>): nat {
    if delays == [] then 0 else Sum(delays[..|delays| - 1]) + delays[|delays| - 1]
  }

  lemma {:induction false} Pow2Grows(m: nat, n: nat)
    requires m <= n
    ensures Pow2(m) <= Pow2(n)
  {
    if m < n {
      Pow2Grows(m, n - 1);
    }
  }

  lemma ScaledPow2Grows(baseDelay: nat, m: nat, n: nat)
    requires m <= n
    ensures baseDelay * Pow2(m) <= baseDelay * Pow2(n)
  {
    Pow2Grows(m, n);
    assert baseDelay * Pow2(n) - baseDelay * Pow2(m) == baseDelay * (Pow2(n) - Pow2(m));
  }

  /** Delays never decrease and never pass the cap. */
  lemma DelaysGrowToCap(delays: seq<nat>, maxAttempts: int, baseDelay: nat, maxDelay: nat)
    requires DelaysOf(delays, maxAttempts, baseDelay, maxDelay)
    ensures forall i, j :: 0 <= i <= j < |delays| ==> delays[i] <= delays[j] <= maxDelay
  {
    forall i, j | 0 <= i <= j < |delays| ensures delays[i] <= delays[j] <= maxDelay {
      ScaledPow2Grows(baseDelay, i, j);
      assert delays[i] == Min(maxDelay, baseDelay * Pow2(i)) && delays[j] == Min(maxDelay, baseDelay * Pow2(j));
    }
  }

  /** The first delay is the base, each later one twice the one before, all up to the cap. */
  lemma DelaysDouble(delays: seq<nat>, maxAttempts: int, baseDelay: nat, maxDelay: nat)
    requires DelaysOf(delays, maxAttempts, baseDelay, maxDelay)
    ensures |delays| > 0 ==> delays[0] == if baseDelay <= maxDelay then baseDelay else maxDelay
    ensures forall i :: 0 <= i < |delays| - 1 ==>
              delays[i + 1] == if 2 * delays[i] <= maxDelay then 2 * delays[i] else maxDelay
  {
    forall i | 0 <= i < |delays| - 1
      ensures delays[i + 1] == if 2 * delays[i] <= maxDelay then 2 * delays[i] else maxDelay
    {
      var power, next := Pow2(i), i + 1;
      assert Pow2(next) == 2 * power && baseDelay * (2 * power) == 2 * (baseDelay * power);
      assert delays[i] == Min(maxDelay, baseDelay * power);
      assert delays[next] == Min(maxDelay, baseDelay * Pow2(next));
    }
  }

  lemma OneMore(baseDelay: nat, power: nat, n: nat, maxDelay: nat)
    ensures baseDelay * (power - 1) + baseDelay * power == baseDelay * (2 * power - 1)
    ensures n * maxDelay + maxDelay == (n + 1) * maxDelay
  {
    assert baseDelay * (2 * power - 1) == baseDelay * ((power - 1) + power);
  }

  /** The total wait is bounded by the doubling sum and by the cap for every delay. */
  lemma {:induction false} TotalDelayBound(delays: seq<nat>, maxAttempts: int, baseDelay: nat, maxDelay: nat)
    requires DelaysOf(delays, maxAttempts, baseDelay, maxDelay)
    ensures Sum(delays) <= baseDelay * (Pow2(|delays|) - 1)
    ensures Sum(delays) <= |delays| * maxDelay
  {
    if delays != [] {
      var n := |delays| - 1;
      assert DelaysOf(delays[..n], maxAttempts, baseDelay, maxDelay) by {
        forall i | 0 <= i < n
          ensures i + 1 < maxAttempts && delays[..n][i] ==
                  DecideRetry(true, i + 1, maxAttempts, baseDelay, maxDelay).delay
        {
          assert delays[..n][i] == delays[i];
        }
      }
      TotalDelayBound(delays[..n], maxAttempts, baseDelay, maxDelay);
      assert delays[n] == Min(maxDelay, baseDelay * Pow2(n));
      OneMore(baseDelay, Pow2(n), n, maxDelay);
    }
  }
}
