/** The retry loop every repository call goes through. The wrapped operation is an arbitrary stream
    of outcomes, one per invocation; sleeping is the sum of the delays. */
module Retry {

  /** A value, a transient network error, or any other exception. */
  datatype Outcome<T> = Value(value: T) | Transient | Fatal(error: string)

  function Pow2(n: nat): nat {
    if n == 0 then 1 else 2 * Pow2(n - 1)
  }

  function MaxCalls(maxAttempts: int): nat {
    if maxAttempts < 0 then 1 else maxAttempts + 1
  }

  /** Call until an outcome is not transient, or give up on the failure number `maxAttempts + 1`.
      The answer is the last call's; every earlier call was transient; a transient answer means
      the budget is spent; the sleeps form the geometric series `base * (2^(calls-1) - 1)`. */
  method WithSupabaseRetry<T>(operation: nat -> Outcome<T>, maxAttempts: int, backoffBase: real)
    returns (answer: Outcome<T>, calls: nat, slept: real)
    ensures 1 <= calls <= MaxCalls(maxAttempts)
    ensures answer == operation(calls - 1)
    ensures forall k :: 0 <= k < calls - 1 ==> operation(k).Transient?
    ensures answer.Transient? ==> calls == MaxCalls(maxAttempts)
    ensures slept == backoffBase * (Pow2(calls - 1) - 1) as real
  {
    var attempt := 0;
    slept := 0.0;
    while true
      invariant 0 <= attempt < MaxCalls(maxAttempts)
      invariant forall k :: 0 <= k < attempt ==> operation(k).Transient?
      invariant slept == backoffBase * (Pow2(attempt) - 1) as real
      decreases MaxCalls(maxAttempts) - attempt
    {
      answer := operation(attempt);
      if !answer.Transient? {
        return answer, attempt + 1, slept;
      }
      attempt := attempt + 1;
      if attempt > maxAttempts {
        return answer, attempt, slept;
      }
      var delay := backoffBase * Pow2(attempt - 1) as real;
      slept := slept + delay;
      assert Pow2(attempt) == 2 * Pow2(attempt - 1);
    }
  }

  /** What the loop answers, without the loop. */
  function Outcomes<T>(operation: nat -> Outcome<T>, from: nat, budget: nat): Outcome<T>
    decreases budget
  {
    if operation(from).Transient? && budget > 0 then Outcomes(operation, from + 1, budget - 1) else operation(from)
  }

  /** The postcondition of the loop leaves one possible answer. */
  lemma {:induction false} AnswerIsForced<T>(operation: nat -> Outcome<T>, from: nat, budget: nat, calls: nat)
    requires 1 <= calls <= budget + 1
    requires forall k :: from <= k < from + calls - 1 ==> operation(k).Transient?
    requires operation(from + calls - 1).Transient? ==> calls == budget + 1
    ensures operation(from + calls - 1) == Outcomes(operation, from, budget)
    decreases budget
  {
    if calls > 1 {
      AnswerIsForced(operation, from + 1, budget - 1, calls - 1);
    }
  }
}
