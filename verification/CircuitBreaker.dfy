/** The breaker object: four counters and a mode, updated in place. */
module CircuitBreakers {
  import opened Numbers
  import opened BreakerModel

  class CircuitBreaker {
    const config: Config
    var mode: Mode
    var failureCount: int
    var consecutiveSuccesses: int
    var activeHalfOpenTrials: int
    var lastFailureTime: real

    ghost function View(): Breaker
      reads this
    {
      Breaker(mode, failureCount, consecutiveSuccesses, activeHalfOpenTrials, lastFailureTime)
    }

    constructor (config: Config)
      ensures this.config == config && View() == INITIAL
    {
      this.config := config;
      mode, failureCount, consecutiveSuccesses, activeHalfOpenTrials := Closed, 0, 0, 0;
      lastFailureTime := 0.0;
    }

    /** First critical section of `call`: decides whether the callable may run. */
    method BeforeCall(now: real) returns (decision: Admission)
      modifies this
      ensures decision == Decision(config, old(View()), now)
      ensures View() == Admit(config, old(View()), now)
      ensures failureCount == old(failureCount) && lastFailureTime == old(lastFailureTime)
      ensures old(mode) == Closed ==> decision == Admitted && View() == old(View())
      ensures old(mode) == Open && now - lastFailureTime <= config.cooldown ==>
                decision == RejectedOpen(config.cooldown - (now - lastFailureTime)) && View() == old(View())
      ensures old(mode) == Open && now - lastFailureTime > config.cooldown ==>
                && mode == HalfOpen && consecutiveSuccesses == 0
                && (decision == Admitted <==> config.maxTrials > 0)
                && (decision != Admitted ==> decision == RejectedSaturated)
                && activeHalfOpenTrials == if decision == Admitted then 1 else 0
      ensures old(mode) == HalfOpen ==>
                && mode == HalfOpen && consecutiveSuccesses == old(consecutiveSuccesses)
                && (decision == Admitted <==> old(activeHalfOpenTrials) < config.maxTrials)
                && (decision != Admitted ==> decision == RejectedSaturated)
                && activeHalfOpenTrials == old(activeHalfOpenTrials) + if decision == Admitted then 1 else 0
    {
      if mode == Open {
        var elapsed := now - lastFailureTime;
        if elapsed > config.cooldown {
          mode := HalfOpen;
          activeHalfOpenTrials := 0;
          consecutiveSuccesses := 0;
        } else {
          return RejectedOpen(config.cooldown - elapsed);
        }
      }
      if mode == HalfOpen {
        if activeHalfOpenTrials >= config.maxTrials {
          return RejectedSaturated;
        }
        activeHalfOpenTrials := activeHalfOpenTrials + 1;
      }
      return Admitted;
    }

    /** Critical section of the `except Exception` branch. */
    method AfterException(error: ErrorKind, now: real)
      modifies this
      ensures View() == OnException(config, old(View()), IsTransient(error), now)
      ensures error != Other ==>
                mode == old(mode) && failureCount == old(failureCount) && lastFailureTime == old(lastFailureTime) &&
                consecutiveSuccesses == old(consecutiveSuccesses)
      ensures error == Other ==>
                && failureCount == old(failureCount) + 1 && lastFailureTime == now && consecutiveSuccesses == 0
                && mode == if old(mode) == HalfOpen || failureCount >= config.failureThreshold then Open else old(mode)
      ensures old(mode) == HalfOpen && old(activeHalfOpenTrials) > 0 ==>
                activeHalfOpenTrials == old(activeHalfOpenTrials) - 1
      ensures old(mode) != HalfOpen ==> activeHalfOpenTrials == old(activeHalfOpenTrials)
    {
      if mode == HalfOpen {
        activeHalfOpenTrials := Max(0, activeHalfOpenTrials - 1);
      }
      if IsTransient(error) {
        failureCount := failureCount + 1;
        lastFailureTime := now;
        consecutiveSuccesses := 0;
        if mode == HalfOpen || failureCount >= config.failureThreshold {
          mode := Open;
        }
      }
    }

    /** Critical section after the callable returned. */
    method AfterSuccess()
      modifies this
      ensures View() == OnSuccess(config, old(View()))
      ensures lastFailureTime == old(lastFailureTime)
      ensures old(mode) == HalfOpen && old(activeHalfOpenTrials) > 0 ==>
                activeHalfOpenTrials == old(activeHalfOpenTrials) - 1
      ensures old(mode) != HalfOpen ==> activeHalfOpenTrials == old(activeHalfOpenTrials)
      ensures old(mode) == Closed ==>
                mode == Closed && consecutiveSuccesses == old(consecutiveSuccesses) &&
                (old(failureCount) >= 0 ==> failureCount == if old(failureCount) > 0 then old(failureCount) - 1 else 0)
      ensures old(mode) == Open ||
              (old(mode) == HalfOpen && old(consecutiveSuccesses) + 1 >= config.successThreshold) ==>
                mode == Closed && failureCount == consecutiveSuccesses == 0
      ensures old(mode) == HalfOpen && old(consecutiveSuccesses) + 1 < config.successThreshold ==>
                mode == HalfOpen && consecutiveSuccesses == old(consecutiveSuccesses) + 1 &&
                failureCount == old(failureCount)
    {
      if mode == HalfOpen {
        activeHalfOpenTrials := Max(0, activeHalfOpenTrials - 1);
        consecutiveSuccesses := consecutiveSuccesses + 1;
        if consecutiveSuccesses >= config.successThreshold {
          mode := Closed;
          failureCount := 0;
          consecutiveSuccesses := 0;
        }
      } else if mode == Open {
        mode := Closed;
        failureCount := 0;
        consecutiveSuccesses := 0;
      } else {
        if failureCount > 0 {
          failureCount := Max(0, failureCount - 1);
        }
      }
    }

    /** Manual reset: synchronous, takes no lock. */
    method Reset()
      modifies this
      ensures View() == INITIAL
    {
      mode := Closed;
      failureCount := 0;
      consecutiveSuccesses := 0;
      activeHalfOpenTrials := 0;
      lastFailureTime := 0.0;
    }
  }
}
