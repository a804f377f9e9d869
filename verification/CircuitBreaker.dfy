/** The circuit breaker of one interface: CLOSED, OPEN and HALF_OPEN with exponential backoff. */
module CircuitBreakers {
  datatype State = Closed | Open | HalfOpen

  /** A breaker as a value. `currentTimeout` is a 32-bit unsigned field. */
  datatype Breaker = Breaker(state: State, failCount: nat, nextRetry: int, currentTimeout: nat)

  /** The `send` block of the configuration, within the ranges that its loader accepts. */
  datatype Settings = Settings(failThreshold: nat, openTimeout: nat, backoffMax: nat) {
    predicate Valid() {
      1 <= failThreshold <= 20 && 10 <= openTimeout <= 3600 && 10 <= backoffMax <= 86400
    }
  }

  const UINT32_RANGE := 0x1_0000_0000

  const Initial := Breaker(Closed, 0, 0, 0)

  function Ticked(b: Breaker, now: int): Breaker {
    if b.state == Open && b.nextRetry <= now then b.(state := HalfOpen) else b
  }

  function Succeeded(b: Breaker): Breaker {
    b.(state := Closed, failCount := 0, currentTimeout := 0)
  }

  function Opened(b: Breaker, s: Settings, now: int): Breaker {
    var doubled := b.currentTimeout * 2 % UINT32_RANGE;
    var timeout :=
      if b.currentTimeout == 0 then s.openTimeout
      else if doubled > s.backoffMax then s.backoffMax
      else doubled;
    b.(state := Open, nextRetry := now + timeout, currentTimeout := timeout)
  }

  function TransientFailed(b: Breaker, s: Settings, now: int): Breaker {
    var counted := b.(failCount := b.failCount + 1);
    if counted.failCount >= s.failThreshold || counted.state == HalfOpen then Opened(counted, s, now) else counted
  }

  function PersistentFailed(b: Breaker, s: Settings, now: int): Breaker {
    Opened(b.(failCount := 0), s, now)
  }

  class CircuitBreaker {
    var state: State
    var failCount: nat
    var nextRetry: int
    var currentTimeout: nat

    function Value(): Breaker
      reads this
    {
      Breaker(state, failCount, nextRetry, currentTimeout)
    }

    constructor ()
      ensures Value() == Initial
    {
      state, failCount, nextRetry, currentTimeout := Closed, 0, 0, 0;
    }

    /** Whether sending is allowed: always, but for an open breaker whose time has not come. */
    method AllowSend(now: int) returns (allowed: bool)
      modifies this
      ensures Value() == Ticked(old(Value()), now)
      ensures allowed <==> Value().state != Open
      ensures !allowed ==> old(state) == Open && now < nextRetry
    {
      if state == Closed {
        return true;
      }
      if state == Open {
        var remaining := nextRetry - now;
        if remaining > 0 {
          return false;
        }
        state := HalfOpen;
      }
      return true;
    }

    method MaybeRecover(now: int)
      modifies this
      ensures Value() == Ticked(old(Value()), now)
    {
      if state == Open && now >= nextRetry {
        state := HalfOpen;
      }
    }

    method OnSuccess()
      modifies this
      ensures Value() == Succeeded(old(Value()))
    {
      state := Closed;
      failCount := 0;
      currentTimeout := 0;
    }

    method OpenCircuit(s: Settings, now: int)
      modifies this
      ensures Value() == Opened(old(Value()), s, now)
    {
      if currentTimeout == 0 {
        currentTimeout := s.openTimeout;
      } else {
        currentTimeout := currentTimeout * 2 % UINT32_RANGE;
        if currentTimeout > s.backoffMax {
          currentTimeout := s.backoffMax;
        }
      }
      state := Open;
      nextRetry := now + currentTimeout;
    }

    method OnTransientFail(s: Settings, now: int)
      modifies this
      ensures Value() == TransientFailed(old(Value()), s, now)
    {
      failCount := failCount + 1;
      if failCount >= s.failThreshold || state == HalfOpen {
        OpenCircuit(s, now);
      }
    }

    method OnPersistentFail(s: Settings, now: int)
      modifies this
      ensures Value() == PersistentFailed(old(Value()), s, now)
    {
      failCount := 0;
      OpenCircuit(s, now);
    }
  }
}
