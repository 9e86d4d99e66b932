/** The call page's bounded retry of a dropped peer connection: a counter of
    attempts, at most one pending timer, and an exponential delay capped at
    ten seconds. The timer itself is a `pending` flag and the delay it was
    armed with; the environment fires it by calling `Fire`. */
module Reconnect {

  const MaxReconnectAttempts: nat := 5
  const BaseDelayMs: nat := 1000
  const MaxDelayMs: nat := 10000

  /** `Math.pow(2, n)`, exact for these exponents. */
  function Pow2(n: nat): (p: nat)
    ensures p >= 1
    ensures n >= 1 ==> p >= 2
  {
    if n == 0 then 1 else 2 * Pow2(n - 1)
  }

  function Min(a: nat, b: nat): nat {
    if a <= b then a else b
  }

  /** The delay before retry number `attempts`: `min(1000 * 2^attempts, 10000)`. */
  function BackoffDelay(attempts: nat): (d: nat)
    ensures d <= MaxDelayMs
    ensures attempts >= 1 ==> d >= 2 * BaseDelayMs
  {
    Min(BaseDelayMs * Pow2(attempts), MaxDelayMs)
  }

  lemma {:induction false} Pow2Monotone(m: nat, n: nat)
    requires m <= n
    ensures Pow2(m) <= Pow2(n)
    decreases n
  {
    if m < n {
      Pow2Monotone(m, n - 1);
    }
  }

  /** A later retry never waits less than an earlier one. */
  lemma BackoffMonotone(m: nat, n: nat)
    requires m <= n
    ensures BackoffDelay(m) <= BackoffDelay(n)
  {
    Pow2Monotone(m, n);
  }

  /** The delays the five permitted retries wait: 2 s, 4 s, 8 s, then the
      10 s cap from the fourth retry on. */
  lemma BackoffSchedule()
    ensures BackoffDelay(1) == 2000 && BackoffDelay(2) == 4000 && BackoffDelay(3) == 8000
    ensures forall n: nat | n >= 4 :: BackoffDelay(n) == MaxDelayMs
  {
    assert Pow2(4) == 16;
    forall n: nat | n >= 4 ensures BackoffDelay(n) == MaxDelayMs {
      Pow2Monotone(4, n);
    }
  }

  /** `RTCPeerConnection.connectionState`. */
  datatype PeerState = New | Connecting | Connected | Disconnected | Failed | Closed

  /** Which branch `scheduleReconnect` took. `GaveUp` is the branch that
      shows "Connection failed. Please refresh." */
  datatype ScheduleResult = AlreadyScheduled | GaveUp | Scheduled(delayMs: nat)

  class Reconnector {
    /** `reconnectAttempts`. */
    var attempts: nat
    /** `reconnectTimeout` holds a timer. */
    var pending: bool
    /** The delay the pending timer was armed with. */
    var delayMs: nat

    ghost predicate Valid()
      reads this
    {
      && attempts <= MaxReconnectAttempts
      && (pending ==> 2 * BaseDelayMs <= delayMs <= MaxDelayMs)
    }

    constructor ()
      ensures Valid() && attempts == 0 && !pending
    {
      attempts := 0;
      pending := false;
      delayMs := 0;
    }

    /** `scheduleReconnect()`: nothing while a retry is pending; give up once
        the attempts are spent; otherwise count one more attempt and arm the
        timer with the backoff delay for the new count. */
    method ScheduleReconnect() returns (result: ScheduleResult)
      requires Valid()
      modifies this
      ensures Valid()
      ensures old(pending) ==>
        result == AlreadyScheduled && attempts == old(attempts) && pending && delayMs == old(delayMs)
      ensures !old(pending) && old(attempts) >= MaxReconnectAttempts ==>
        result == GaveUp && attempts == old(attempts) && !pending && delayMs == old(delayMs)
      ensures !old(pending) && old(attempts) < MaxReconnectAttempts ==>
        && attempts == old(attempts) + 1 && pending
        && delayMs == BackoffDelay(attempts) && result == Scheduled(delayMs)
    {
      if pending {
        return AlreadyScheduled;
      }
      if attempts >= MaxReconnectAttempts {
        return GaveUp;
      }
      attempts := attempts + 1;
      delayMs := BackoffDelay(attempts);
      pending := true;
      result := Scheduled(delayMs);
    }

    /** The timer callback: it clears `reconnectTimeout` before restarting,
        so the next failure can schedule again. */
    method Fire()
      requires Valid() && pending
      modifies this
      ensures Valid() && !pending && attempts == old(attempts) && delayMs == old(delayMs)
    {
      pending := false;
    }

    /** `onconnectionstatechange`: "connected" resets the counter (a pending
        timer stays armed); "disconnected" and "failed" schedule a retry;
        every other state changes nothing. */
    method OnConnectionStateChange(state: PeerState)
      requires Valid()
      modifies this
      ensures Valid()
      ensures state == Connected ==> attempts == 0 && pending == old(pending) && delayMs == old(delayMs)
      ensures state != Connected && state != Disconnected && state != Failed ==>
        attempts == old(attempts) && pending == old(pending) && delayMs == old(delayMs)
      ensures (state == Disconnected || state == Failed) && old(pending) ==>
        attempts == old(attempts) && pending && delayMs == old(delayMs)
      ensures (state == Disconnected || state == Failed) && !old(pending) && old(attempts) >= MaxReconnectAttempts ==>
        attempts == old(attempts) && !pending && delayMs == old(delayMs)
      ensures (state == Disconnected || state == Failed) && !old(pending) && old(attempts) < MaxReconnectAttempts ==>
        attempts == old(attempts) + 1 && pending && delayMs == BackoffDelay(attempts)
    {
      match state {
        case Connected =>
          attempts := 0;
        case Disconnected =>
          var _ := ScheduleReconnect();
        case Failed =>
          var _ := ScheduleReconnect();
        case _ =>
      }
    }
  }
}
