/** waitForVolumeAvailability and waitForVolumeSnapshotReady: poll, back off, poll again. */
module Polling {

  const WAIT_INIT_DELAY: real := 1.0
  const WAIT_FACTOR: real := 1.1
  const WAIT_ACTIVE_STEPS: nat := 5

  /** What one round of the loop meets: the context is done before the request is made, or the request
      fails, or it shows the object in another state, or in the state waited for. */
  datatype Poll = Cancelled | GetFails | NotReady | Ready

  datatype WaitResult = Arrived | TimedOut | Interrupted | GetFailed

  /** Round i finds the object ready after rounds that found it merely not ready. */
  ghost predicate ReadyAt(polls: seq<Poll>, i: int) {
    0 <= i < |polls| && polls[i] == Ready && forall j | 0 <= j < i :: polls[j] == NotReady
  }

  function Power(k: nat): real {
    if k == 0 then 1.0 else WAIT_FACTOR * Power(k - 1)
  }

  /** The time slept after k rounds. */
  function Slept(k: nat): real {
    if k == 0 then 0.0 else Slept(k - 1) + WAIT_INIT_DELAY * Power(k - 1)
  }

  lemma {:induction false} SleptIsGeometric(k: nat)
    ensures Slept(k) == 10.0 * (Power(k) - 1.0)
  {
    if k > 0 {
      SleptIsGeometric(k - 1);
    }
  }

  /** Waits for the object to be ready, looking at most steps times; the polls are what it would see. */
  method WaitUntilReady(polls: seq<Poll>, steps: nat) returns (r: WaitResult, gets: nat, delay: real)
    requires steps <= |polls|
    ensures r == Arrived <==> exists i :: i < steps && ReadyAt(polls, i)
    ensures r == TimedOut <==> forall i | 0 <= i < steps :: polls[i] == NotReady
    ensures gets <= steps && forall i | 0 <= i < gets - 1 :: polls[i] == NotReady
    ensures r == GetFailed ==> gets >= 1 && polls[gets - 1] == GetFails
    ensures r == Interrupted ==> gets < steps && polls[gets] == Cancelled
    ensures r == Arrived ==> gets >= 1 && ReadyAt(polls, gets - 1) && delay == Slept(gets - 1)
    ensures r == TimedOut ==> gets == steps && (steps >= 1 ==> delay == 10.0 * (Power(steps - 1) - 1.0))
    ensures 0.0 <= delay && (steps > 0 ==> delay <= Slept(steps - 1))
  {
    var remaining, duration := steps, WAIT_INIT_DELAY;
    gets, delay := 0, 0.0;
    SleptGrows(0, if steps > 0 then steps - 1 else 0);
    while remaining > 0
      invariant 0 <= remaining <= steps && gets == steps - remaining
      invariant forall j | 0 <= j < gets :: polls[j] == NotReady
      invariant remaining > 0 || steps == 0
      invariant duration == WAIT_INIT_DELAY * Power(gets) && delay == Slept(gets)
      invariant 0.0 <= delay && (steps > 0 ==> delay <= Slept(steps - 1))
    {
      var poll := polls[gets];
      if poll == Cancelled { return Interrupted, gets, delay; }
      gets := gets + 1;
      if poll == GetFails { return GetFailed, gets, delay; }
      if poll == Ready {
        assert ReadyAt(polls, gets - 1);
        return Arrived, gets, delay;
      }
      if remaining == 1 {
        SleptIsGeometric(steps - 1);
        return TimedOut, gets, delay;
      }
      delay := delay + duration;
      duration := duration * WAIT_FACTOR;
      remaining := remaining - 1;
      SleptGrows(gets, steps - 1);
    }
    return TimedOut, gets, delay;
  }

  lemma {:induction false} SleptGrows(k: nat, l: nat)
    requires k <= l
    ensures 0.0 <= Slept(k) <= Slept(l) && Power(l) >= 1.0
    decreases l
  {
    if k < l {
      SleptGrows(k, l - 1);
    } else if k > 0 {
      SleptGrows(k - 1, l - 1);
    }
  }

  /** As configured, a wait that times out has slept 4.641 seconds. */
  lemma ConfiguredDelay()
    ensures Slept(WAIT_ACTIVE_STEPS - 1) == 4.641
  {
    assert Power(1) == 1.1 && Power(2) == 1.21 && Power(3) == 1.331;
  }
}
