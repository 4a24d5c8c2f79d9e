/**
 The per-vehicle stall counter and the error descriptions the validator reports.

 A speed sample below 0.1 counts as one more consecutive stalled step; any other
 sample resets the counter. Only that one comparison of the sampled speed matters,
 so speeds are exact reals here.
 */
module Stall {
  import opened Vehicles

  /** A sampled speed below this value counts as stalled. */
  const StallSpeed: real := 0.1

  predicate IsSlow(speed: real)
  {
    speed < StallSpeed
  }

  /** The counter after one speed sample of a vehicle that is present. */
  function NextStallCount(count: nat, speed: real): nat
  {
    if IsSlow(speed) then count + 1 else 0
  }

  /** The counter of a vehicle registered with counter 0 after the given samples, oldest first. */
  function CountAfter(samples: seq<real>): nat
  {
    if samples == [] then 0
    else NextStallCount(CountAfter(samples[..|samples| - 1]), samples[|samples| - 1])
  }

  /**
   The counter always equals the length of the longest run of slow samples at the
   end of the history: every one of the last `CountAfter(samples)` samples is slow,
   and the sample just before them, if there is one, is not.
   */
  lemma {:induction false} CountIsTrailingSlowRun(samples: seq<real>)
    ensures CountAfter(samples) <= |samples|
    ensures forall j :: |samples| - CountAfter(samples) <= j < |samples| ==> IsSlow(samples[j])
    ensures CountAfter(samples) < |samples| ==> !IsSlow(samples[|samples| - 1 - CountAfter(samples)])
  {
    if samples != [] {
      var n := |samples|;
      var init := samples[..n - 1];
      CountIsTrailingSlowRun(init);
      if IsSlow(samples[n - 1]) {
        assert CountAfter(samples) == CountAfter(init) + 1;
        forall j | n - CountAfter(samples) <= j < n
          ensures IsSlow(samples[j])
        {
          if j < n - 1 {
            assert samples[j] == init[j];
          }
        }
        if CountAfter(samples) < n {
          assert samples[n - 1 - CountAfter(samples)] == init[|init| - 1 - CountAfter(init)];
        }
      } else {
        assert CountAfter(samples) == 0;
      }
    }
  }

  /**
   A vehicle trips a stall threshold exactly when its last `threshold` samples were
   all slow: `threshold` slow samples in a row trip it, and a single fast sample
   among them means it has not tripped.
   */
  lemma StallTripsIff(samples: seq<real>, threshold: int)
    ensures CountAfter(samples) >= threshold <==>
              threshold <= |samples| &&
              forall j :: |samples| - threshold <= j < |samples| ==> IsSlow(samples[j])
  {
    CountIsTrailingSlowRun(samples);
  }

  /** Decimal digits of a natural number, most significant first. */
  function DigitsOf(n: nat): string
  {
    if n < 10 then [DigitChar(n)] else DigitsOf(n / 10) + [DigitChar(n % 10)]
  }

  function DigitChar(d: nat): char
    requires d < 10
  {
    "0123456789"[d]
  }

  /** The decimal rendering of an integer, with a leading '-' when negative. */
  function IntToString(i: int): string
  {
    if i < 0 then "-" + DigitsOf(-i) else DigitsOf(i)
  }

  /** The error recorded for the route of a vehicle removed for stalling. */
  function StallMessage(v: VehId, threshold: int): string
  {
    "Vehicle " + v + " stalled for " + IntToString(threshold) + " consecutive steps."
  }

  /** The error recorded for the route of a vehicle still tracked when the step budget runs out. */
  const TimeoutMessage: string := "Vehicle did not complete the route within the simulation time."

  /** A stall error can never be mistaken for a timeout error, whatever the vehicle id. */
  lemma StallMessageIsNotTimeout(v: VehId, threshold: int)
    ensures StallMessage(v, threshold) != TimeoutMessage
  {
    var m := StallMessage(v, threshold);
    var tail := " consecutive steps.";
    assert m == ("Vehicle " + v + " stalled for " + IntToString(threshold)) + tail;
    assert m[|m| - 2] == tail[|tail| - 2] == 's';
    assert TimeoutMessage[|TimeoutMessage| - 2] == 'e';
  }
}
