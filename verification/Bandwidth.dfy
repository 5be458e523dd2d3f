/** Quality adaptation to a full send buffer (src/bandwidth.rs). The scale is counted in
    twentieths, of which every constant of the controller is a multiple. */
module Bandwidth {
  import opened Common

  const MIN_SCALE: nat := 6
  const FULL_SCALE: nat := 20
  const HIGH_WATERMARK: nat := 256 * 1024
  const LOW_WATERMARK: nat := 32 * 1024
  const BACKOFF_STEP: nat := 3
  const RECOVER_STEP: nat := 1
  const RECOVER_AFTER: nat := 3

  datatype Control = Control(scale: int, streak: nat) {
    /** The states a controller can be in. */
    predicate Valid() { MIN_SCALE <= scale <= FULL_SCALE && streak < RECOVER_AFTER }
  }

  const START := Control(FULL_SCALE, 0)

  function Sampled(c: Control, buffered: nat): Control {
    if buffered > HIGH_WATERMARK then Control(Max(c.scale - BACKOFF_STEP, MIN_SCALE), 0)
    else if buffered < LOW_WATERMARK then
      if c.streak + 1 >= RECOVER_AFTER then Control(Min(c.scale + RECOVER_STEP, FULL_SCALE), 0)
      else Control(c.scale, c.streak + 1)
    else Control(c.scale, 0)
  }

  class BandwidthController {
    var scale: int
    var clearStreak: nat

    function Abstract(): Control
      reads this
    {
      Control(scale, clearStreak)
    }

    constructor ()
      ensures Abstract() == START
    {
      scale, clearStreak := FULL_SCALE, 0;
    }

    method Sample(bufferedAmount: nat) returns (result: int)
      requires Abstract().Valid()
      modifies this
      ensures Abstract() == Sampled(old(Abstract()), bufferedAmount) && Abstract().Valid() && result == scale
    {
      if bufferedAmount > HIGH_WATERMARK {
        clearStreak := 0;
        scale := Max(scale - BACKOFF_STEP, MIN_SCALE);
      } else if bufferedAmount < LOW_WATERMARK {
        clearStreak := clearStreak + 1;
        if clearStreak >= RECOVER_AFTER {
          clearStreak := 0;
          scale := Min(scale + RECOVER_STEP, FULL_SCALE);
        }
      } else {
        clearStreak := 0;
      }
      result := scale;
    }
  }

  /** The controller after a sequence of samples. */
  function AfterSamples(c: Control, samples: seq<nat>): Control {
    if samples == [] then c else Sampled(AfterSamples(c, samples[..|samples| - 1]), samples[|samples| - 1])
  }

  /** The scale never leaves 0.3 to 1.0, and the streak never reaches the recovery count. */
  lemma {:induction false} StaysInRange(c: Control, samples: seq<nat>)
    requires c.Valid()
    ensures AfterSamples(c, samples).Valid()
  {
    if samples != [] { StaysInRange(c, samples[..|samples| - 1]); }
  }

  /** Progress towards full quality, in thirds of a step. */
  function Potential(c: Control): int { Min(RECOVER_AFTER * c.scale + c.streak, RECOVER_AFTER * FULL_SCALE) }

  lemma PotentialIsMonotone(c: Control, d: Control, x: nat, y: nat)
    requires c.Valid() && d.Valid() && Potential(c) <= Potential(d) && x >= y
    ensures Potential(Sampled(c, x)) <= Potential(Sampled(d, y))
  {}

  /** At least as much buffered at every sample. */
  predicate Busier(a: seq<nat>, b: seq<nat>) {
    |a| == |b| && forall k :: 0 <= k < |a| ==> a[k] >= b[k]
  }

  lemma {:induction false} BusierMeansLessPotential(c: Control, d: Control, a: seq<nat>, b: seq<nat>)
    requires c.Valid() && d.Valid() && Potential(c) <= Potential(d) && Busier(a, b)
    ensures Potential(AfterSamples(c, a)) <= Potential(AfterSamples(d, b))
    decreases |a|
  {
    if a != [] {
      var n := |a| - 1;
      BusierMeansLessPotential(c, d, a[..n], b[..n]);
      StaysInRange(c, a[..n]);
      StaysInRange(d, b[..n]);
      PotentialIsMonotone(AfterSamples(c, a[..n]), AfterSamples(d, b[..n]), a[n], b[n]);
    }
  }

  /** More congestion never means more quality: if one link has at least as much buffered
      as another at every sample, its scale is at most the other's after every sample. */
  lemma MoreCongestionNeverHelps(a: seq<nat>, b: seq<nat>, n: nat)
    requires Busier(a, b) && n <= |a|
    ensures AfterSamples(START, a[..n]).scale <= AfterSamples(START, b[..n]).scale
  {
    BusierMeansLessPotential(START, START, a[..n], b[..n]);
    StaysInRange(START, a[..n]);
    StaysInRange(START, b[..n]);
  }

  // ---------- how fast it moves ----------

  predicate AllCongested(samples: seq<nat>) { forall k :: 0 <= k < |samples| ==> samples[k] > HIGH_WATERMARK }

  predicate AllClear(samples: seq<nat>) { forall k :: 0 <= k < |samples| ==> samples[k] < LOW_WATERMARK }

  lemma {:induction false} CongestedScale(c: Control, samples: seq<nat>)
    requires c.Valid() && AllCongested(samples)
    ensures AfterSamples(c, samples).scale == Max(c.scale - BACKOFF_STEP * |samples|, MIN_SCALE)
  {
    if samples != [] { CongestedScale(c, samples[..|samples| - 1]); }
  }

  lemma {:induction false} ClearPotential(c: Control, samples: seq<nat>)
    requires c.Valid() && AllClear(samples)
    ensures Potential(AfterSamples(c, samples)) == Min(Potential(c) + |samples|, RECOVER_AFTER * FULL_SCALE)
  {
    if samples != [] {
      StaysInRange(c, samples[..|samples| - 1]);
      ClearPotential(c, samples[..|samples| - 1]);
    }
  }

  /** Five congested samples in a row are always enough to reach the floor, and from full
      quality no fewer are. */
  lemma FloorInFive(c: Control, samples: seq<nat>)
    requires c.Valid() && AllCongested(samples)
    ensures |samples| >= 5 ==> AfterSamples(c, samples).scale == MIN_SCALE
    ensures c.scale == FULL_SCALE && |samples| < 5 ==> AfterSamples(c, samples).scale > MIN_SCALE
  {
    CongestedScale(c, samples);
  }

  /** Forty-two clear samples in a row always restore full quality, and from a floor just
      reached no fewer do. */
  lemma FullInFortyTwo(c: Control, samples: seq<nat>)
    requires c.Valid() && AllClear(samples)
    ensures |samples| >= 42 ==> AfterSamples(c, samples).scale == FULL_SCALE
    ensures c == Control(MIN_SCALE, 0) && |samples| < 42 ==> AfterSamples(c, samples).scale < FULL_SCALE
  {
    ClearPotential(c, samples);
    StaysInRange(c, samples);
  }

  // ---------- when it moves ----------

  /** How many samples in a row, up to the last, found fewer than 32 KiB buffered. */
  function ClearRun(samples: seq<nat>): nat {
    if samples == [] || samples[|samples| - 1] >= 32 * 1024 then 0 else ClearRun(samples[..|samples| - 1]) + 1
  }

  lemma {:induction false} StreakIsClearRun(samples: seq<nat>)
    ensures AfterSamples(START, samples).Valid() && AfterSamples(START, samples).streak == ClearRun(samples) % 3
  {
    if samples != [] {
      StreakIsClearRun(samples[..|samples| - 1]);
    }
  }

  /** Every move of the scale, from the samples alone: three twentieths down, to the floor of
      six, at each sample above 256 KiB; one up, to all twenty, at every third sample in a
      row below 32 KiB; none at any other. */
  lemma MovesExactly(samples: seq<nat>)
    requires samples != []
    ensures var last := samples[|samples| - 1];
            var before, after := AfterSamples(START, samples[..|samples| - 1]).scale, AfterSamples(START, samples).scale;
            && 6 <= before <= 20 && 6 <= after <= 20
            && after == (if last > 256 * 1024 then (if before < 9 then 6 else before - 3)
                         else if ClearRun(samples) > 0 && ClearRun(samples) % 3 == 0 && before < 20 then before + 1
                         else before)
  {
    StreakIsClearRun(samples[..|samples| - 1]);
    StreakIsClearRun(samples);
  }

  lemma {:induction false} ClearRunIsSuffix(samples: seq<nat>, k: nat)
    requires k < ClearRun(samples)
    ensures ClearRun(samples) <= |samples| && samples[|samples| - 1 - k] < 32 * 1024
  {
    if k > 0 { ClearRunIsSuffix(samples[..|samples| - 1], k - 1); }
    else if ClearRun(samples[..|samples| - 1]) > 0 { ClearRunIsSuffix(samples[..|samples| - 1], 0); }
  }

  lemma ThreeInARow(samples: seq<nat>)
    requires ClearRun(samples) >= 3
    ensures |samples| >= 3 && forall k :: |samples| - 3 <= k < |samples| ==> samples[k] < 32 * 1024
  {
    ClearRunIsSuffix(samples, 2);
    forall k | |samples| - 3 <= k < |samples| ensures samples[k] < 32 * 1024 { ClearRunIsSuffix(samples, |samples| - 1 - k); }
  }

  lemma AtLeastThree(n: nat)
    requires n > 0 && n % 3 == 0
    ensures n >= 3
  {}

  /** The scale rises only at a sample that ends three clear ones in a row. */
  lemma RisesAfterThreeClear(samples: seq<nat>, more: seq<nat>)
    requires more != [] && samples == more[..|more| - 1]
    requires AfterSamples(START, more).scale > AfterSamples(START, samples).scale
    ensures |more| >= 3 && forall k :: |more| - 3 <= k < |more| ==> more[k] < 32 * 1024
  {
    MovesExactly(more);
    AtLeastThree(ClearRun(more));
    ThreeInARow(more);
  }
}
