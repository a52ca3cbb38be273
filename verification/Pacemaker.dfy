/** The pacemaker's tick on values, and its runs for every sequence of slopes. */
module PacemakerSpec {
  datatype State = Learning | Detecting | Ignoring | Pacing

  /** The controller's variables. Counters are in milliseconds and do not overflow. */
  datatype View = View(state: State, time: nat, lri: nat, gri: nat, active: bool,
                       slopeSum: int, slopeCount: nat, threshold: int)

  const LEARN_TIME_MS: nat := 81920
  const GRI_THRESHOLD_MS: nat := 12000
  const LRI_THRESHOLD_MS: nat := 20500
  const SAMPLING_INTERVAL_MS: nat := 10

  const START: View := View(Learning, 0, 0, 0, false, 0, 0, 0)

  function Decide(v: View, slope: int): View {
    var active := slope < v.threshold;
    match v.state
    case Learning =>
      if v.time < LEARN_TIME_MS
      then v.(slopeSum := v.slopeSum + slope, slopeCount := v.slopeCount + 1)
      else v.(threshold := v.slopeSum / 8192, lri := 0, state := Detecting)
    case Detecting =>
      if v.lri <= LRI_THRESHOLD_MS
      then if active then v.(active := true, lri := 0, gri := 0, state := Ignoring) else v.(active := false)
      else v.(active := active, state := Pacing)
    case Ignoring =>
      if v.gri <= GRI_THRESHOLD_MS then v else v.(state := Detecting)
    case Pacing =>
      if active then v.(active := true, lri := 0, gri := 0, state := Ignoring) else v.(active := false)
  }

  function Step(v: View, slope: int): View {
    var w := Decide(v, slope);
    w.(time := w.time + SAMPLING_INTERVAL_MS, lri := w.lri + SAMPLING_INTERVAL_MS, gri := w.gri + SAMPLING_INTERVAL_MS)
  }

  /** The view after the ticks with the given slopes. */
  function After(slopes: seq<int>, n: nat): View
    requires n <= |slopes|
  {
    if n == 0 then START else Step(After(slopes, n - 1), slopes[n - 1])
  }

  function Sum(s: seq<int>, n: nat): int
    requires n <= |s|
  {
    if n == 0 then 0 else Sum(s, n - 1) + s[n - 1]
  }

  // ---- Learning

  /** The tick that ends learning. */
  const LEARNED: nat := 8193

  /** Learning lasts exactly 8192 samples. */
  lemma {:induction false} LearningPhase(slopes: seq<int>, n: nat)
    requires n <= |slopes| && n <= 8192
    ensures var v := After(slopes, n);
            v.state == Learning && v.time == 10 * n && v.slopeSum == Sum(slopes, n) && v.slopeCount == n
  {
    if n > 0 {
      LearningPhase(slopes, n - 1);
    }
  }

  /** It ends once, and the threshold stays the floor of the mean of the first 8192 slopes. */
  lemma {:induction false} LearnedOnce(slopes: seq<int>, n: nat)
    requires LEARNED <= n <= |slopes|
    ensures var v := After(slopes, n);
            && v.state != Learning && v.slopeCount == 8192
            && 8192 * v.threshold <= Sum(slopes, 8192) < 8192 * (v.threshold + 1)
    decreases n
  {
    if n == LEARNED {
      LearningPhase(slopes, 8192);
    } else {
      LearnedOnce(slopes, n - 1);
    }
  }

  // ---- The time since the counters were last reset

  /** The tick after which the pacing interval counter was last zero: the one that ended
      learning or the last one that entered `Ignoring`. */
  function LastReset(slopes: seq<int>, n: nat): nat
    requires n <= |slopes|
  {
    if n <= LEARNED then LEARNED
    else if EntersIgnoring(slopes, n) then n
    else LastReset(slopes, n - 1)
  }

  predicate EntersIgnoring(slopes: seq<int>, n: nat)
    requires n <= |slopes|
  {
    n > 0 && After(slopes, n).state == Ignoring && After(slopes, n - 1).state != Ignoring
  }

  predicate EntersPacing(slopes: seq<int>, n: nat)
    requires n <= |slopes|
  {
    n > 0 && After(slopes, n).state == Pacing && After(slopes, n - 1).state != Pacing
  }

  /** What the state must be `k` ticks after a reset, by its kind. */
  function StateAt(k: nat, learned: bool): State {
    if k <= 1200 && !learned then Ignoring else if k <= 2050 then Detecting else Pacing
  }

  /** The view `v` is `k` ticks after a reset. */
  predicate IsTicksAfter(v: View, k: nat, learned: bool) {
    v.state == StateAt(k, learned) && v.lri == 10 * (k + 1) && (!learned ==> v.gri == v.lri)
  }

  /** Whether a tick `k` ticks after a reset takes the slope as an activation. */
  predicate TakesActivation(v: View, slope: int, k: nat) {
    slope < v.threshold && v.state != Ignoring && k != 2050
  }

  /** One tick after learning: a new reset, or one tick more since the last one. */
  lemma StepAfterReset(v: View, slope: int, k: nat, learned: bool)
    requires IsTicksAfter(v, k, learned)
    ensures TakesActivation(v, slope, k) ==> IsTicksAfter(Step(v, slope), 0, false)
    ensures !TakesActivation(v, slope, k) ==> IsTicksAfter(Step(v, slope), k + 1, learned)
    ensures TakesActivation(v, slope, k) <==> v.state != Ignoring && Step(v, slope).state == Ignoring
  {
  }

  /** After learning, the state is a function of the time since the last reset. */
  lemma {:induction false} StateIsTimeSinceReset(slopes: seq<int>, n: nat)
    requires LEARNED <= n <= |slopes|
    ensures var v, r := After(slopes, n), LastReset(slopes, n);
            && LEARNED <= r <= n
            && IsTicksAfter(v, n - r, r == LEARNED)
            && (forall m | r < m <= n :: !EntersIgnoring(slopes, m))
            && (r > LEARNED ==> EntersIgnoring(slopes, r))
    decreases n
  {
    if n == LEARNED {
      LearningPhase(slopes, 8192);
    } else {
      StateIsTimeSinceReset(slopes, n - 1);
      var r := LastReset(slopes, n - 1);
      StepAfterReset(After(slopes, n - 1), slopes[n - 1], n - 1 - r, r == LEARNED);
    }
  }

  /** Entries to `Ignoring` are at least 1202 ticks apart. */
  lemma IgnoringApart(slopes: seq<int>, m: nat, n: nat)
    requires m < n <= |slopes| && EntersIgnoring(slopes, m) && EntersIgnoring(slopes, n)
    ensures n - m >= 1202
  {
    if m <= 8192 {
      LearningPhase(slopes, m);
    }
    if n <= 8192 {
      LearningPhase(slopes, n);
    }
    if n > LEARNED && m >= LEARNED {
      StateIsTimeSinceReset(slopes, n - 1);
      StateIsTimeSinceReset(slopes, m);
    }
  }

  /** `Pacing` is entered exactly 2051 ticks after a reset, never earlier and never later:
      for more than 20500 ms no activation was taken. */
  lemma PacingOnTime(slopes: seq<int>, n: nat)
    requires LEARNED <= n <= |slopes|
    ensures EntersPacing(slopes, n) <==> n - LastReset(slopes, n) == 2051
    ensures After(slopes, n).state == Pacing <==> n - LastReset(slopes, n) >= 2051
  {
    StateIsTimeSinceReset(slopes, n);
    if n > LEARNED {
      StateIsTimeSinceReset(slopes, n - 1);
    } else {
      LearningPhase(slopes, 8192);
    }
  }

  /** Bounded response: 2051 ticks after any reset the controller paces, unless it took an
      activation in between. */
  lemma PacesOrActs(slopes: seq<int>, r: nat)
    requires LEARNED <= r && r + 2051 <= |slopes| && (r == LEARNED || EntersIgnoring(slopes, r))
    ensures After(slopes, r + 2051).state == Pacing || exists m | r < m <= r + 2051 :: EntersIgnoring(slopes, m)
  {
    var n := r + 2051;
    StateIsTimeSinceReset(slopes, n);
  }

  /** Outside the refractory time and the tick that starts pacing, a slope below the threshold
      is taken as an activation at once, and nothing else is. */
  lemma ActsExactlyOnActivation(slopes: seq<int>, n: nat)
    requires LEARNED < n <= |slopes|
    ensures EntersIgnoring(slopes, n) <==>
            && slopes[n - 1] < After(slopes, n - 1).threshold
            && After(slopes, n - 1).state != Ignoring
            && n - 1 - LastReset(slopes, n - 1) != 2050
  {
    StateIsTimeSinceReset(slopes, n - 1);
    var r := LastReset(slopes, n - 1);
    StepAfterReset(After(slopes, n - 1), slopes[n - 1], n - 1 - r, r == LEARNED);
  }
}

/** The controller with its global variables. */
module Pacemaker {
  import opened PacemakerSpec

  const SIG_BUFF_SIZE: nat := 50

  /** `low` is the smallest slope between neighbouring samples of the buffer. */
  ghost predicate IsLowestSlope(sig: seq<int>, low: int) {
    && (forall i | 1 <= i < |sig| :: low <= sig[i] - sig[i - 1])
    && (exists i | 1 <= i < |sig| :: low == sig[i] - sig[i - 1])
  }

  class Controller {
    /** The samples; the environment writes them between ticks. */
    const sigBuff: array<int>
    var state: State
    var timeCounter: nat
    var lriCounter: nat
    var griCounter: nat
    var activationFlag: int
    var lowestSlopeSum: int
    var lowestSlopeCount: nat
    var detectionThreshold: int
    /** The lowest slopes of the ticks so far. */
    ghost var slopes: seq<int>

    ghost function Current(): View
      reads this
    {
      View(state, timeCounter, lriCounter, griCounter, activationFlag == 1,
           lowestSlopeSum, lowestSlopeCount, detectionThreshold)
    }

    ghost predicate Valid()
      reads this
    {
      && sigBuff.Length == SIG_BUFF_SIZE
      && Current() == After(slopes, |slopes|)
    }

    constructor ()
      ensures Valid() && slopes == [] && fresh(sigBuff)
    {
      sigBuff := new int[SIG_BUFF_SIZE](_ => 0);
      state := Learning;
      timeCounter, lriCounter, griCounter := 0, 0, 0;
      activationFlag, lowestSlopeSum, lowestSlopeCount, detectionThreshold := 0, 0, 0, 0;
      slopes := [];
    }

    method LowestSlope() returns (low: int)
      requires sigBuff.Length == SIG_BUFF_SIZE
      ensures IsLowestSlope(sigBuff[..], low)
    {
      low := sigBuff[1] - sigBuff[0];
      for i := 2 to SIG_BUFF_SIZE
        invariant forall k | 1 <= k < i :: low <= sigBuff[k] - sigBuff[k - 1]
        invariant exists k | 1 <= k < i :: low == sigBuff[k] - sigBuff[k - 1]
      {
        var slope := sigBuff[i] - sigBuff[i - 1];
        if slope < low {
          low := slope;
        }
      }
      var k :| 1 <= k < SIG_BUFF_SIZE && low == sigBuff[k] - sigBuff[k - 1];
      assert low == sigBuff[..][k] - sigBuff[..][k - 1];
    }

    method DetectActivation(lowestSlope: int)
      modifies `activationFlag
      ensures activationFlag == if lowestSlope < detectionThreshold then 1 else 0
    {
      if lowestSlope < detectionThreshold {
        activationFlag := 1;
      } else {
        activationFlag := 0;
      }
    }

    /** The state machine for the pacing decision. */
    method DecidePacing(lowestSlope: int)
      modifies this
      ensures Current() == Decide(old(Current()), lowestSlope) && slopes == old(slopes)
    {
      match state {
        case Learning =>
          if timeCounter < LEARN_TIME_MS {
            lowestSlopeSum := lowestSlopeSum + lowestSlope;
            lowestSlopeCount := lowestSlopeCount + 1;
          } else {
            detectionThreshold := lowestSlopeSum / 8192;
            lriCounter := 0;
            state := Detecting;
          }
        case Detecting =>
          DetectActivation(lowestSlope);
          if lriCounter <= LRI_THRESHOLD_MS {
            if activationFlag != 0 {
              lriCounter := 0;
              griCounter := 0;
              state := Ignoring;
            }
          } else {
            state := Pacing;
          }
        case Ignoring =>
          if griCounter > GRI_THRESHOLD_MS {
            state := Detecting;
          }
        case Pacing =>
          DetectActivation(lowestSlope);
          if activationFlag != 0 {
            lriCounter := 0;
            griCounter := 0;
            state := Ignoring;
          }
      }
    }

    /** One sampling tick; `stimulate` is the pacing output. */
    method Tick() returns (stimulate: bool)
      requires Valid()
      modifies this
      ensures Valid() && sigBuff[..] == old(sigBuff[..])
      ensures |slopes| == |old(slopes)| + 1 && slopes[..|old(slopes)|] == old(slopes)
      ensures IsLowestSlope(sigBuff[..], slopes[|old(slopes)|])
      ensures stimulate <==> state == Pacing
    {
      var lowestSlope := LowestSlope();
      DecidePacing(lowestSlope);
      timeCounter := timeCounter + SAMPLING_INTERVAL_MS;
      lriCounter := lriCounter + SAMPLING_INTERVAL_MS;
      griCounter := griCounter + SAMPLING_INTERVAL_MS;
      SamePrefix(slopes, lowestSlope, |slopes|);
      slopes := slopes + [lowestSlope];
      return state == Pacing;
    }
  }

  lemma {:induction false} SamePrefix(slopes: seq<int>, next: int, n: nat)
    requires n <= |slopes|
    ensures After(slopes + [next], n) == After(slopes, n)
  {
    if n > 0 {
      SamePrefix(slopes, next, n - 1);
    }
  }
}
