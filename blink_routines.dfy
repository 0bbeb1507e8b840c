/// The blink waveforms of src/BlinkRoutines.h: every routine turns the
/// milliseconds elapsed since the last synchronisation into a PWM level for an
/// active-low LED, and reports its period ("duration").
module BlinkRoutines {

  datatype Option<T> = None | Some(value: T)

  /** PWM level that switches the active-low LED fully off. */
  const LedMin: int := 1024
  /** PWM level that switches the active-low LED fully on. */
  const LedMax: int := 0

  /** The period the base class gives a routine that sets none of its own. */
  const BaseDuration: int := 1000

  /** The closed set of routines. The double blink keeps its thresholds
      cumulatively, as the class does: `offState` and `onState2` are the ends of
      the second and third intervals, measured from the start of the period.
      The fade and the "semi" double blink are kept only by their period. */
  datatype Routine =
    | SingleBlink(onState: int, offState: int, duration: int)
    | DoubleBlink(onState: int, offState: int, onState2: int, duration: int)
    | Fade(duration: int)
    | DoubleBlinkSemi(duration: int)

  /** `getDuration`: the period of a routine. */
  function GetDuration(r: Routine): (d: int)
    ensures d == r.duration
  {
    r.duration
  }

  /** The default `SingleBlinkRoutine()`: 80 ms on, 900 ms off. */
  function DefaultSingleBlink(): (r: Routine)
    ensures r == SingleBlinkOf(80, 900)
  {
    SingleBlink(80, 900, 80 + 900)
  }

  /** `SingleBlinkRoutine(on, off)`: the period is the sum of both phases. */
  function SingleBlinkOf(onTime: int, offTime: int): (r: Routine)
    ensures r.SingleBlink? && r.onState == onTime && r.offState == offTime
    ensures r.duration == onTime + offTime
  {
    SingleBlink(onTime, offTime, onTime + offTime)
  }

  /** The default `DoubleBlinkRoutine()`: field initialisers 80/160/240 and a
      period of 1000 ms. */
  function DefaultDoubleBlink(): (r: Routine)
    ensures r == DoubleBlinkOf(80, 80, 80, 760)
  {
    DoubleBlink(80, 160, 240, 1000)
  }

  /** `DoubleBlinkRoutine(on, off, on2, off2)`: stores the running sums of the
      four interval lengths. */
  function DoubleBlinkOf(onTime: int, offTime: int, onTime2: int, offTime2: int): (r: Routine)
    ensures r.DoubleBlink?
    ensures r.onState == onTime
    ensures r.offState - r.onState == offTime
    ensures r.onState2 - r.offState == onTime2
    ensures r.duration - r.onState2 == offTime2
  {
    DoubleBlink(onTime, onTime + offTime, onTime + offTime + onTime2,
                onTime + offTime + onTime2 + offTime2)
  }

  /** `FadeRoutine(duration)`; its level is not modelled. */
  function FadeOf(duration: int): (r: Routine)
    ensures r.Fade? && GetDuration(r) == duration
  {
    Fade(duration)
  }

  function Abs(x: int): int { if x < 0 then -x else x }

  /** The `%` of C++ on `long`: the quotient is truncated toward zero, so the
      remainder has the sign of the dividend. */
  function CRem(t: int, d: int): (r: int)
    requires d != 0
    ensures t == (if t >= 0 then t / d else -((-t) / d)) * d + r
    ensures t >= 0 ==> 0 <= r < Abs(d)
    ensures t < 0 ==> -Abs(d) < r <= 0
  {
    if t >= 0 then t % d
    else
      assert -t == ((-t) / d) * d + (-t) % d;
      -((-t) % d)
  }

  /** `loop(t)` of a routine. Only the single and the double blink are
      rendered; for the others the level is not modelled (None). */
  function Render(r: Routine, t: int): (level: Option<int>)
    requires r.duration != 0
    ensures level.Some? <==> r.SingleBlink? || r.DoubleBlink?
    ensures level.Some? ==> level.value == LedMax || level.value == LedMin
  {
    var phase := CRem(t, r.duration);
    match r
    case SingleBlink(on, _, _) =>
      Some(if phase <= on then LedMax else LedMin)
    case DoubleBlink(on, off, on2, _) =>
      if phase <= on then Some(LedMax)
      else if phase <= off then Some(LedMin)
      else if phase <= on2 then Some(LedMax)
      else Some(LedMin)
    case Fade(_) => None
    case DoubleBlinkSemi(_) => None
  }

  // ---------------------------------------------------------------------
  // Properties of the waveforms
  // ---------------------------------------------------------------------

  /** The single blink is on exactly when the remainder is at most `onState`
      (an inclusive bound) and off otherwise. */
  lemma SingleBlinkLevel(on: int, off: int, d: int, t: int)
    requires d != 0
    ensures Render(SingleBlink(on, off, d), t) == Some(LedMax) <==> CRem(t, d) <= on
    ensures Render(SingleBlink(on, off, d), t) == Some(LedMin) <==> CRem(t, d) > on
  {
  }

  /** The double blink by remainder: on, off, on, off over the three
      cumulative thresholds. */
  lemma DoubleBlinkLevel(on: int, off: int, on2: int, d: int, t: int)
    requires d != 0
    ensures var p, level := CRem(t, d), Render(DoubleBlink(on, off, on2, d), t);
      && (p <= on ==> level == Some(LedMax))
      && (on < p <= off ==> level == Some(LedMin))
      && (off < p <= on2 ==> level == Some(LedMax))
      && (on2 < p && off < p && on < p ==> level == Some(LedMin))
  {
  }

  /** With non-negative interval lengths the stored thresholds are ordered and
      bounded by the period. */
  lemma DoubleBlinkThresholdsOrdered(onTime: int, offTime: int, onTime2: int, offTime2: int)
    requires 0 <= onTime && 0 <= offTime && 0 <= onTime2 && 0 <= offTime2
    ensures var r := DoubleBlinkOf(onTime, offTime, onTime2, offTime2);
      0 <= r.onState <= r.offState <= r.onState2 <= r.duration
  {
  }

  /** The defaults of the constructors and of the base class. */
  lemma Defaults()
    ensures DefaultSingleBlink() == SingleBlinkOf(80, 900)
    ensures GetDuration(DefaultSingleBlink()) == 980
    ensures DefaultDoubleBlink().onState == 80 && DefaultDoubleBlink().offState == 160
    ensures DefaultDoubleBlink().onState2 == 240
    ensures GetDuration(DefaultDoubleBlink()) == BaseDuration
    ensures GetDuration(FadeOf(BaseDuration)) == 1000
  {
  }

  lemma MulAtLeast(d: int, k: int)
    requires d > 0 && k >= 1
    ensures d * k >= d
    decreases k
  {
    if k > 1 {
      MulAtLeast(d, k - 1);
      assert d * k == d * (k - 1) + d;
    }
  }

  /** Euclidean division has a unique quotient and remainder. */
  lemma ModUnique(a: int, d: int, q: int, r: int)
    requires d > 0 && a == d * q + r && 0 <= r < d
    ensures a % d == r
  {
    var q', r' := a / d, a % d;
    assert d * (q - q') == r' - r;
    if q > q' {
      MulAtLeast(d, q - q');
      assert false;
    } else if q < q' {
      MulAtLeast(d, q' - q);
      assert false;
    }
  }

  /** Adding whole periods to a non-negative time leaves its remainder. */
  lemma {:induction false} CRemPeriodic(t: int, d: int, k: nat)
    requires t >= 0 && d > 0
    ensures CRem(t + k * d, d) == CRem(t, d)
  {
    if k > 0 {
      CRemPeriodic(t, d, k - 1);
      assert t + k * d == (t + (k - 1) * d) + d;
      ModUnique(t + k * d, d, (t + (k - 1) * d) / d + 1, (t + (k - 1) * d) % d);
    }
  }

  /** For non-negative phases every routine repeats with its period:
      `loop(t + k * duration) == loop(t)`. */
  lemma RenderPeriodic(r: Routine, t: int, k: nat)
    requires t >= 0 && r.duration > 0
    ensures Render(r, t + k * r.duration) == Render(r, t)
  {
    CRemPeriodic(t, r.duration, k);
  }

  /** A negative phase (a clock reading before the synchronisation instant)
      gives a non-positive C++ remainder, so a blink whose first interval has
      non-negative length shows "on" there rather than the level of the
      wrapped-around phase. */
  lemma NegativePhaseIsOn(r: Routine, t: int)
    requires r.SingleBlink? || r.DoubleBlink?
    requires r.duration != 0 && r.onState >= 0 && t < 0
    ensures Render(r, t) == Some(LedMax)
  {
  }

  /** Number of milliseconds in `[0, n)` during which routine `r` is on. */
  function OnTime(r: Routine, n: nat): nat
    requires r.duration != 0
  {
    if n == 0 then 0
    else OnTime(r, n - 1) + (if Render(r, n - 1) == Some(LedMax) then 1 else 0)
  }

  /** Because the bound is inclusive, a single blink with `0 <= on < duration`
      is on for `on + 1` milliseconds of every period, one more than its
      on-time. */
  lemma {:induction false} SingleBlinkOnTime(on: int, off: int, d: int, n: nat)
    requires 0 <= on < d && n <= d
    ensures OnTime(SingleBlink(on, off, d), n) == if n <= on + 1 then n else on + 1
  {
    if n > 0 {
      SingleBlinkOnTime(on, off, d, n - 1);
      assert CRem(n - 1, d) == n - 1 by { ModUnique(n - 1, d, 0, n - 1); }
    }
  }
}
