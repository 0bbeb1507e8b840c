/// The phase-locked LED of src/LED.h: a synchronisation origin (`offset`) and
/// the current routine; the level shown at clock reading `t` is the routine's
/// level at phase `t - offset`.
module LedDriver {
  import opened BlinkRoutines

  /** The LED's state as a value. `routine` is None until the first
      `setRoutine`: the class leaves its routine pointer unset. */
  datatype LedView = LedView(offset: int, routine: Option<Routine>)

  /** Only a routine with a non-zero period can be rendered (`t % 0` is
      undefined in C++). */
  predicate Renderable(v: LedView)
  {
    v.routine.Some? && v.routine.value.duration != 0
  }

  /** `synchronize(t)`: the origin becomes `t`, the routine stays. */
  function Synchronized(v: LedView, t: int): (w: LedView)
    ensures w.offset == t && w.routine == v.routine
  {
    v.(offset := t)
  }

  /** `setRoutine(r, sync)`: select `r`, synchronise to `sync`, and answer
      `r`'s period. */
  function WithRoutine(v: LedView, r: Routine, sync: int): (res: (LedView, int))
    ensures res.0 == Synchronized(LedView(v.offset, Some(r)), sync)
    ensures res.1 == GetDuration(r)
  {
    (LedView(sync, Some(r)), r.duration)
  }

  /** `loop(t)`: the level the LED is driven with at clock reading `t`. */
  function LevelAt(v: LedView, t: int): (level: Option<int>)
    requires Renderable(v)
    ensures level.Some? <==> v.routine.value.SingleBlink? || v.routine.value.DoubleBlink?
    ensures level.Some? ==> level.value == LedMax || level.value == LedMin
  {
    Render(v.routine.value, t - v.offset)
  }

  /** Synchronising twice to the same instant is synchronising once. */
  lemma SynchronizeIdempotent(v: LedView, t: int)
    ensures Synchronized(Synchronized(v, t), t) == Synchronized(v, t)
  {
  }

  /** Right after `setRoutine(r, s)`, the reading `s` shows `r` at phase 0. */
  lemma SetRoutineStartsAtPhaseZero(v: LedView, r: Routine, s: int)
    requires r.duration != 0
    ensures Renderable(WithRoutine(v, r, s).0)
    ensures LevelAt(WithRoutine(v, r, s).0, s) == Render(r, 0)
  {
  }

  /** Two LEDs that were synchronised to the same instant with the same
      routine show the same level at every later reading, whatever their
      earlier origins were. */
  lemma SynchronizedAgree(v: LedView, w: LedView, s: int, t: int)
    requires Renderable(v) && v.routine == w.routine
    ensures LevelAt(Synchronized(v, s), t) == LevelAt(Synchronized(w, s), t)
  {
  }

  /** After a synchronisation at `s`, a reading `k` whole periods later shows
      the same level as the reading at `s` itself. */
  lemma SynchronizedPeriodic(v: LedView, s: int, k: nat)
    requires v.routine.Some? && v.routine.value.duration > 0
    ensures LevelAt(Synchronized(v, s), s + k * v.routine.value.duration)
         == LevelAt(Synchronized(v, s), s)
  {
    RenderPeriodic(v.routine.value, 0, k);
  }

  class Led {
    var offset: int
    var routine: Option<Routine>

    function View(): LedView
      reads this
    {
      LedView(offset, routine)
    }

    /** `LED()`: the origin starts at 0 and no routine is selected yet. */
    constructor ()
      ensures View() == LedView(0, None)
    {
      offset := 0;
      routine := None;
    }

    /** `loop(t)`, answering the level instead of writing it to the pin. */
    method Loop(t: int) returns (level: Option<int>)
      requires Renderable(View())
      ensures level == Render(routine.value, t - offset)
      ensures level.Some? ==> level.value == LedMax || level.value == LedMin
    {
      level := Render(routine.value, t - offset);
    }

    method Synchronize(t: int)
      modifies this
      ensures View() == Synchronized(old(View()), t)
    {
      offset := t;
    }

    method SetRoutine(r: Routine, sync: int) returns (duration: int)
      modifies this
      ensures (View(), duration) == WithRoutine(old(View()), r, sync)
    {
      routine := Some(r);
      Synchronize(sync);
      duration := GetDuration(r);
    }
  }
}
