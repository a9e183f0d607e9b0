/** The oven's heater: a countdown timer with an on/off power state
    (MicrowaveOven/Heater.cs).

    The source keeps `RemainingTime` in a `double`, but only whole seconds
    ever occur (60, +60, 600, -1 per tick, 0), so it is a `nat` here. The
    one-second `System.Timers.Timer` is reduced to the flag `running`: it
    is set by `Timer.Start()` and cleared by `Timer.Stop()`, and a tick can
    only be delivered while it is set.

    Every operation returns the new state together with the values it
    passed to the `TimerElapsed` event, in the order they were raised.
 */
module Heater {

  datatype PowerState = On | Off

  /** Seconds set by a fresh start and added by each further start. */
  const DefaultHeatingTime: nat := 60

  /** Upper bound on the remaining time a user can set up. */
  const MaximumSetupTime: nat := 600

  datatype State = State(remaining: nat, power: PowerState, running: bool)

  /** The state after an operation and the `TimerElapsed` payloads it raised. */
  datatype Outcome = Outcome(heater: State, elapsed: seq<nat>)

  /** What every heater operation keeps: the remaining time never exceeds
      the maximum, and the timer runs exactly while the power is On. */
  predicate Valid(h: State) {
    && h.remaining <= MaximumSetupTime
    && (h.running <==> h.power == On)
  }

  function Min(a: int, b: int): (m: int) {
    if a <= b then a else b
  }

  /** A new heater: Off, no time left, timer stopped. */
  function Create(): (h: State)
    ensures h.power == Off && h.remaining == 0 && !h.running
    ensures Valid(h)
  {
    State(0, Off, false)
  }

  /** Start button on the heater. While On it adds the default time, clamped
      to the maximum; while Off it resumes the paused time, or starts a fresh
      default period when none is left. */
  function Start(h: State): (r: Outcome)
    ensures r.elapsed == []
    ensures r.heater.power == On
    ensures r.heater.remaining > 0
    ensures h.power == On ==>
      && r.heater.remaining == Min(h.remaining + DefaultHeatingTime, MaximumSetupTime)
      && r.heater.running == h.running
    ensures h.power == Off && h.remaining > 0 ==>
      r.heater.remaining == h.remaining && r.heater.running
    ensures h.power == Off && h.remaining == 0 ==>
      r.heater.remaining == DefaultHeatingTime && r.heater.running
    ensures Valid(h) ==> Valid(r.heater)
  {
    if h.power == On then
      var timeCheck := h.remaining + DefaultHeatingTime;
      if timeCheck > MaximumSetupTime then
        Outcome(h.(remaining := MaximumSetupTime), [])
      else
        Outcome(h.(remaining := h.remaining + DefaultHeatingTime), [])
    else if h.remaining > 0 then
      Outcome(h.(power := On, running := true), [])
    else
      Outcome(h.(remaining := DefaultHeatingTime, power := On, running := true), [])
  }

  /** Pause: power Off and timer stopped, the remaining time is kept. */
  function Stop(h: State): (r: Outcome)
    ensures r.elapsed == []
    ensures r.heater.power == Off && !r.heater.running
    ensures r.heater.remaining == h.remaining
    ensures Valid(h) ==> Valid(r.heater)
  {
    Outcome(h.(power := Off, running := false), [])
  }

  /** Cancel: no time left, power Off, timer stopped, and one final
      `TimerElapsed(0)` for observers. */
  function Reset(h: State): (r: Outcome)
    ensures r.heater == Create()
    ensures r.elapsed == [0]
    ensures Valid(r.heater)
  {
    var cleared := h.(remaining := 0, power := Off, running := false);
    Outcome(cleared, [cleared.remaining])
  }

  /** One elapsed second of the running timer. With time left it counts one
      second down and reports the new value; at zero it resets instead. */
  function Tick(h: State): (r: Outcome)
    requires h.running
    ensures |r.elapsed| == 1 && r.elapsed[0] == r.heater.remaining
    ensures h.remaining > 0 ==>
      && r.heater.remaining + 1 == h.remaining
      && r.heater.power == h.power
      && r.heater.running
    ensures h.remaining == 0 ==> r == Reset(h)
    ensures Valid(h) ==> Valid(r.heater)
  {
    if h.remaining <= 0 then
      Reset(h)
    else
      var next := h.(remaining := h.remaining - 1);
      Outcome(next, [next.remaining])
  }

  /** `n` presses of start with no tick in between. */
  function StartTimes(h: State, n: nat): (r: State)
    decreases n
  {
    if n == 0 then h else StartTimes(Start(h).heater, n - 1)
  }

  /** Once On, each further start adds the default time until the maximum
      is reached, and then holds at the maximum. */
  lemma {:induction false} StartsWhileOn(h: State, n: nat)
    requires h.power == On && h.remaining <= MaximumSetupTime
    ensures StartTimes(h, n).power == On
    ensures StartTimes(h, n).remaining == Min(h.remaining + DefaultHeatingTime * n, MaximumSetupTime)
    decreases n
  {
    if n > 0 {
      StartsWhileOn(Start(h).heater, n - 1);
    }
  }

  /** From a new heater, `n` starts set `min(60 * n, 600)` seconds. */
  lemma {:induction false} StartsFromNew(n: nat)
    requires n >= 1
    ensures StartTimes(Create(), n).power == On
    ensures StartTimes(Create(), n).remaining == Min(DefaultHeatingTime * n, MaximumSetupTime)
  {
    StartsWhileOn(Start(Create()).heater, n - 1);
  }

  /** Stop is a pause: a later start turns the heater back On with the
      same remaining time. */
  lemma StopThenStartResumes(h: State)
    requires h.remaining > 0
    ensures Start(Stop(h).heater).heater == h.(power := On, running := true)
    ensures Start(Stop(h).heater).elapsed == []
  {
  }

  /** `k` seconds of the timer. A stopped timer delivers no further ticks. */
  function Ticks(h: State, k: nat): (r: Outcome)
    ensures |r.elapsed| <= k
    ensures Valid(h) ==> Valid(r.heater)
    decreases k
  {
    if k == 0 || !h.running then
      Outcome(h, [])
    else
      var first := Tick(h);
      var rest := Ticks(first.heater, k - 1);
      Outcome(rest.heater, first.elapsed + rest.elapsed)
  }

  /** n-1, n-2, ..., 0 */
  function CountDown(n: nat): (s: seq<nat>)
    ensures |s| == n
  {
    seq(n, i requires 0 <= i < n => n - 1 - i)
  }

  /** A running heater with `n` seconds left reports n-1, ..., 0 on the
      next `n` ticks, resets on the tick after that (reporting 0 once more),
      and is then stopped, so any further ticks change nothing. */
  lemma {:induction false} RunsDownToReset(h: State, k: nat)
    requires h.running
    requires k > h.remaining
    ensures Ticks(h, k) == Outcome(Create(), CountDown(h.remaining) + [0])
    decreases k
  {
    if h.remaining > 0 {
      RunsDownToReset(Tick(h).heater, k - 1);
    }
  }
}
