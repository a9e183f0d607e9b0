/** The oven hardware (MicrowaveOven/MicrowaveOvenHw.cs): the door sensor,
    the start and stop buttons, and the one heater it drives.

    Each operation returns the new hardware state, the notifications it
    raised on its own events, and the `TimerElapsed` payloads the heater
    raised while the operation ran. No operation raises both kinds. */
module OvenHw {
  import opened HwCapability
  import Heater

  datatype State = State(doorOpen: bool, heater: Heater.State)

  datatype Outcome = Outcome(hw: State, notifications: seq<Notification>, elapsed: seq<nat>)

  /** The hardware interlock: the heater is never On while the door is open. */
  predicate Safe(hw: State) {
    hw.doorOpen ==> hw.heater.power == Heater.Off
  }

  predicate Valid(hw: State) {
    Heater.Valid(hw.heater) && Safe(hw)
  }

  /** `HeaterState`: the heater's own power state, read through. */
  function HeaterState(hw: State): (p: Heater.PowerState) {
    hw.heater.power
  }

  /** New hardware around a given heater, with the door closed. */
  function Create(heater: Heater.State): (hw: State)
    ensures !hw.doorOpen
    ensures hw.heater == heater && HeaterState(hw) == heater.power
    ensures Heater.Valid(heater) ==> Valid(hw)
  {
    State(false, heater)
  }

  /** Stops the heater unless it is already Off. */
  function TurnOffHeater(hw: State): (r: Outcome)
    ensures r.notifications == [] && r.elapsed == []
    ensures r.hw.doorOpen == hw.doorOpen
    ensures HeaterState(r.hw) == Heater.Off
    ensures HeaterState(hw) == Heater.Off ==> r.hw == hw
    ensures HeaterState(hw) == Heater.On ==> r.hw.heater == Heater.Stop(hw.heater).heater
    ensures Valid(hw) ==> Valid(r.hw)
  {
    if hw.heater.power == Heater.Off then
      Outcome(hw, [], [])
    else
      var stopped := Heater.Stop(hw.heater);
      Outcome(hw.(heater := stopped.heater), [], stopped.elapsed)
  }

  /** Starts the heater unless the door is open. */
  function TurnOnHeater(hw: State): (r: Outcome)
    ensures r.notifications == [] && r.elapsed == []
    ensures r.hw.doorOpen == hw.doorOpen
    ensures hw.doorOpen ==> r.hw == hw
    ensures !hw.doorOpen ==> r.hw.heater == Heater.Start(hw.heater).heater
    ensures HeaterState(r.hw) == Heater.On <==> !hw.doorOpen || HeaterState(hw) == Heater.On
    ensures Valid(hw) ==> Valid(r.hw)
  {
    if hw.doorOpen then
      Outcome(hw, [], [])
    else
      var started := Heater.Start(hw.heater);
      Outcome(hw.(heater := started.heater), [], started.elapsed)
  }

  /** Opens a closed door or closes an open one. Opening stops the heater
      before the change is announced, so whoever hears `DoorOpenChanged(true)`
      finds the heater already Off; closing leaves the heater alone. */
  function ChangeStateOfDoors(hw: State): (r: Outcome)
    ensures r.hw.doorOpen == !hw.doorOpen
    ensures r.notifications == [DoorOpenChanged(r.hw.doorOpen)]
    ensures r.elapsed == []
    ensures r.hw.doorOpen ==> r.hw.heater == Heater.Stop(hw.heater).heater
    ensures !r.hw.doorOpen ==> r.hw.heater == hw.heater
    ensures Safe(r.hw)
    ensures Valid(hw) ==> Valid(r.hw)
  {
    var toggled := hw.(doorOpen := !hw.doorOpen);
    if toggled.doorOpen then
      var stopped := Heater.Stop(toggled.heater);
      Outcome(toggled.(heater := stopped.heater), [DoorOpenChanged(toggled.doorOpen)], stopped.elapsed)
    else
      Outcome(toggled, [DoorOpenChanged(toggled.doorOpen)], [])
  }

  /** Announces the press; whether to heat is left to the listener. */
  function PressStartButton(hw: State): (r: Outcome)
    ensures r.hw == hw
    ensures r.notifications == [StartButtonPressed] && r.elapsed == []
  {
    Outcome(hw, [StartButtonPressed], [])
  }

  /** Cancels the heating when there is time left, and does nothing otherwise. */
  function PressStopButton(hw: State): (r: Outcome)
    ensures r.notifications == []
    ensures r.hw.doorOpen == hw.doorOpen
    ensures hw.heater.remaining > 0 ==> r.hw.heater == Heater.Create() && r.elapsed == [0]
    ensures hw.heater.remaining == 0 ==> r.hw == hw && r.elapsed == []
    ensures Valid(hw) ==> Valid(r.hw)
  {
    if hw.heater.remaining > 0 then
      var reset := Heater.Reset(hw.heater);
      Outcome(hw.(heater := reset.heater), [], reset.elapsed)
    else
      Outcome(hw, [], [])
  }

  /** One second of the owned heater's timer, seen from the hardware. */
  function TimerTick(hw: State): (r: Outcome)
    requires hw.heater.running
    ensures r.notifications == []
    ensures r.hw.doorOpen == hw.doorOpen
    ensures r.hw.heater == Heater.Tick(hw.heater).heater
    ensures r.elapsed == [r.hw.heater.remaining]
    ensures Valid(hw) ==> Valid(r.hw)
  {
    var ticked := Heater.Tick(hw.heater);
    Outcome(hw.(heater := ticked.heater), [], ticked.elapsed)
  }

  /** The sequence of calls in the hardware's end-to-end workflow, from a new
      heater: turn on, open, turn on, close, turn on, press stop. */
  lemma FullWorkflow()
    ensures var s0 := Create(Heater.Create());
      && !s0.doorOpen && HeaterState(s0) == Heater.Off
      && var s1 := TurnOnHeater(s0).hw;
      && HeaterState(s1) == Heater.On
      && var s2 := ChangeStateOfDoors(s1).hw;
      && s2.doorOpen && HeaterState(s2) == Heater.Off
      && var s3 := TurnOnHeater(s2).hw;
      && HeaterState(s3) == Heater.Off
      && var s4 := ChangeStateOfDoors(s3).hw;
      && !s4.doorOpen
      && var s5 := TurnOnHeater(s4).hw;
      && HeaterState(s5) == Heater.On
      && var s6 := PressStopButton(s5).hw;
      && HeaterState(s6) == Heater.Off && s6.heater.remaining == 0
  {
  }
}
