/** The assembled oven as MicrowaveOven/Program.cs builds it: one heater,
    the hardware that owns it, and a controller subscribed to the
    hardware's events.

    C# events become synchronous dispatch to the single subscriber: a
    notification raised by the hardware is handed to the controller at
    once, in the hardware state of that moment, and the commands the
    controller issues run on the hardware before the triggering operation
    returns. The heater's `TimerElapsed` has no subscriber in the wiring;
    its payloads only appear in the trace. */
module Oven {
  import opened HwCapability
  import Heater
  import OvenHw
  import OvenController

  datatype System = System(hw: OvenHw.State, controller: OvenController.State)

  /** The three user keys of the console loop (door, start, stop) and one
      second of the heater's timer. */
  datatype Input = ToggleDoor | PressStart | PressStop | TimerTick

  /** What an observer of all events and calls would see, in order. */
  datatype Occurrence =
    | Raised(notification: Notification)
    | Elapsed(seconds: nat)
    | Issued(command: Command)

  datatype Transition = Transition(system: System, trace: seq<Occurrence>)

  /** The system invariant: each component's own invariant, plus a light
      that is On exactly while the door is open. */
  predicate Inv(s: System) {
    && OvenHw.Valid(s.hw)
    && (s.controller.light == Heater.On <==> s.hw.doorOpen)
  }

  function Create(): (s: System)
    ensures !s.hw.doorOpen && s.hw.heater == Heater.Create()
    ensures s.controller.light == Heater.Off
    ensures Inv(s)
  {
    System(OvenHw.Create(Heater.Create()), OvenController.Create().controller)
  }

  function ElapsedAll(values: seq<nat>): seq<Occurrence> {
    seq(|values|, i requires 0 <= i < |values| => Elapsed(values[i]))
  }

  function IssuedAll(commands: seq<Command>): seq<Occurrence> {
    seq(|commands|, i requires 0 <= i < |commands| => Issued(commands[i]))
  }

  /** A controller command carried out by the hardware. Heater commands
      raise no events and never move the door. */
  function Execute(hw: OvenHw.State, command: Command): (r: OvenHw.Outcome)
    ensures r.notifications == [] && r.elapsed == []
    ensures r.hw.doorOpen == hw.doorOpen
    ensures command == TurnOffHeater ==> r.hw.heater.power == Heater.Off
    ensures command == TurnOnHeater && !hw.doorOpen ==> r.hw.heater.power == Heater.On
    ensures OvenHw.Valid(hw) ==> OvenHw.Valid(r.hw)
  {
    match command
    case TurnOnHeater => OvenHw.TurnOnHeater(hw)
    case TurnOffHeater => OvenHw.TurnOffHeater(hw)
  }

  /** Commands carried out in order. They raise no events (see `Execute`),
      so nothing is dispatched back to the controller. */
  function ExecuteAll(hw: OvenHw.State, commands: seq<Command>): (r: OvenHw.State)
    ensures r.doorOpen == hw.doorOpen
    ensures OvenHw.Valid(hw) ==> OvenHw.Valid(r)
    decreases |commands|
  {
    if |commands| == 0 then
      hw
    else
      var first := Execute(hw, commands[0]);
      ExecuteAll(first.hw, commands[1..])
  }

  /** One notification delivered to the controller, which reacts in the
      hardware state of the moment; its commands then run on the hardware. */
  function Dispatch(s: System, n: Notification): (t: Transition)
    ensures t.system.hw.doorOpen == s.hw.doorOpen
    ensures |t.trace| > 0 && t.trace[0] == Raised(n)
    ensures n.StartButtonPressed? ==> t.system.controller == s.controller
    ensures n.DoorOpenChanged? ==> (t.system.controller.light == Heater.On <==> n.isOpen)
    ensures OvenHw.Valid(s.hw) ==> OvenHw.Valid(t.system.hw)
  {
    var reaction := OvenController.Handle(s.controller, n, s.hw.doorOpen);
    var hw := ExecuteAll(s.hw, reaction.commands);
    Transition(System(hw, reaction.controller), [Raised(n)] + IssuedAll(reaction.commands))
  }

  function DispatchAll(s: System, ns: seq<Notification>): (t: Transition)
    ensures t.system.hw.doorOpen == s.hw.doorOpen
    ensures |ns| > 0 ==> |t.trace| > 0 && t.trace[0] == Raised(ns[0])
    ensures (forall i :: 0 <= i < |ns| ==> ns[i].StartButtonPressed?) ==> t.system.controller == s.controller
    ensures |ns| > 0 && ns[|ns| - 1].DoorOpenChanged? ==>
      (t.system.controller.light == Heater.On <==> ns[|ns| - 1].isOpen)
    ensures OvenHw.Valid(s.hw) ==> OvenHw.Valid(t.system.hw)
    decreases |ns|
  {
    if |ns| == 0 then
      Transition(s, [])
    else
      var first := Dispatch(s, ns[0]);
      var rest := DispatchAll(first.system, ns[1..]);
      Transition(rest.system, first.trace + rest.trace)
  }

  /** The hardware call an input stands for. A stopped timer delivers no
      tick. */
  function Operate(hw: OvenHw.State, input: Input): (o: OvenHw.Outcome) {
    match input
    case ToggleDoor => OvenHw.ChangeStateOfDoors(hw)
    case PressStart => OvenHw.PressStartButton(hw)
    case PressStop => OvenHw.PressStopButton(hw)
    case TimerTick =>
      if hw.heater.running then OvenHw.TimerTick(hw) else OvenHw.Outcome(hw, [], [])
  }

  /** One input: the hardware acts, then its notifications are dispatched.
      Only the door key moves the door and the light, and after it the light
      shows the new door state; a door change or start press is the first
      thing in the trace, so the controller hears of it before it acts. */
  function Step(s: System, input: Input): (t: Transition)
    ensures t.system.hw.doorOpen == (s.hw.doorOpen != (input == ToggleDoor))
    ensures input != ToggleDoor ==> t.system.controller == s.controller
    ensures input == ToggleDoor ==>
      (t.system.controller.light == Heater.On <==> t.system.hw.doorOpen)
    ensures input == ToggleDoor ==> |t.trace| > 0 && t.trace[0] == Raised(DoorOpenChanged(t.system.hw.doorOpen))
    ensures input == PressStart ==> |t.trace| > 0 && t.trace[0] == Raised(StartButtonPressed)
  {
    var o := Operate(s.hw, input);
    var d := DispatchAll(System(o.hw, s.controller), o.notifications);
    Transition(d.system, ElapsedAll(o.elapsed) + d.trace)
  }

  function Run(s: System, inputs: seq<Input>): (t: Transition)
    decreases |inputs|
  {
    if |inputs| == 0 then
      Transition(s, [])
    else
      var first := Step(s, inputs[0]);
      var rest := Run(first.system, inputs[1..]);
      Transition(rest.system, first.trace + rest.trace)
  }

  /** Every input keeps the invariant. */
  lemma StepPreservesInv(s: System, input: Input)
    requires Inv(s)
    ensures Inv(Step(s, input).system)
  {
  }

  /** Over any input sequence from a state satisfying the invariant: the
      heater is never On with the door open, and the light is On exactly
      while the door is open. */
  lemma {:induction false} RunPreservesInv(s: System, inputs: seq<Input>)
    requires Inv(s)
    ensures Inv(Run(s, inputs).system)
    decreases |inputs|
  {
    if |inputs| > 0 {
      StepPreservesInv(s, inputs[0]);
      RunPreservesInv(Step(s, inputs[0]).system, inputs[1..]);
    }
  }

  /** The invariant from power-up onwards, whatever the user and the timer do. */
  lemma NeverHeatsWithDoorOpen(inputs: seq<Input>)
    ensures var s := Run(Create(), inputs).system;
      && (s.hw.doorOpen ==> s.hw.heater.power == Heater.Off)
      && (s.controller.light == Heater.On <==> s.hw.doorOpen)
      && s.hw.heater.remaining <= Heater.MaximumSetupTime
      && (s.hw.heater.running <==> s.hw.heater.power == Heater.On)
  {
    RunPreservesInv(Create(), inputs);
  }

  /** Opening the door: the hardware stops the heater, then announces the
      open door; the controller turns the light On and issues its
      `TurnOffHeater`, which finds the heater already Off and changes
      nothing. */
  lemma OpeningDoor(s: System)
    requires !s.hw.doorOpen
    ensures var t := Step(s, ToggleDoor);
      && t.trace == [Raised(DoorOpenChanged(true)), Issued(TurnOffHeater)]
      && t.system.hw == OvenHw.ChangeStateOfDoors(s.hw).hw
      && t.system.hw.doorOpen
      && t.system.hw.heater.power == Heater.Off && !t.system.hw.heater.running
      && t.system.hw.heater.remaining == s.hw.heater.remaining
      && t.system.controller.light == Heater.On
  {
    var o := OvenHw.ChangeStateOfDoors(s.hw);
    var mid := System(o.hw, s.controller);
    assert DispatchAll(mid, o.notifications) == Dispatch(mid, DoorOpenChanged(true));
    assert ExecuteAll(o.hw, [TurnOffHeater]) == o.hw;
  }

  /** Closing the door: the light goes Off, no heater command is issued and
      the heater is untouched. */
  lemma ClosingDoor(s: System)
    requires s.hw.doorOpen
    ensures var t := Step(s, ToggleDoor);
      && t.trace == [Raised(DoorOpenChanged(false))]
      && t.system.hw == s.hw.(doorOpen := false)
      && t.system.controller.light == Heater.Off
  {
    var o := OvenHw.ChangeStateOfDoors(s.hw);
    var mid := System(o.hw, s.controller);
    assert DispatchAll(mid, o.notifications) == Dispatch(mid, DoorOpenChanged(false));
  }

  /** A start press reaches the heater only through the controller, and
      only while the door is closed; with the door open nothing changes. */
  lemma PressingStart(s: System)
    ensures s.hw.doorOpen ==> Step(s, PressStart) == Transition(s, [Raised(StartButtonPressed)])
    ensures !s.hw.doorOpen ==>
      && Step(s, PressStart).trace == [Raised(StartButtonPressed), Issued(TurnOnHeater)]
      && Step(s, PressStart).system.hw.heater == Heater.Start(s.hw.heater).heater
      && Step(s, PressStart).system.controller == s.controller
  {

  }

  /** The stop button cancels through the hardware alone: with time left the
      heater is reset and reports 0 once; with none left nothing happens.
      The controller is not involved. */
  lemma PressingStop(s: System)
    ensures s.hw.heater.remaining > 0 ==>
      Step(s, PressStop) == Transition(s.(hw := s.hw.(heater := Heater.Create())), [Elapsed(0)])
    ensures s.hw.heater.remaining == 0 ==> Step(s, PressStop) == Transition(s, [])
  {

  }

  /** A timer second reaches only the heater: it reports the new remaining
      time once and leaves the door and the light alone; a stopped timer
      delivers nothing. */
  lemma TimerTicking(s: System)
    ensures !s.hw.heater.running ==> Step(s, TimerTick) == Transition(s, [])
    ensures s.hw.heater.running ==>
      && Step(s, TimerTick).system == s.(hw := s.hw.(heater := Heater.Tick(s.hw.heater).heater))
      && Step(s, TimerTick).trace == [Elapsed(Heater.Tick(s.hw.heater).heater.remaining)]
  {

  }

  /** The end-to-end session: start with the door closed, open the door,
      press start, close the door, press start, press stop. */
  lemma Session()
    ensures var s0 := Create();
      && var s1 := Step(s0, PressStart).system;
      && s1.hw.heater.power == Heater.On && s1.hw.heater.remaining == 60
      && s1.controller.light == Heater.Off
      && var s2 := Step(s1, ToggleDoor).system;
      && s2.hw.doorOpen && s2.hw.heater.power == Heater.Off
      && s2.controller.light == Heater.On
      && var s3 := Step(s2, PressStart).system;
      && s3 == s2
      && var s4 := Step(s3, ToggleDoor).system;
      && !s4.hw.doorOpen && s4.hw.heater.power == Heater.Off
      && s4.controller.light == Heater.Off
      && var s5 := Step(s4, PressStart).system;
      && s5.hw.heater.power == Heater.On && s5.hw.heater.remaining == 60
      && var s6 := Step(s5, PressStop).system;
      && s6.hw.heater.power == Heater.Off && s6.hw.heater.remaining == 0
  {

  }
}
