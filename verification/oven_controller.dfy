/** The oven controller (MicrowaveOven/MicrowaveOvenController.cs): a
    purely reactive policy over the hardware capability. It keeps the
    cavity light in step with the door, and forwards start presses to the
    heater only while the door is closed.

    Each handler returns the controller's new state and the commands it
    issued on the hardware, in order. */
module OvenController {
  import opened HwCapability
  import Heater

  datatype State = State(light: Heater.PowerState)

  datatype Reaction = Reaction(controller: State, commands: seq<Command>)

  /** The hardware events a controller subscribes to. */
  datatype Channel = StartButtonPressedChannel | DoorOpenChangedChannel

  /** The new controller and the handlers it registered, in registration
      order. The list only records the constructor's two registrations;
      delivery itself (`Oven.Dispatch`) hands each notification to `Handle`
      once, which is what one subscription per event amounts to. */
  datatype Construction = Construction(controller: State, subscriptions: seq<Channel>)

  /** A new controller: light Off, one handler on each hardware event. */
  function Create(): (r: Construction)
    ensures r.controller.light == Heater.Off
    ensures |r.subscriptions| == 2
    ensures multiset(r.subscriptions)[StartButtonPressedChannel] == 1
    ensures multiset(r.subscriptions)[DoorOpenChangedChannel] == 1
  {
    Construction(State(Heater.Off), [StartButtonPressedChannel, DoorOpenChangedChannel])
  }

  /** The light follows the door; opening also commands the heater Off. */
  function OnDoorOpenChange(c: State, isDoorOpen: bool): (r: Reaction)
    ensures r.controller.light == Heater.On <==> isDoorOpen
    ensures isDoorOpen ==> r.commands == [TurnOffHeater]
    ensures !isDoorOpen ==> r.commands == []
  {
    var next := c.(light := if isDoorOpen then Heater.On else Heater.Off);
    Reaction(next, if isDoorOpen then [TurnOffHeater] else [])
  }

  /** `doorOpen` is what the hardware's `DoorOpen` reports at the press. */
  function OnStartButtonPressed(c: State, doorOpen: bool): (r: Reaction)
    ensures r.controller == c
    ensures doorOpen ==> r.commands == []
    ensures !doorOpen ==> r.commands == [TurnOnHeater]
  {
    if !doorOpen then Reaction(c, [TurnOnHeater]) else Reaction(c, [])
  }

  /** Dispatch of one hardware notification to its subscribed handler. */
  function Handle(c: State, n: Notification, doorOpen: bool): (r: Reaction)
    ensures |r.commands| <= 1
    ensures TurnOffHeater in r.commands <==> n == DoorOpenChanged(true)
    ensures TurnOnHeater in r.commands <==> n == StartButtonPressed && !doorOpen
    ensures n.StartButtonPressed? ==> r.controller == c
    ensures n.DoorOpenChanged? ==> (r.controller.light == Heater.On <==> n.isOpen)
  {
    match n
    case DoorOpenChanged(isOpen) => OnDoorOpenChange(c, isOpen)
    case StartButtonPressed => OnStartButtonPressed(c, doorOpen)
  }

  /** A series of door events, handled in order. */
  function OnDoorOpenChanges(c: State, events: seq<bool>): (r: Reaction)
    decreases |events|
  {
    if |events| == 0 then
      Reaction(c, [])
    else
      var first := OnDoorOpenChange(c, events[0]);
      var rest := OnDoorOpenChanges(first.controller, events[1..]);
      Reaction(rest.controller, first.commands + rest.commands)
  }

  /** After any series of door events the light is On exactly when the last
      event reported an open door, and one `TurnOffHeater` was issued per
      opening and no other command. */
  lemma {:induction false} LightFollowsLastDoorEvent(c: State, events: seq<bool>)
    requires |events| > 0
    ensures OnDoorOpenChanges(c, events).controller.light == Heater.On <==> events[|events| - 1]
    ensures |OnDoorOpenChanges(c, events).commands| == multiset(events)[true]
    ensures forall i :: 0 <= i < |OnDoorOpenChanges(c, events).commands| ==>
      OnDoorOpenChanges(c, events).commands[i] == TurnOffHeater
    decreases |events|
  {
    var rest := events[1..];
    assert events == [events[0]] + rest;
    assert multiset(events) == multiset([events[0]]) + multiset(rest);
    if |rest| > 0 {
      LightFollowsLastDoorEvent(OnDoorOpenChange(c, events[0]).controller, rest);
    }
  }
}
