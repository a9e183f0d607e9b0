# Microwave oven controller: a Dafny model

This project models the control logic of a console microwave oven written in
C#. The logic has three parts:

- **Heater** (`heater.dfy`, module `Heater`): a countdown timer with an On/Off
  power state. Start adds 60 seconds, clamped to 600. Stop pauses and Reset
  cancels. Each tick of the one-second timer counts down by one, and at zero
  it resets.
- **Oven hardware** (`oven_hw.dfy`, module `OvenHw`): the door sensor and the
  start and stop buttons around one heater. It refuses to heat with the door
  open. It stops the heater before it announces that the door opened. It
  raises `DoorOpenChanged` and `StartButtonPressed`.
- **Controller** (`oven_controller.dfy`, module `OvenController`): reacts to
  those two events. It keeps the cavity light On exactly while the door is
  open. It forwards start presses as `TurnOnHeater` only while the door is
  closed. It issues `TurnOffHeater` when the door opens.

`hw_capability.dfy` (module `HwCapability`) holds the vocabulary of the
hardware abstraction the controller is written against: the two notifications
and the two heater commands. `oven.dfy` (module `Oven`) wires the parts
together as the program's start-up code does. It then proves invariants over
arbitrary sequences of user inputs and timer ticks.

Every component is an immutable record. Every operation is a pure function
that returns the new state together with what it emitted. For the heater,
that is the `TimerElapsed` payloads. For the hardware, it is its notifications
and the heater's payloads. For the controller, it is its hardware commands.
Events are delivered synchronously to a single subscriber. In the assembled
system, a notification is handled by the controller in the hardware state of
that moment, and the controller's commands run before the triggering
operation returns (`Oven.Dispatch`, `Oven.Step`). The trace of a step lists every raised notification,
timer payload and issued command in order.

`RemainingTime` is a `double` in the source. It is a `nat` here, because
only whole seconds ever occur. The `System.Timers.Timer` is reduced to a
`running` flag. `Heater.Tick` can only be applied while that flag is set.
At system level, a tick input on a stopped timer changes nothing.

## Behaviour worth knowing

- The countdown reports 0 twice. A tick takes 1 to 0 and reports 0 with the
  power still On. The next tick finds 0, resets, and reports 0 again
  (`Heater.RunsDownToReset`). The heater is therefore On with no time left for
  one second.
- Stop followed by start keeps the remaining time only when some time is left
  (`Heater.StopThenStartResumes` requires it). In the one-second window above,
  stop and then start gives a fresh 60 seconds.
- Pressing stop in that window does nothing, because it only acts when time
  is left. The next tick resets the heater.
- When the door opens, the controller's `TurnOffHeater` is redundant. The
  hardware has already stopped the heater, so the command changes nothing
  (`Oven.OpeningDoor`). It is kept, because it is an observable call.

## Model

| member | source | states |
|---|---|---|
| Heater.Create | MicrowaveOven/Heater.cs:14-19 | A new heater is Off, has no time left and its timer is stopped; this satisfies the heater invariant |
| Heater.Start | MicrowaveOven/Heater.cs:37-62 | Start always leaves the heater On with time left and raises nothing. While On it adds 60 s, clamped to 600 s. While Off with time left it resumes that time and starts the timer. While Off with none left it sets 60 s and starts the timer. It keeps the invariant |
| Heater.Stop | MicrowaveOven/Heater.cs:64-68 | Stop turns the power Off and stops the timer, keeps the remaining time (a pause), raises nothing and keeps the invariant |
| Heater.Reset | MicrowaveOven/Heater.cs:70-76 | Reset from any state gives the state of a new heater and raises exactly one TimerElapsed, carrying 0 |
| Heater.Tick | MicrowaveOven/Heater.cs:25-35 | A tick raises exactly one TimerElapsed, carrying the new remaining time. With time left it counts down by exactly one and keeps the power and timer. At zero it is a Reset, so the time never goes below zero. It keeps the invariant |
| Heater.StartsWhileOn | MicrowaveOven/Heater.cs:39-50 | n starts on a heater that is On give min(remaining + 60·n, 600), and the power stays On |
| Heater.StartsFromNew | MicrowaveOvenTests/HeaterTests.cs:14-59 | From a new heater with no ticks, n ≥ 1 starts give power On and exactly min(60·n, 600) seconds |
| Heater.StopThenStartResumes | MicrowaveOven/Heater.cs:52-68 | With time left, stop followed by start restores power On and the running timer with the same remaining time |
| Heater.Ticks | MicrowaveOven/Heater.cs:25-35 | Over any number of timer seconds, the invariant holds and at most one TimerElapsed is raised per second |
| Heater.RunsDownToReset | MicrowaveOven/Heater.cs:25-35 | A running heater with n seconds left reports n-1 down to 0 on the next n ticks, resets and reports 0 on the next, and stays a stopped new heater under any further ticks |
| OvenHw.Create | MicrowaveOven/MicrowaveOvenHw.cs:10-17 | New hardware has the door closed, owns the given heater, and reports that heater's power as its heater state |
| OvenHw.TurnOffHeater | MicrowaveOven/MicrowaveOvenHw.cs:19-25 | The heater ends Off. Nothing changes when it was already Off, otherwise it is exactly Heater.Stop. The door is untouched, nothing is raised, and validity is kept |
| OvenHw.TurnOnHeater | MicrowaveOven/MicrowaveOvenHw.cs:27-33 | Nothing changes with the door open, otherwise it is exactly Heater.Start. Afterwards the heater is On iff the door was closed or it was already On. Nothing is raised and validity is kept |
| OvenHw.ChangeStateOfDoors | MicrowaveOven/MicrowaveOvenHw.cs:35-44 | The door flips and exactly one DoorOpenChanged is raised, carrying the new value. Opening stops the heater in the state the event is raised in. Closing leaves the heater untouched. Afterwards the heater is never On with the door open |
| OvenHw.PressStartButton | MicrowaveOven/MicrowaveOvenHw.cs:46-49 | Exactly one StartButtonPressed is raised and no state changes |
| OvenHw.PressStopButton | MicrowaveOven/MicrowaveOvenHw.cs:51-57 | With time left the heater is reset to a new heater and reports 0 once. With none left nothing changes and nothing is raised. The door is untouched and validity is kept |
| OvenHw.TimerTick | MicrowaveOven/Heater.cs:25-35 | A tick of the owned heater leaves the door alone, reports the new remaining time once, raises no hardware event and keeps validity, including the door interlock |
| OvenHw.FullWorkflow | MicrowaveOvenTests/MicrowaveOvenHwTests.cs:207-235 | The step-by-step hardware workflow: turn on gives On; opening gives Off; turn on with the door open stays Off; close and turn on gives On; stop gives Off with 0 s left |
| OvenController.Create | MicrowaveOven/MicrowaveOvenController.cs:7-15 | A new controller has the light Off and exactly one subscription to each of the two hardware events |
| OvenController.OnDoorOpenChange | MicrowaveOven/MicrowaveOvenController.cs:19-27 | The light is On iff the event reports an open door. Opening issues exactly one TurnOffHeater. Closing issues no command |
| OvenController.OnStartButtonPressed | MicrowaveOven/MicrowaveOvenController.cs:29-35 | A press leaves the light alone. With the door closed it issues exactly one TurnOnHeater. With the door open it issues none |
| OvenController.Handle | MicrowaveOven/MicrowaveOvenController.cs:13-35 | A notification makes the controller issue at most one command. TurnOffHeater is issued iff the door was reported open. TurnOnHeater is issued iff start was pressed with the door closed. A start press leaves the controller unchanged. After a door event the light is On iff the door is open |
| OvenController.LightFollowsLastDoorEvent | MicrowaveOvenTests/MicrowaveOvenControllerTests.cs:118-133 | After any non-empty series of door events, the light is On iff the last event reported an open door. Exactly one TurnOffHeater is issued per opening, and no other command |
| Oven.Create | MicrowaveOven/Program.cs:20-22 | The assembled oven starts with the door closed, a new heater and the light Off, and satisfies the system invariant |
| Oven.Execute | MicrowaveOven/IMicrowaveOvenHw.cs:11-16 | A controller command raises no hardware event or timer payload and never moves the door. TurnOffHeater always leaves the heater Off. TurnOnHeater with the door closed leaves it On. Hardware validity is kept |
| Oven.ExecuteAll | MicrowaveOven/MicrowaveOvenHw.cs:19-33 | Controller commands carried out by the hardware never move the door and keep the hardware valid |
| Oven.Dispatch | MicrowaveOven/MicrowaveOvenHw.cs:42-48 | Delivering a notification never moves the door and keeps the hardware valid. The notification is the first entry of the trace. A start press leaves the controller unchanged. After a door event the light is On iff that event reported an open door |
| Oven.DispatchAll | MicrowaveOven/MicrowaveOvenHw.cs:42-48 | Over a series of notifications delivered in order: the door never moves and hardware validity is kept. The first notification is the first entry of the trace. Start presses alone leave the controller unchanged. When the last notification is a door event, the light is On iff it reported an open door |
| Oven.Step | MicrowaveOven/Program.cs:48-58 | Only the door key moves the door (flipping it) and changes the controller, and the light then shows the new door state. For the door key and the start key, the raised notification comes first in the trace |
| Oven.StepPreservesInv | MicrowaveOven/Program.cs:48-58 | Every input keeps the system invariant: heater invariant, no heating with the door open, and light On iff the door is open |
| Oven.RunPreservesInv | MicrowaveOven/Program.cs:44-63 | Any sequence of inputs from a state satisfying the invariant keeps it |
| Oven.NeverHeatsWithDoorOpen | MicrowaveOven/MicrowaveOvenHw.cs:27-44 | From power-up, under any inputs: the heater is never On with the door open, the light is On iff the door is open, the time stays at most 600 s, and the timer runs iff the heater is On |
| Oven.OpeningDoor | MicrowaveOven/MicrowaveOvenHw.cs:35-44 | Opening the door gives the trace "DoorOpenChanged(true), then TurnOffHeater". The heater is Off and paused with its time kept, and the light is On. The controller's TurnOffHeater changes nothing |
| Oven.ClosingDoor | MicrowaveOven/MicrowaveOvenController.cs:19-27 | Closing the door gives the trace "DoorOpenChanged(false)" and no command. The light goes Off and the heater is untouched |
| Oven.PressingStart | MicrowaveOven/MicrowaveOvenController.cs:29-35 | With the door open, a start press raises StartButtonPressed and changes nothing. With it closed, it also issues one TurnOnHeater, which performs Heater.Start |
| Oven.PressingStop | MicrowaveOven/MicrowaveOvenHw.cs:51-57 | With time left, stop resets only the heater and reports 0 once. With none left, nothing happens |
| Oven.TimerTicking | MicrowaveOven/Heater.cs:25-35 | A stopped timer delivers nothing. A running one changes only the heater, by one Heater.Tick, and reports the new time once |
| Oven.Session | MicrowaveOven/Program.cs:50-58 | The end-to-end session. Start with the door closed gives On with 60 s and the light Off. Opening gives heater Off and light On. Start then changes nothing. Closing gives light Off with the heater still Off. Start gives On with 60 s. Stop gives Off with 0 s |

## Left out

- Timer scheduling, threading and the race between a tick and a button press are not modelled, because the source has no locking. The one-second `System.Timers.Timer` is reduced to a `running` flag, and ticks are atomic steps interleaved with the other operations.
- `Dispose` on the heater and on the hardware is left out, because it releases the timer and has no logical behaviour.
- `double` arithmetic on `RemainingTime` is replaced by `nat`, because only whole seconds occur.
- The public setter of `Heater.PowerState` is not modelled. Only the heater's own operations change its state. An outside write could break "timer runs iff power On".
- The console rendering, the key polling loop and the Quit key of `Program.cs` are left out, because they are presentation and I/O. The door, start and stop keys are the `Oven.Input` values.
- C# event and delegate machinery is left out. Each event has one synchronous subscriber, as in the program's wiring. The `?.` guards for a missing subscriber or a missing hardware reference are not modelled; in the model a notification is always recorded in the trace.
- The heater's `TimerElapsed` has no subscriber in the wiring. Its payloads appear in the trace but are handed to no one.
- Test doubles (Moq mocks) are not modelled. The controller is modelled against the hardware capability (`HwCapability`), and the `DoorOpen` query is a parameter.
