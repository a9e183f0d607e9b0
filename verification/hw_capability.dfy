/** The vocabulary of the hardware abstraction the controller is written
    against (MicrowaveOven/IMicrowaveOvenHw.cs): the two notifications the
    hardware raises and the two heater commands it accepts. The third
    member of that interface, the `DoorOpen` query, is a plain `bool`
    passed to whoever needs it. */
module HwCapability {

  /** `DoorOpenChanged(isOpen)` and `StartButtonPressed`. */
  datatype Notification = DoorOpenChanged(isOpen: bool) | StartButtonPressed

  /** `TurnOnHeater()` and `TurnOffHeater()`. */
  datatype Command = TurnOnHeater | TurnOffHeater
}
