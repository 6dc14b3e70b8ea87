/**
 * The values exchanged with the desk over the message bus (src/main.rs):
 * the commands the desk accepts and the state it reports.
 */
module SvenTypes {

  /** Rust's `u32`. */
  newtype u32 = x: int | 0 <= x < 0x1_0000_0000

  /** Rust's `u64`, the unit of `Duration::from_secs`. */
  newtype u64 = x: int | 0 <= x < 0x1_0000_0000_0000_0000

  /** The three topics under `sven/`. */
  const CommandTopic: string := "sven/command"
  const StateTopic: string := "sven/state"
  const StatusTopic: string := "sven/status"

  /**
   * The kind of a desk command. The unit of the accompanying value depends on
   * the kind: milliseconds for the two durations, millimetres for the two
   * relative moves and for the absolute height, a preset for `Position`.
   */
  datatype SvenCommand =
    | UpDuration
    | DownDuration
    | UpRelative
    | DownRelative
    | AbsoluteHeight
    | Position

  /** A command published on the command topic. */
  datatype DeskCommand = DeskCommand(command: SvenCommand, value: u32)

  /** The named positions the desk reports. */
  datatype SvenPosition =
    | Bottom
    | Top
    | Armrest
    | AboveArmrest
    | Standing
    | Custom

  /** The last state the desk reported; a height of 0 means "never observed". */
  datatype SvenState = SvenState(heightMm: u32, position: SvenPosition)
}
