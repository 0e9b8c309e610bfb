/** The exceptions raised by the driver class and the sequence writer. */
module Errors {

  /** What the validator reports about the shortest run of identical columns:
      its length in samples, the sample where it starts, every change point of
      the timeline, and the row positions that changed at the run's start and
      at its end (empty at the timeline's edges). */
  datatype Diagnostic = Diagnostic(
    streak: nat,
    index: nat,
    changes: seq<nat>,
    startChannels: seq<nat>,
    endChannels: seq<nat>)

  datatype Error =
    | CycleNotMultipleOfTen(onTime: nat)   // ValueError in the constructor
    | ZeroResolution                       // division by the resolution in the constructor
    | StartMisaligned(start: int)          // ValueError in _set
    | LengthMisaligned(length: int)        // ValueError in _set
    | StartOutOfRange(startSample: int)    // IndexError in _set
    | StopOutOfRange(stopSample: int)      // IndexError in _set
    | UnknownPin(pin: int)                 // raised by _get_ch
    | ClockTooShort(period: int)           // ValueError in make_clock
    | ClockMisaligned(period: int)         // ValueError in make_clock
    | LoopsNotPositive                     // raised by program
    | PulseTooShort(diagnostic: Diagnostic) // raised by the validator
    | MalformedTimeline                    // the timeline is not a rectangular matrix with a row
    | EmptyCycle                           // IndexError reading column 0 of zero-length rows
    | InvalidBinaryLiteral                 // ValueError from int(s, 2) in _array_to_hex
    | StateIndexOutOfRange(index: nat)     // IndexError reading states[i] in write_sequence
}
