/** Fatal conditions of the analyser and the result type that carries them.
    Every `exit (EXIT_FAILURE)` of the decoder and of the detectors becomes
    one error value here. */
module Failures {

  datatype Error =
    | Truncated               // a read lies (partly) past the end of the file
    | NoMds                   // "No MDS": the 16-byte signature differs
    | UnsupportedVersion      // version byte at 0x11 is not 0x05
    | UnknownDiscFormat       // format byte at 0x12 is neither 0x00 nor 0x10
    | NoDpm                   // table pointer at 0x54 is zero
    | UnknownHeaderStructure  // location byte at the table pointer is not 1 or 2
    | UnknownInterval         // interval is not 50, 256, 500 or 2048
    | IncreaseOverflow        // a 201st increase event
    | DecreaseOverflow        // a 201st decrease event
    | StartOverflow           // an 11th region start
    | StopOverflow            // an 11th region stop

  datatype Result<+T> = Ok(value: T) | Err(error: Error) {
    predicate IsFailure() { Err? }

    function PropagateFailure<U>(): Result<U>
      requires Err?
    {
      Err(error)
    }

    function Extract(): T
      requires Ok?
    {
      value
    }
  }

  /** The outcome of an operation that changes state and returns no value. */
  datatype Outcome = Pass | Fail(error: Error)
}
