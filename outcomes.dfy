/** The exceptions `Macd` raises, and the shapes of fallible results. */
module Outcomes {

  datatype Error =
    | UnknownManager(manager: string)   // raised by keep_together, keep_apart and pin_to
    | UnknownNight(night: string)       // raised by pin_to
    | NoDoodle                          // raised by solve before any availability is loaded
    | PreviousTooSmall                  // the key lookup into `prev` fails while summing the stability term

  datatype Outcome = Pass | Fail(error: Error)

  datatype Result<T> = Ok(value: T) | Err(error: Error)

  datatype Option<T> = None | Some(value: T)
}
