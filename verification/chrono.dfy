/** The two values the entry parser takes from the chrono crate. chrono's
    `NaiveDateTime::parse_from_str(text, "%F %R")` is not part of this model: the
    entry parser receives it as a function parameter. */
module Chrono {

  /** A UTC instant at the precision of the `%F %R` format (date, hour and minute). */
  datatype Timestamp = Timestamp(year: int, month: nat, day: nat, hour: nat, minute: nat)

  /** chrono's `ParseError`, kept opaque: the model records the rejected text. */
  datatype ParseError = ParseError(text: string)
}
