/** The ways a run of the converter can end without producing a calendar,
    and the Option/Result wrappers the rest of the model uses. */
module Failures {

  /** Each constructor stands for one exception (or the usage exit) of the script. */
  datatype Error =
    | BadAlarmFormat              // odd number of --alarm tokens: usage is printed and the run exits
    | NotAnInteger(text: string)  // int() raised ValueError on a slice of an alarm time or a date field
    | DurationOverflow            // timedelta() raised OverflowError: more than 999999999 days
    | FetchFailed                 // the HTTP request raised
    | MissingTitle                // the page had no <title> (aw.title was None)
    | MissingHref                 // anchor["href"] raised KeyError
    | MissingParagraph            // anchor.p was None (AttributeError)
    | EmptyClassList              // anchor.p["class"][0] raised IndexError
    | NoDateMatch(text: string)   // the date pattern did not match the paragraph text
    | DateArgumentOverflow        // datetime() raised OverflowError: an argument does not fit a C int
    | InvalidDate(year: int, month: int, day: int)  // datetime() raised ValueError
    | DateOverflow                // date + 1 day went past year 9999 (OverflowError)
    | MissingDescription          // the description span was absent (AttributeError)
    | UnknownAlarmKey(waste: string)  // allowed_waste_types[waste_type] raised KeyError

  datatype Option<+T> = None | Some(value: T)

  datatype Result<+T> = Ok(value: T) | Err(error: Error) {
    predicate IsFailure() { Err? }
    function PropagateFailure<U>(): Result<U> requires Err? { Err(error) }
    function Extract(): T requires Ok? { value }
  }
}
