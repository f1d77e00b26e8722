/** The failures the package reports to its callers, and the wrappers that carry them. */
module Errors {

  datatype Option<+T> = None | Some(value: T)

  /** One constructor per exception the modelled code raises. */
  datatype Error =
    | OutOfFont(letter: char)   // drawing.OutOfFontError
    | FontNotSet                // settings.FontNotSetError
    | NegativeRowsOrColumns     // ValueError in make_flashcards
    | NonPositivePageSize       // ValueError in make_flashcards
    | NegativeImageSize         // ValueError raised by Image.new for a negative size
    | ZeroDivision              // ZeroDivisionError in compute_layout
    | EmptyTextList             // ValueError raised by max() on an empty list

  datatype Result<+T> = Ok(value: T) | Err(error: Error)

  /** The outcome of an operation that only changes state. */
  datatype Status = Done | Failed(error: Error)
}
