/** The Python exceptions the modelled scripts can raise, as values. */
module Errors {

  /** The exception kinds that the grid code raises on bad input. */
  datatype Error =
    | IndexError         // `self.grid[0]` on a grid with no rows, a row that is too short
    | ZeroDivisionError  // `i // 0`, `total / 0`, `sum([]) / len([])`
    | ValueError         // `int(c)` on a character that is not a decimal digit

  /** The outcome of an operation that returns nothing but may raise. */
  datatype Status = Done | Failed(error: Error)

  /** The outcome of an operation that returns a value or raises. */
  datatype Result<T> = Ok(value: T) | Err(error: Error)
}
