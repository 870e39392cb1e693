/** Failure-carrying values shared by the modules of the colour converter. */
module Common {

  datatype Option<+T> = None | Some(value: T)

  datatype Result<+T, +E> = Ok(value: T) | Err(error: E)

  /** The exceptions that `convert` and `find_nearest_colour` can raise. */
  datatype Error =
    | EmptyPalette   // `min()` of an empty palette (ValueError)
    | InvalidLiteral // `int(pair, 16)` on a palette line that is not hexadecimal (ValueError)
    | KeyError       // the empty pattern `''` matched, and `''` is not a key of the table
}
