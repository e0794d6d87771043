/** Optional values, the Java exceptions the board can raise, and results that carry them. */
module Outcomes {

  datatype Option<+T> = None | Some(value: T)

  /** The exceptions of the source that the model makes visible as values. */
  datatype Exception =
    | NoSuchElement            // select on an image that is not on the current page
    | NullPointer              // getCategory while no category is current
    | StringIndexOutOfBounds   // charAt(0) on a blank line while reading a file
    | ArrayIndexOutOfBounds    // tokens[1] on a line without whitespace while reading a file
    | FileNotFound             // the file to read does not exist

  datatype Result<+T> = Ok(value: T) | Err(error: Exception)
}
