/** Failure-compatible wrappers shared by every module of the model. */
module Wrappers {

  /** `None` stands for JavaScript's `undefined` wherever a value may be absent. */
  datatype Option<+T> = None | Some(value: T) {
    function GetOr(default: T): T {
      match this
      case Some(v) => v
      case None => default
    }
  }

  datatype Result<+T, +E> = Ok(value: T) | Err(error: E)

  /** The exceptions the modelled code can raise. */
  datatype Failure =
    | TypeError      // property read on `null`/`undefined`, missing method
    | ParseError     // the YAML text of a document does not parse
    | NoSuchFile     // a read of a file that is not there
    | WriteRefused   // the file system refused a write
}
