/** The optional-value datatype shared by the model: `None` stands for JavaScript's
    `null`/`undefined` wherever the JavaScript code tests a value for presence. */
module Wrappers {

  datatype Option<+T> = None | Some(value: T) {

    /** The value, or `default` when absent. */
    function GetOr(default: T): T {
      match this
      case Some(v) => v
      case None => default
    }
  }
}
