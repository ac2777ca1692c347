/** The optional-value type used wherever the client may have nothing: a JSON
    body that failed to parse, a `parseInt` that produced `NaN`, a run with no
    history load in it. */
module Wrappers {

  datatype Option<+T> = None | Some(value: T)
}
