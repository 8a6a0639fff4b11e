/** The optional value used for the nullable slots of the component
    (`deletingId`, a reply's `data`, the outcome of the URL parser). */
module Wrappers {

  datatype Option<+T> = None | Some(value: T)
}
