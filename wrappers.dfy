/** PHP's null and JavaScript's undefined, where the plugin lets them through. */
module Wrappers {
  datatype Option<+T> = None | Some(value: T)
}
