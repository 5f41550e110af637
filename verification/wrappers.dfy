/** The optional value used for absent form fields, NULL columns and failed parses. */
module Wrappers {

  datatype Option<+T> = None | Some(value: T)
}
