/** The optional value used wherever the application may or may not have something:
    an absent JSON key, a date string that does not parse, a DOM lookup that finds nothing. */
module Wrappers {

  datatype Option<+T> = None | Some(value: T)
}
