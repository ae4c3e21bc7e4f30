/** The Option type used where the Python code signals failure with an exception
    (an IndexError in the varint decoder) or returns None (the field locator). */
module Wrappers {

  datatype Option<+T> = None | Some(value: T)
}
