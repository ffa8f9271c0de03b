/** The Some/None datatype: `None` stands for the NULL that the C code returns
    when an allocation fails or a lookup finds nothing. */
module Wrappers {

  datatype Option<+T> = None | Some(value: T)
}
