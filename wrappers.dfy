/** The optional-value datatype used for the source's failure paths (a `stoi` that throws,
    an address whose cell holds no integer, an evaluation that breaks off). */
module Wrappers {

  datatype Option<+T> = None | Some(value: T)
}
