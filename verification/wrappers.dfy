/** The optional value the model uses for missing rows, forms that were not
    submitted and the anonymous session. */
module Wrappers {

  datatype Option<+T> = None | Some(value: T)

}
