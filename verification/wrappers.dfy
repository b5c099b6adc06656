/** The optional-value type used for columns a dataset may lack and for
    prompts that may run out of answers. */
module Wrappers {
  datatype Option<+T> = None | Some(value: T)
}
