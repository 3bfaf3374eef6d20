/** The optional value the model uses wherever the source signals failure
    with a null pointer, a negative return or a missing entry. */
module Wrappers {
  datatype Option<T> = None | Some(value: T)
}
