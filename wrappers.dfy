/** A value that may be absent: the field's stored value before anything was
    saved, a drop outside any target, an edit whose row does not exist. */
module Wrappers {

  datatype Option<T> = None | Some(value: T)
}
