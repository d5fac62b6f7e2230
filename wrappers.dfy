module Wrappers {

  /** An optional value: the listbox selection is either empty or one row. */
  datatype Option<+T> = None | Some(value: T)
}
