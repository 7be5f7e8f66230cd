/** An optional value: the parent a search records for a cell, `None` for the start. */
module Options {

  datatype Option<T> = None | Some(value: T)
}
