/** An optional value: a search that may find nothing, an offset that may not exist. */
module Options {

  datatype Option<+T> = None | Some(value: T)
}
