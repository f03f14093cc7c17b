/** An optional value: what `querySelector` or `files[0]` gives when nothing is there. */
module Options {
  datatype Option<T> = None | Some(value: T)
}
