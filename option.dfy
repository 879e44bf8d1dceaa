/** The optional value that stands for JavaScript's `null` / `undefined`. */
module Options {
  datatype Option<T> = None | Some(value: T)
}
