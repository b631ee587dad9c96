/** The usual optional value: stands for JavaScript's `null` where the
    source stores "no value yet" in a variable. */
module Options {
  datatype Option<+T> = None | Some(value: T)
}
