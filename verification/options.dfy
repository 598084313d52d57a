/** The optional value used wherever the source returns `None` or an absent argument. */
module Options {

  datatype Option<+T> = None | Some(value: T)
}
