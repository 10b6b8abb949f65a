/** The optional value used wherever the plugin returns `None` or skips a step. */
module Options {

  datatype Option<+T> = None | Some(value: T)
}
