// The optional value used wherever the cleaner's Python code returns or tests `None`.
module Options {

  datatype Option<+T> = None | Some(value: T)
}
