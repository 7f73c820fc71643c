/** The state of a file on disk: absent, or present with some content. */
module Options {

  datatype Option<+T> = None | Some(value: T)
}
