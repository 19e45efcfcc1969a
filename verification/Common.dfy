/** What all parts of the model share. */
module Common {

  /** A pointer, or a table word, that may be zero. */
  datatype Option<+T> = None | Some(value: T)
}
