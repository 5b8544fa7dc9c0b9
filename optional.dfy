/** A value that may be absent: the preview start and length are only known once their tags are seen. */
module Optional {
  datatype Option<+T> = None | Some(value: T)
}
