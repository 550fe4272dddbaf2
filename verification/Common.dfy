/** Small shared vocabulary: optional values. */
module Common {
  datatype Option<+T> = None | Some(value: T)
}
