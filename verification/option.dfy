/** An optional value; `None` stands for Ruby's `nil` wherever a lookup can miss. */
module Optional {
  datatype Option<T> = None | Some(value: T)
}
