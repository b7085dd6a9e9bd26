/** An optional value: `None` stands for Java's `null` and for an operation
    that throws instead of returning. */
module Optional {
  datatype Option<T> = None | Some(value: T)
}
