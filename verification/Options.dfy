module Options {

  datatype Option<T> = Some(value: T) | None
}
