/** An optional value: `None` stands for a NULL pointer or a failed request. */
module Options {

  datatype Option<T> = None | Some(value: T)
}
