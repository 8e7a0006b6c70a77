/** The optional value the source writes as `None` or a plain value. */
module Options {

  datatype Option<T> = None | Some(value: T)

}
