/** The optional value the source writes as `number | null` or `boolean | null`. */
module Options {
  datatype Option<T> = None | Some(value: T)
}
