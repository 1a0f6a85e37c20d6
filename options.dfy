/** The usual optional-value datatype; the indexer uses it for Python's `None`. */
module Options {

  datatype Option<+T> = None | Some(value: T)
}
