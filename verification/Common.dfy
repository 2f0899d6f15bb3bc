/** What several modules share. */
module Common {
  datatype Option<T> = None | Some(value: T)

  /** The name of a table or a column. */
  datatype Name = Name(text: string)
}
