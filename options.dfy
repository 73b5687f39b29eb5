/** The optional value the questionnaire code expresses with Python's `None`. */
module Options {
  datatype Option<+T> = None | Some(value: T)
}
