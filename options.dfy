/** The optional value used throughout the model: an absent JavaScript
    value (`undefined`, `null`, or a falsy value where the code tests
    truthiness) is `None`. */
module Options {

  datatype Option<+T> = None | Some(value: T)
}
