/** The optional-value datatype used for "index or not found" results
    (Go's `-1` sentinel) throughout the model. */
module Options {

  datatype Option<+T> = None | Some(value: T)
}
