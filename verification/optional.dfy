/** The one wrapper the model needs: a value that may be absent. */
module Optional {

  datatype Option<+T> = None | Some(value: T)
}
