/** An optional value: the model's stand-in for C#'s nullable references. */
module Optional {

  datatype Option<+T> = None | Some(value: T)
}
