/** The null-or-value shape that C# expresses with a nullable reference. */
module Options {
  datatype Option<+T> = None | Some(value: T)
}
