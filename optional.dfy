/** An optional value; stands for a nullable reference in the engine. */
module Optional {
  datatype Option<+T> = None | Some(value: T)
}
