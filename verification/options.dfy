/** An optional value: `None` stands for the Java `null` reference. */
module Options {

  datatype Option<+T> = None | Some(value: T)
}
