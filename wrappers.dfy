/** The Option type: `None` stands for the `null` that the Java code returns
    from a lookup that finds nothing. */
module Wrappers {

  datatype Option<+T> = None | Some(value: T)
}
