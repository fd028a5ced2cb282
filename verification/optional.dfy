/** A value that may be absent. `None` stands for the source's `null`
    (or a type's `default` value) wherever a nullable value flows. */
module Optional {

  datatype Option<+T> = None | Some(value: T)
}
