/** The optional value used wherever the Go code has a nil pointer, a failed
    parse or a skipped item. */
module Optional {

  datatype Option<+T> = None | Some(value: T)
}
