/** The optional value used where the watcher's data may be absent. */
module Optional {

  datatype Option<+T> = None | Some(value: T)
}
