/** The Some/None wrapper used for lookups that may raise and for searches that may miss. */
module Optional {

  datatype Option<+T> = None | Some(value: T)
}
