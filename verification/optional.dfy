/** The usual Some/None wrapper, used for lookups that may miss and for a
    settings record that may not have been stored yet. */
module Optional {

  datatype Option<+T> = None | Some(value: T)
}
