/** The optional value used wherever Python returns `None` for "no result". */
module Optional {

  datatype Option<+T> = None | Some(value: T)
}
