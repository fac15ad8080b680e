/** An optional value, shared by the games and the page. */
module Optional {

  datatype Option<T> = None | Some(value: T)
}
