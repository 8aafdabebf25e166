/** An optional value: an error slot that is empty or holds a message. */
module Optional {

  datatype Option<T> = None | Some(value: T)
}
