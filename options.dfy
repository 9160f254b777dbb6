/** The optional value used for the source's error paths (a thrown exception, an empty queue). */
module Options {

  datatype Option<T> = None | Some(value: T)
}
