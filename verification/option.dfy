/** An optional value: the detected face, and the dominant region when there is one. */
module Optional {

  datatype Option<+T> = None | Some(value: T)
}
