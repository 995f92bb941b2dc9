/** The optional value used where the source signals "nothing found" with a sentinel. */
module Optional {

  datatype Option<+T> = None | Some(value: T)
}
