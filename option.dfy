/** The optional value used where the scanner has "no match" (`None` in the source). */
module Optional {
  datatype Option<+T> = None | Some(value: T)
}
