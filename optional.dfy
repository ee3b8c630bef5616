/** Absence of a value: a tool output file that does not exist, a date string that does not parse. */
module Optional {

  datatype Option<+T> = None | Some(value: T)

}
