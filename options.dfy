/** The optional value that the program's functions return for "no result". */
module Options {

  datatype Option<+T> = None | Some(value: T)
}
