/** The optional value used wherever the parser has "a match or none" or a
    "current section or none". */
module Optional {

  datatype Option<+T> = None | Some(value: T)
}
