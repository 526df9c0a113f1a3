/** The optional value that lookups and decoders return. */
module Options {

  datatype Option<+T> = None | Some(value: T)
}
