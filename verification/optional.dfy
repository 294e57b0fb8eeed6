/** An optional value: a row a lookup may not find, a key a string may not
    spell. */
module Optional {

  datatype Option<+T> = None | Some(value: T)
}
