/** The optional value used where the source either produces a value or does not
    (a regex that finds no match, a geometry call that raises). */
module Optional {

  datatype Option<+T> = None | Some(value: T)
}
