/** The conventional Some/None datatype, used where the source would return
    `None` or raise a lookup error. */
module Optional {

  datatype Option<+T> = None | Some(value: T)

}
