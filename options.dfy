/** The usual optional value: `None` stands for a call that raised or a dialog
    that returned nothing. */
module Options {

  datatype Option<+T> = None | Some(value: T)
}
