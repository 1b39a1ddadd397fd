/** An optional value: what `parseInt` yields (None stands for NaN) and what
    the payment calculation yields (None stands for a non-finite payment). */
module Options {

  datatype Option<+T> = None | Some(value: T)
}
