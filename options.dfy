/** An optional value, for results the source reports as `NaN` or leaves undefined. */
module Options {

  datatype Option<+T> = None | Some(value: T)
}
