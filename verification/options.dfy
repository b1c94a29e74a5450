/** A value that may be absent: the model of a C# nullable reference such as `string?`. */
module Options {

  datatype Option<+T> = None | Some(value: T)
}
