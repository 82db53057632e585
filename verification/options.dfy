/** The Some/None datatype used wherever the server either produces a value
    or throws (a failed regex match, a process that never starts). */
module Options {

  datatype Option<+T> = None | Some(value: T)

}
