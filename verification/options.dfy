/** The Some/None datatype used wherever the source has a nullable value
    (`Date | null` for the picker's endpoints, a missing substring index). */
module Options {

  datatype Option<+T> = None | Some(value: T)
}
