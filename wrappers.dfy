/** The Option type used for values that may be absent (statistics that the
    data source did not return, a kickoff time that could not be parsed). */
module Wrappers {

  datatype Option<+T> = None | Some(value: T)
}
