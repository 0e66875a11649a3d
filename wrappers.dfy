/** The nullable values of the dashboard (a SQL NULL comment) as an Option. */
module Wrappers {

  datatype Option<+T> = None | Some(value: T)
}
