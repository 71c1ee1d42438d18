/** The Option type used for values the source may leave missing or
    unparsable (`NaN` from `parseInt`, an index `findIndex` did not find,
    a backup file that did not parse). */
module Wrappers {

  datatype Option<+T> = None | Some(value: T)
}
