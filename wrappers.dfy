/** The optional value used wherever the source works with a value that may be
    missing: an absent attribute, an absent storage entry, a lookup that finds
    nothing, a repair that finds nothing to do. */
module Wrappers {

  datatype Option<+T> = None | Some(value: T)
}
