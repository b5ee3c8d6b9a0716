/** Java's nullable references (`Integer`, a lookup that may miss, a
    parse that may throw) are modelled with an explicit Option. */
module Wrappers {

  datatype Option<+T> = None | Some(value: T)
}
