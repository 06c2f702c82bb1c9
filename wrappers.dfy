/** Optional values: the engine's `null` (a missing `next` leaf, a search miss,
    a child insert that did not split). */
module Wrappers {

  datatype Option<+T> = None | Some(value: T)

}
