/** Optional values: a JavaScript `null` result (a missing file, a failed
    `toBlob`, an unset max width) becomes `None`. */
module Wrappers {
  datatype Option<+T> = None | Some(value: T)
}
