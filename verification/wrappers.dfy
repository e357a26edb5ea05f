/** Optional values: an empty shared pointer, an unattached deleter, a search that found nothing. */
module Wrappers {

  datatype Option<+T> = None | Some(value: T)
}
