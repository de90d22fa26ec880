/** Java's nullable references: a property that is not set, or a lookup that found nothing. */
module Wrappers {

  datatype Option<+T> = None | Some(value: T)
}
