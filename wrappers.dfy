/** The optional value used wherever the scraper returns `None` or may find nothing. */
module Wrappers {
  datatype Option<+T> = None | Some(value: T)
}
