/** Optional values, used for a spreadsheet row that cannot be turned into a record. */
module Wrappers {

  datatype Option<+T> = None | Some(value: T)
}
