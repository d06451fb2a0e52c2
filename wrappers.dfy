/** Optional values: `None` stands for a Python call that raises instead of returning. */
module Wrappers {

  datatype Option<+T> = None | Some(value: T)

}
