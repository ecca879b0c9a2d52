/** Optional values: the model's stand-in for a Python call that may raise. */
module Options {

  datatype Option<+T> = None | Some(value: T)
}
