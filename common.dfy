/** Small result types shared by the modules of this model. */
module Common {

  /** Python's `None` or a value. */
  datatype Option<+T> = None | Some(value: T)

  /** A Python call that either returns a value or raises `KeyError(key)`
      from a dictionary lookup. */
  datatype Lookup<+T> = Found(value: T) | KeyError(key: string)
}
