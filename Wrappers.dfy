/** The optional value used for lookups that may find nothing and for partial text operations. */
module Wrappers {

  datatype Option<+T> = None | Some(value: T)

  /** Prefixes `p` to the string inside an `Option`, keeping `None`. */
  function Prepend(p: string, o: Option<string>): Option<string>
  {
    match o
    case None => None
    case Some(s) => Some(p + s)
  }
}
