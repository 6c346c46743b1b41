/** The optional value used wherever the C++ builder has a possibly-null pointer, the
    controller a map lookup that can miss, or the Python front end a call that can raise. */
module Wrappers {
  datatype Option<+T> = None | Some(value: T)
  {
    function GetOr(default: T): T
    {
      match this
      case Some(v) => v
      case None => default
    }
  }
}
