/** Shapes shared by the state-machine models. */
module Common {

  datatype Option<+T> = None | Some(value: T)

  /** A call that returns a value or raises; which exception it raises does not matter. */
  datatype Result<+T> = Ok(value: T) | Refused

  function SetOf<T(==, !new)>(s: seq<T>): (r: set<T>)
    ensures forall x :: x in r <==> x in s
  {
    set x | x in s
  }
}
