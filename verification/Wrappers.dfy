module Wrappers {
  datatype Option<+T> = None | Some(value: T)

  function Mapped<T, U>(items: seq<T>, f: T -> U): (images: seq<U>)
    ensures |images| == |items|
    ensures forall i :: 0 <= i < |images| ==> images[i] == f(items[i])
  {
    seq(|items|, i requires 0 <= i < |items| => f(items[i]))
  }
}
