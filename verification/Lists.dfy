/** Linked lists, shared by the modules that read token streams and prefix notation. */
module Lists {

  datatype List<+T> = Nil | Cons(head: T, tail: List<T>)

  function Append<T>(a: List<T>, b: List<T>): List<T> {
    match a
    case Nil => b
    case Cons(x, rest) => Cons(x, Append(rest, b))
  }

  function Size<T>(list: List<T>): nat {
    match list
    case Nil => 0
    case Cons(_, rest) => 1 + Size(rest)
  }
}
