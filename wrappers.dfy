/** The optional value used wherever the C# source has a nullable reference or `bool?`. */
module Wrappers {

  /** `None` stands for C#'s `null`. */
  datatype Option<+T> = None | Some(value: T)

  /** `xs ?? new List<T>()`: a null collection reads as the empty list. */
  function OrEmpty<T>(xs: Option<seq<T>>): seq<T>
  {
    match xs
    case Some(s) => s
    case None => []
  }
}
