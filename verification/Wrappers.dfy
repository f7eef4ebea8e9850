/** The little that all parts of the model share. */
module Wrappers {
  datatype Option<T> = None | Some(value: T)

  lemma AppendAssoc<T>(a: seq<T>, b: seq<T>, c: seq<T>)
    ensures a + b + c == a + (b + c)
  {
  }

  /** The elements that are to be kept, in their order. */
  ghost function Filter<T(!new)>(s: seq<T>, keep: T -> bool): seq<T> {
    if s == [] then [] else
    Filter(s[..|s| - 1], keep) + if keep(s[|s| - 1]) then [s[|s| - 1]] else []
  }

  lemma {:induction false} FilterAlike<T(!new)>(s: seq<T>, f: T -> bool, g: T -> bool)
    requires forall x :: x in s ==> f(x) == g(x)
    ensures Filter(s, f) == Filter(s, g)
  {
    if s != [] { FilterAlike(s[..|s| - 1], f, g); }
  }
}
