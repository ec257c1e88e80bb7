/** The optional value that stands for Kotlin's nullable references (`Contact?`, `NavDestination?`). */
module Wrappers {

  datatype Option<+T> = None | Some(value: T)
}

/** Order-preserving sub-lists, used to say what filtering and deleting keep. */
module Seqs {

  /** `sub` can be obtained from `s` by dropping elements, without reordering the rest. */
  predicate IsSubsequence<T(==)>(sub: seq<T>, s: seq<T>)
    decreases |s|
  {
    sub == [] ||
    (s != [] && ((sub[0] == s[0] && IsSubsequence(sub[1..], s[1..])) || IsSubsequence(sub, s[1..])))
  }
}
