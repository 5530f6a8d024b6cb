/** The optional value used wherever the source has a null handle or an unset result. */
module Options {
  datatype Option<+T> = None | Some(value: T)

  /** Concatenation regroups freely; stated once so that long proofs need not rediscover it. */
  lemma AppendAssoc<T>(a: seq<T>, b: seq<T>, c: seq<T>)
    ensures (a + b) + c == a + (b + c)
  {
  }
}
