/** The optional value used wherever the application can come back with nothing. */
module Wrappers {

  datatype Option<+T> = None | Some(value: T)
}

/** Facts about sequences used by several proofs. */
module Seqs {

  lemma AppendAssoc<T>(a: seq<T>, b: seq<T>, c: seq<T>)
    ensures (a + b) + c == a + (b + c)
  {
  }

  /** Moving the head of the rest onto what comes before it keeps the whole. */
  lemma ShiftHead<T>(before: seq<T>, head: seq<T>, rest: seq<T>, whole: seq<T>)
    requires before + (head + rest) == whole
    ensures (before + head) + rest == whole
  {
    AppendAssoc(before, head, rest);
  }
}
