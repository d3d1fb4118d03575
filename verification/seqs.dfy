/** Generic facts about sequence concatenation, stated once so that proofs
    over large function bodies can use them without unfolding anything. */
module Seqs {
  /** Splitting off the first element of a non-empty sequence. */
  lemma SplitHead<T>(a: seq<T>, b: seq<T>)
    requires a != []
    ensures a + b == [a[0]] + (a[1..] + b) && a == [a[0]] + a[1..]
  {
  }

  /** Concatenation is associative. */
  lemma AppendAssoc<T>(a: seq<T>, b: seq<T>, c: seq<T>)
    ensures (a + b) + c == a + (b + c)
  {
  }

  /** An element of `[y] + rest` is `y` or an element of `rest`. */
  lemma InCons<T>(x: T, y: T, rest: seq<T>)
    requires x in [y] + rest
    ensures x == y || x in rest
  {
  }
}
