/** Small facts about sequence concatenation, stated once so that the proofs elsewhere can
    name the step they need instead of asking the solver to rediscover it. */
module Sequences {
  /** Splitting off the head commutes with appending at the end. */
  lemma {:induction false} ConsSnoc<T>(a: seq<T>, x: T)
    requires a != []
    ensures [a[0]] + (a[1..] + [x]) == a + [x]
  {
  }

  lemma {:induction false} ConcatAssoc<T>(a: seq<T>, b: seq<T>, c: seq<T>)
    ensures (a + b) + c == a + (b + c)
  {
  }

  lemma {:induction false} AppendEmpty<T>(a: seq<T>)
    ensures a + [] == a
  {
  }

  /** Appending a non-empty sequence is appending its front, then its last element. */
  lemma {:induction false} SplitLast<T>(a: seq<T>, b: seq<T>)
    requires b != []
    ensures a + b == (a + b[..|b| - 1]) + [b[|b| - 1]]
  {
    assert b == b[..|b| - 1] + [b[|b| - 1]];
  }
}
