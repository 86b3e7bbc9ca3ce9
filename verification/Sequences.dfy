/** Concatenation regrouped; the verifier does not do so unprompted. */
module Sequences {
  lemma {:induction false} AppendAssoc<T>(a: seq<T>, b: seq<T>, c: seq<T>)
    ensures a + (b + c) == (a + b) + c
  {
  }

  /** An element goes over from what is left to what is done. */
  lemma {:induction false} OneFurther<T>(done: seq<T>, x: T, rest: seq<T>)
    ensures done + ([x] + rest) == (done + [x]) + rest
  {
  }
}
