/** The optional value the model's partial functions return, and the one
    fact about sequences that several modules lean on. */
module Wrappers {
  datatype Option<T> = None | Some(value: T)

  /** Regrouping an append; the writers use it to match what they append
      one call at a time with the bytes the codec gives as one piece, and
      the error text to regroup the lines it joins. */
  lemma Assoc<T>(w: seq<T>, a: seq<T>, b: seq<T>)
    ensures w + a + b == w + (a + b)
  {
  }
}
