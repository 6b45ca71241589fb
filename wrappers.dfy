/** Optional values and results shared by every module of the model, and
    the regrouping of concatenations the proofs use. */
module Wrappers {

  datatype Option<+T> = None | Some(value: T)

  datatype Result<+T, +E> = Ok(value: T) | Err(error: E)

  /** Concatenation regrouped, for a proof whose sequences are terms the
      solver would otherwise unfold. */
  lemma Concat3<X>(a: seq<X>, b: seq<X>, c: seq<X>)
    ensures a + b + c == a + (b + c)
  {
  }

  lemma Concat4<X>(a: seq<X>, b: seq<X>, c: seq<X>, d: seq<X>)
    ensures a + b + c + d == a + (b + c + d)
    ensures a + b + (c + d) == a + (b + c + d)
    ensures (a + b) + (c + d) == a + ((b + c) + d)
  {
  }
}
