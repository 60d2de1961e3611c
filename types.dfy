/** Values shared by the retrieval side and the scraping side of the pipeline. */
module Types {

  /** A value that may be missing (Python's `None`). */
  datatype Option<+T> = None | Some(value: T)

  /** The outcome of an operation that raises in the source. */
  datatype Result<+T, +E> = Ok(value: T) | Err(error: E)

  /** One question/answer record: a dict with the keys "question" and "answer". */
  datatype QaPair = QaPair(question: string, answer: string)

  /** Regrouping a concatenation; stated once so that long proofs can cite it. */
  lemma AppendAssoc<T>(a: seq<T>, b: seq<T>, c: seq<T>)
    ensures a + b + c == a + (b + c)
  {
  }

  /** Positions moved one place to the right, as when a sequence gains a new head. */
  function Shift(idx: seq<nat>): (r: seq<nat>)
    ensures |r| == |idx| && forall k :: 0 <= k < |idx| ==> r[k] == idx[k] + 1
  {
    seq(|idx|, k requires 0 <= k < |idx| => idx[k] + 1)
  }
}
