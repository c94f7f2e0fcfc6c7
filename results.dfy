/** Optional values and the failures the Python code raises, as values. */
module Results {

  /** A Python argument that may be `None`. */
  datatype Option<+T> = None | Some(value: T)

  /** The exceptions the scoring code can raise.
      - EmptyModel: `list(ngram_counts.keys())[0]` on an empty table (IndexError);
      - NoCandidates: `max` over an empty score map (ValueError);
      - DivisionByZero: a smoothed ratio whose denominator is 0 (ZeroDivisionError);
      - MissingBigramTable: `bigram_counts.get` while `bigram_counts` is `None` (AttributeError). */
  datatype Error = EmptyModel | NoCandidates | DivisionByZero | MissingBigramTable

  datatype Result<+T> = Ok(value: T) | Err(error: Error)
}
