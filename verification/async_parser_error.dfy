/**
  The error tally of the batch summarizer: only a count, because line
  numbers are not known inside a batch.
 */
module AsyncParserError {
  datatype AsyncBatchReaderParserError = AsyncBatchReaderParserError(errors: nat)

  /** The number of failed lines. */
  function TotalErrors(e: AsyncBatchReaderParserError): nat
  {
    e.errors
  }

  /** No failures yet. */
  function Default(): (e: AsyncBatchReaderParserError)
    ensures TotalErrors(e) == 0
  {
    AsyncBatchReaderParserError(0)
  }

  /** Register `error` more failures; the mapper always passes 1. */
  function Accumulate(e: AsyncBatchReaderParserError, error: nat): (r: AsyncBatchReaderParserError)
    ensures TotalErrors(r) == TotalErrors(e) + error
  {
    AsyncBatchReaderParserError(e.errors + error)
  }

  /** Merge another tally into this one: the counts add up. */
  function Combine(e: AsyncBatchReaderParserError, other: AsyncBatchReaderParserError): (r: AsyncBatchReaderParserError)
    ensures TotalErrors(r) == TotalErrors(e) + TotalErrors(other)
  {
    AsyncBatchReaderParserError(e.errors + other.errors)
  }

  /** Merging is commutative and associative with unit `Default`, so the
      order in which the reducer receives tallies does not matter. */
  lemma CombineCommutativeMonoid(a: AsyncBatchReaderParserError, b: AsyncBatchReaderParserError, c: AsyncBatchReaderParserError)
    ensures Combine(a, b) == Combine(b, a)
    ensures Combine(Combine(a, b), c) == Combine(a, Combine(b, c))
    ensures Combine(Default(), a) == a
  {
  }
}
