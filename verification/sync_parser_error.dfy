/**
  The error tally of the line-by-line summarizer: the numbers of the lines
  that failed to parse, in the order they were registered.
 */
module SyncParserError {
  datatype BufReaderParserError = BufReaderParserError(errorLines: seq<nat>)

  /** The number of failed lines. */
  function TotalErrors(e: BufReaderParserError): nat
  {
    |e.errorLines|
  }

  /** No failures yet. */
  function Default(): (e: BufReaderParserError)
    ensures TotalErrors(e) == 0
  {
    BufReaderParserError([])
  }

  /** Register a failure on line `error`: it is appended after every line
      registered before it, and the count grows by one. */
  function Accumulate(e: BufReaderParserError, error: nat): (r: BufReaderParserError)
    ensures TotalErrors(r) == TotalErrors(e) + 1
    ensures r.errorLines[..TotalErrors(e)] == e.errorLines
    ensures r.errorLines[TotalErrors(e)] == error
  {
    BufReaderParserError(e.errorLines + [error])
  }

  /** Merge another tally into this one: its lines come after ours. The
      counts add up and no line is lost or duplicated. */
  function Combine(e: BufReaderParserError, other: BufReaderParserError): (r: BufReaderParserError)
    ensures TotalErrors(r) == TotalErrors(e) + TotalErrors(other)
    ensures r.errorLines[..TotalErrors(e)] == e.errorLines
    ensures r.errorLines[TotalErrors(e)..] == other.errorLines
    ensures multiset(r.errorLines) == multiset(e.errorLines) + multiset(other.errorLines)
  {
    BufReaderParserError(e.errorLines + other.errorLines)
  }

  /** Merging is associative and `Default` is its unit on both sides. */
  lemma CombineMonoid(a: BufReaderParserError, b: BufReaderParserError, c: BufReaderParserError)
    ensures Combine(Combine(a, b), c) == Combine(a, Combine(b, c))
    ensures Combine(Default(), a) == a && Combine(a, Default()) == a
  {
    assert (a.errorLines + b.errorLines) + c.errorLines == a.errorLines + (b.errorLines + c.errorLines);
    assert [] + a.errorLines == a.errorLines;
    assert a.errorLines + [] == a.errorLines;
  }

  /** Merging is not commutative: the order of the lines depends on the
      order of the merge. Only the multiset of lines, which is what the
      sorted error display shows, is order-independent. */
  lemma CombineOrderMatters()
    ensures Combine(BufReaderParserError([0]), BufReaderParserError([1]))
         != Combine(BufReaderParserError([1]), BufReaderParserError([0]))
  {
    assert Combine(BufReaderParserError([0]), BufReaderParserError([1])).errorLines[0] == 0;
  }
}
