/**
  The batch summarizer as a sequential model of its map-reduce. A reader
  cuts the stream into delimiter-aligned batches; a mapper summarizes
  each batch on its own, counting failures instead of numbering them;
  a reducer merges the mappers' summaries in whatever order they arrive.
  The tasks and the channel are not modelled: the reducer's input is any
  ordering of the mappers' outputs.
 */
module AsyncSummarizer {
  import opened Bytes
  import opened Parsers
  import opened Summaries
  import ByteLines
  import BatchReader
  import SyncSummarizer
  import AsyncParserError

  /** The mapper's step on one record: a parsed record adds its bytes to
      its type's entry and nothing else; a rejected one leaves the type map
      and counts one more failure. */
  function Step(parse: Parser, s: Summary, line: seq<byte>): (r: Summary)
    ensures KindOf(r.errors) == KindOf(s.errors)
    ensures parse(line).Parsed? ==> var m := parse(line).meta;
      && r.errors == s.errors
      && Get(r.typeCounts, m.typeName) == Get(s.typeCounts, m.typeName) + m.bytes
      && forall k | k != m.typeName :: Get(r.typeCounts, k) == Get(s.typeCounts, k)
    ensures parse(line).NoTypeParsed? ==> r.typeCounts == s.typeCounts
    ensures parse(line).NoTypeParsed? && s.errors.CountErrors? ==> TotalErrors(r.errors) == TotalErrors(s.errors) + 1
  {
    match parse(line)
    case Parsed(meta) => Accumulate(s, meta)
    case NoTypeParsed => RegisterError(s, 1)
  }

  /** A mapper's summary of a list of records, from an empty summary. Its
      contract only keeps the tally's kind; what it means is stated by
      `AsyncAgreesWithSync` (the same type map and error count as the
      line-by-line fold) and `AsyncFoldAppend` (folding is merging). */
  function AsyncFold(parse: Parser, lines: seq<seq<byte>>): (s: Summary)
    ensures s.errors.CountErrors?
  {
    if |lines| == 0 then New(Counted)
    else Step(parse, AsyncFold(parse, lines[..|lines| - 1]), lines[|lines| - 1])
  }

  lemma AsyncFoldSnoc(parse: Parser, done: seq<seq<byte>>, line: seq<byte>)
    ensures AsyncFold(parse, done + [line]) == Step(parse, AsyncFold(parse, done), line)
  {
    assert (done + [line])[..|done|] == done;
  }

  /** One mapper task: walk the batch's records with the splitter's
      iterator, parse each and fold it into a fresh summary. */
  method Mapper(parse: Parser, delim: byte, data: seq<byte>) returns (summary: Summary)
    ensures summary == AsyncFold(parse, ByteLines.Lines(delim, data))
  {
    summary := New(Counted);
    var it := ByteLines.New(delim, data);
    ghost var done: seq<seq<byte>> := [];
    while true
      invariant it.Valid() && it.delim == delim && it.buf == data
      invariant done + it.Remaining() == ByteLines.Lines(delim, data)
      invariant summary == AsyncFold(parse, done)
      decreases |data| - it.readStart
    {
      var item, next := ByteLines.Next(it);
      if item.None? {
        assert it.Remaining() == [];
        assert done + [] == done;
        return;
      }
      var line := item.value;
      AsyncFoldSnoc(parse, done, line);
      if parse(line).Parsed? {
        summary := Accumulate(summary, parse(line).meta);
      } else {
        summary := RegisterError(summary, 1);
      }
      ByteLines.MoveToDone(done, line, it.Remaining(), next.Remaining());
      done := done + [line];
      it := next;
    }
  }

  /** The summaries the mappers produce, one per batch, in batch order. */
  function MapAll(parse: Parser, delim: byte, batches: seq<seq<byte>>): (r: seq<Summary>)
    ensures |r| == |batches|
    ensures forall i | 0 <= i < |r| :: r[i] == AsyncFold(parse, ByteLines.Lines(delim, batches[i]))
  {
    if |batches| == 0 then []
    else MapAll(parse, delim, batches[..|batches| - 1]) + [AsyncFold(parse, ByteLines.Lines(delim, batches[|batches| - 1]))]
  }

  /** All the summaries carry counting tallies, as the mappers' do. */
  predicate AllCounted(summaries: seq<Summary>)
  {
    forall i | 0 <= i < |summaries| :: summaries[i].errors.CountErrors?
  }

  /** The reducer: merge every received summary, in arrival order, into
      an empty one. The order does not matter (`ReducePermutation`), and
      reducing the mappers' summaries is one pass (`ReduceMapAll`). */
  function Reduce(summaries: seq<Summary>): (s: Summary)
    requires AllCounted(summaries)
    ensures s.errors.CountErrors?
  {
    if |summaries| == 0 then New(Counted)
    else Combine(Reduce(summaries[..|summaries| - 1]), summaries[|summaries| - 1])
  }

  /** The outcome of a run: the reduced summary, or a panic of the reader
      task, which the run reports as a failed join. The reader panics when
      it sizes its list of mapper handles by dividing the file length by a
      zero batch size, and when a batch holds no delimiter. */
  datatype Outcome = Completed(summary: Summary) | ReaderPanicked

  /** A run whose reducer receives the mappers' summaries in batch order;
      any other arrival order gives the same result (`ReduceAnyOrder`).
      A zero batch size panics before the first read. Otherwise the run
      completes exactly when the stream fits (it is empty or ends with the
      delimiter and no record exceeds the batch size), and then its summary
      is a single pass over the stream's records: the same type counts and
      error count as the line-by-line summarizer. */
  function Summarize(parse: Parser, stream: seq<byte>, batchSize: nat, delim: byte): (r: Outcome)
    ensures batchSize == 0 ==> r == ReaderPanicked
    ensures r.Completed? <==> batchSize > 0 && BatchReader.Fits(BatchReader.New(stream, batchSize, delim))
    ensures r.Completed? ==> r.summary == AsyncFold(parse, ByteLines.Lines(delim, stream))
    ensures r.Completed? ==>
      var sync := SyncSummarizer.SyncFold(parse, ByteLines.Lines(delim, stream));
      r.summary.typeCounts == sync.typeCounts && TotalErrors(r.summary.errors) == TotalErrors(sync.errors)
  {
    if batchSize == 0 then
      // the handle preallocation divides the file length by the batch size
      ReaderPanicked
    else
      ReadAllIsOnePass(parse, stream, batchSize, delim);
      AsyncAgreesWithSync(parse, ByteLines.Lines(delim, stream));
      match BatchReader.ReadAll(BatchReader.New(stream, batchSize, delim))
      case Panicked => ReaderPanicked
      case Batches(batches) => Completed(Reduce(MapAll(parse, delim, batches)))
  }

  // The fold is a homomorphism from concatenation to merging.

  /** Merging with the empty summary on the right changes nothing. */
  lemma CombineNewRight(s: Summary)
    requires s.errors.CountErrors?
    ensures Combine(s, New(Counted)) == s
  {
    CombineCommutative(s, New(Counted));
    CombineNewLeft(s);
  }

  /** Folding two record lists one after the other is merging their folds. */
  lemma {:induction false} AsyncFoldAppend(parse: Parser, a: seq<seq<byte>>, b: seq<seq<byte>>)
    ensures AsyncFold(parse, a + b) == Combine(AsyncFold(parse, a), AsyncFold(parse, b))
    decreases |b|
  {
    if |b| == 0 {
      assert a + b == a;
      CombineNewRight(AsyncFold(parse, a));
    } else {
      var n := |b|;
      var init := b[..n - 1];
      assert a + b == (a + init) + [b[n - 1]];
      AsyncFoldSnoc(parse, a + init, b[n - 1]);
      AsyncFoldAppend(parse, a, init);
      StepCombine(parse, AsyncFold(parse, a), AsyncFold(parse, init), b[n - 1]);
    }
  }

  /** A mapper step after a merge is the step before it, on the right. */
  lemma StepCombine(parse: Parser, x: Summary, y: Summary, line: seq<byte>)
    requires KindOf(x.errors) == KindOf(y.errors)
    ensures Step(parse, Combine(x, y), line) == Combine(x, Step(parse, y, line))
  {
    var m := parse(line);
    AccumulateCombine(x, y, if m.Parsed? then m.meta else LogLineMetadata([], 0), 1);
  }

  /** Each batch is non-empty and ends with the delimiter. */
  ghost predicate Aligned(delim: byte, batches: seq<seq<byte>>)
  {
    forall i | 0 <= i < |batches| :: |batches[i]| > 0 && batches[i][|batches[i]| - 1] == delim
  }

  /** Reducing the mappers' summaries of aligned batches, in batch order,
      is folding every record of the batches put together. */
  lemma {:induction false} ReduceMapAll(parse: Parser, delim: byte, batches: seq<seq<byte>>)
    requires Aligned(delim, batches)
    ensures Reduce(MapAll(parse, delim, batches)) == AsyncFold(parse, ByteLines.Lines(delim, Flatten(batches)))
    decreases |batches|
  {
    var n := |batches|;
    if n == 0 {
      assert ByteLines.Lines(delim, []) == [];
    } else {
      var init := batches[..n - 1];
      var last := batches[n - 1];
      assert Aligned(delim, init);
      ReduceMapAll(parse, delim, init);
      var f := Flatten(init);
      FlattenAlignedEnds(delim, init);
      assert Flatten(batches) == f + last;
      ByteLines.LinesAppend(delim, f, last);
      AsyncFoldAppend(parse, ByteLines.Lines(delim, f), ByteLines.Lines(delim, last));
      MapAllSnoc(parse, delim, batches);
    }
  }

  /** Mapping one more batch is reducing one more summary. */
  lemma MapAllSnoc(parse: Parser, delim: byte, batches: seq<seq<byte>>)
    requires |batches| > 0
    ensures var n := |batches|;
      Reduce(MapAll(parse, delim, batches))
      == Combine(Reduce(MapAll(parse, delim, batches[..n - 1])), AsyncFold(parse, ByteLines.Lines(delim, batches[n - 1])))
  {
    var n := |batches|;
    assert MapAll(parse, delim, batches)[..n - 1] == MapAll(parse, delim, batches[..n - 1]);
  }

  /** Aligned batches put together end with the delimiter, unless empty. */
  lemma FlattenAlignedEnds(delim: byte, batches: seq<seq<byte>>)
    requires Aligned(delim, batches)
    ensures var f := Flatten(batches); |f| == 0 || f[|f| - 1] == delim
  {
    var n := |batches|;
    if n > 0 {
      assert Flatten(batches) == Flatten(batches[..n - 1]) + batches[n - 1];
    }
  }

  // The reducer's arrival order does not matter.

  /** Receiving one more summary is one more merge. */
  lemma ReduceSnoc(ss: seq<Summary>, x: Summary)
    requires AllCounted(ss) && x.errors.CountErrors?
    ensures AllCounted(ss + [x])
    ensures Reduce(ss + [x]) == Combine(Reduce(ss), x)
  {
    var t := ss + [x];
    assert t[..|ss|] == ss;
  }

  /** Removing the element at `i` keeps every summary counted. */
  lemma RemoveCounted(ts: seq<Summary>, i: nat)
    requires AllCounted(ts) && i < |ts|
    ensures AllCounted(ts[..i] + ts[i + 1..])
  {
    var rest := ts[..i] + ts[i + 1..];
    forall j | 0 <= j < |rest|
      ensures rest[j] == (if j < i then ts[j] else ts[j + 1])
    {}
  }

  /** Reducing is merging the reduction of the others with any one element. */
  lemma {:induction false} ReduceRemove(ts: seq<Summary>, i: nat)
    requires AllCounted(ts) && i < |ts|
    ensures AllCounted(ts[..i] + ts[i + 1..])
    ensures Reduce(ts) == Combine(Reduce(ts[..i] + ts[i + 1..]), ts[i])
    decreases |ts|
  {
    var n := |ts|;
    RemoveCounted(ts, i);
    var init := ts[..n - 1];
    assert ts == init + [ts[n - 1]];
    RemoveCounted(ts, n - 1);
    assert ts[..n - 1] + ts[n..] == init;
    ReduceSnoc(init, ts[n - 1]);
    if i < n - 1 {
      ReduceRemove(init, i);
      var rest' := init[..i] + init[i + 1..];
      assert ts[..i] + ts[i + 1..] == rest' + [ts[n - 1]];
      ReduceSnoc(rest', ts[n - 1]);
      CombineSwap(Reduce(rest'), ts[i], ts[n - 1]);
    }
  }

  lemma MultisetRemove<T>(ts: seq<T>, i: nat)
    requires i < |ts|
    ensures multiset(ts) == multiset(ts[..i] + ts[i + 1..]) + multiset{ts[i]}
  {
    assert ts == ts[..i] + [ts[i]] + ts[i + 1..];
  }

  /** Any two arrival orders of the same summaries reduce to the same result. */
  lemma {:induction false} ReducePermutation(ss: seq<Summary>, ts: seq<Summary>)
    requires AllCounted(ss) && AllCounted(ts)
    requires multiset(ss) == multiset(ts)
    ensures Reduce(ss) == Reduce(ts)
    decreases |ss|
  {
    var n := |ss|;
    if n == 0 {
      assert |ts| == |multiset(ts)| == 0;
    } else {
      var x := ss[n - 1];
      var init := ss[..n - 1];
      assert ss == init + [x];
      RemoveCounted(ss, n - 1);
      assert ss[..n - 1] + ss[n..] == init;
      ReduceSnoc(init, x);
      assert x in multiset(ts);
      var i :| 0 <= i < |ts| && ts[i] == x;
      ReduceRemove(ts, i);
      var rest := ts[..i] + ts[i + 1..];
      MultisetRemove(ts, i);
      MultisetRemove(ss, n - 1);
      assert multiset(init) == multiset(ss) - multiset{x};
      assert multiset(rest) == multiset(ts) - multiset{x};
      ReducePermutation(init, rest);
    }
  }

  // The headline: the batch summarizer agrees with a single pass.

  /** Folding with counted failures and folding with numbered failures
      give the same type counts and the same number of errors. */
  lemma {:induction false} AsyncAgreesWithSync(parse: Parser, lines: seq<seq<byte>>)
    ensures AsyncFold(parse, lines).typeCounts == SyncSummarizer.SyncFold(parse, lines).typeCounts
    ensures TotalErrors(AsyncFold(parse, lines).errors) == TotalErrors(SyncSummarizer.SyncFold(parse, lines).errors)
  {
    if |lines| > 0 {
      AsyncAgreesWithSync(parse, lines[..|lines| - 1]);
    }
  }

  /** With a non-zero batch size the reader completes exactly when the
      stream fits, and reducing the mappers' summaries of its batches is a
      single pass over the stream's records. */
  lemma ReadAllIsOnePass(parse: Parser, stream: seq<byte>, batchSize: nat, delim: byte)
    ensures var o := BatchReader.ReadAll(BatchReader.New(stream, batchSize, delim));
      batchSize > 0 ==>
        && (o.Batches? <==> BatchReader.Fits(BatchReader.New(stream, batchSize, delim)))
        && (o.Batches? ==> Reduce(MapAll(parse, delim, o.batches)) == AsyncFold(parse, ByteLines.Lines(delim, stream)))
  {
    if batchSize > 0 {
      var r := BatchReader.New(stream, batchSize, delim);
      BatchReader.ReadAllCompletesIff(r);
      var o := BatchReader.ReadAll(r);
      if o.Batches? {
        assert Aligned(delim, o.batches) by {
          forall i | 0 <= i < |o.batches|
            ensures |o.batches[i]| > 0 && o.batches[i][|o.batches[i]| - 1] == delim
          {
            assert o.batches[i] in o.batches;
          }
        }
        ReduceMapAll(parse, delim, o.batches);
      }
    }
  }

  /** Whatever order the mappers' summaries reach the reducer in, the
      result is the single pass over the stream's records. */
  lemma ReduceAnyOrder(parse: Parser, stream: seq<byte>, batchSize: nat, delim: byte, arrived: seq<Summary>)
    requires batchSize > 0
    requires BatchReader.ReadAll(BatchReader.New(stream, batchSize, delim)).Batches?
    requires var batches := BatchReader.ReadAll(BatchReader.New(stream, batchSize, delim)).batches;
      multiset(arrived) == multiset(MapAll(parse, delim, batches))
    ensures AllCounted(arrived)
    ensures Reduce(arrived) == AsyncFold(parse, ByteLines.Lines(delim, stream))
  {
    var batches := BatchReader.ReadAll(BatchReader.New(stream, batchSize, delim)).batches;
    var mapped := MapAll(parse, delim, batches);
    assert AllCounted(arrived) by {
      forall j | 0 <= j < |arrived|
        ensures arrived[j].errors.CountErrors?
      {
        assert arrived[j] in multiset(mapped);
        var k :| 0 <= k < |mapped| && mapped[k] == arrived[j];
      }
    }
    ReducePermutation(arrived, mapped);
    ReadAllIsOnePass(parse, stream, batchSize, delim);
  }
}
