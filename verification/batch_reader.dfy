/**
  The batch boundary reader. Each call takes the remainder carried over
  from the previous call, tops it up from the stream to at most
  `bufferSize` bytes, and cuts the batch just after the last delimiter;
  the bytes after that cut become the next remainder. The stream is an
  in-memory byte sequence with a read position.
 */
module BatchReader {
  import opened Bytes
  import opened ByteLines

  /** Index of the last delimiter in a non-empty buffer, scanning backwards
      from its last byte. The source starts from `buf.len() - 1`, which
      underflows on an empty buffer, hence the requires. */
  function LastDelim(buf: seq<byte>, delim: byte): (r: Option<nat>)
    requires |buf| > 0
    ensures r.Some? ==> r.value < |buf| && buf[r.value] == delim && delim !in buf[r.value + 1..]
    ensures r.None? <==> delim !in buf
  {
    LastDelimFrom(buf, delim, |buf| - 1)
  }

  /** The backwards scan at index `i`; no delimiter lies after `i`. */
  function LastDelimFrom(buf: seq<byte>, delim: byte, i: nat): (r: Option<nat>)
    requires i < |buf|
    requires delim !in buf[i + 1..]
    ensures r.Some? ==> r.value <= i && buf[r.value] == delim && delim !in buf[r.value + 1..]
    ensures r.None? <==> delim !in buf
    decreases i
  {
    if buf[i] == delim then Some(i)
    else if i == 0 then
      assert buf == [buf[0]] + buf[1..];
      None
    else
      assert buf[i..] == [buf[i]] + buf[i + 1..];
      LastDelimFrom(buf, delim, i - 1)
  }

  /** The reader: the stream and how far it has been read, the carried
      remainder, the batch size and the delimiter. */
  datatype BatchReader = BatchReader(stream: seq<byte>, pos: nat, remainder: seq<byte>, bufferSize: nat, delimiter: byte)
  {
    /** What `read_batch` needs to run: the read position lies within the
        stream and the remainder fits the buffer, so the top-up size
        `bufferSize - |remainder|` is not negative. */
    predicate WellSized()
    {
      pos <= |stream| && |remainder| <= bufferSize
    }

    /** What every reachable reader satisfies: well sized, and the
        remainder holds no delimiter. */
    ghost predicate Valid()
    {
      WellSized() && delimiter !in remainder
    }

    /** The bytes not yet returned in any batch. */
    function Pending(): seq<byte>
      requires pos <= |stream|
    {
      remainder + stream[pos..]
    }

    /** The bytes the next call holds before cutting: the first
        `bufferSize` pending bytes, or all of them if fewer. */
    ghost function Window(): seq<byte>
      requires pos <= |stream|
    {
      var p := Pending();
      if bufferSize < |p| then p[..bufferSize] else p
    }
  }

  /** A reader at the start of `stream`, with an empty remainder. */
  function New(stream: seq<byte>, bufferSize: nat, delimiter: byte): (r: BatchReader)
    ensures r.Valid() && r.Pending() == stream
    ensures r.stream == stream && r.bufferSize == bufferSize && r.delimiter == delimiter
  {
    assert stream[0..] == stream;
    BatchReader(stream, 0, [], bufferSize, delimiter)
  }

  /** The outcome of one `read_batch` call: a batch and the reader after
      it, no more data, or the panic of unwrapping a missing delimiter. */
  datatype ReadOutcome =
    | Batch(batch: seq<byte>, next: BatchReader)
    | EndOfData(next: BatchReader)
    | NoDelimiterPanic

  /** How many bytes `read_to_end` appends through `take(bufferSize -
      |remainder|)`: that many, or whatever is left of the stream. The
      topped-up buffer is then exactly the window (`TopUpIsWindow`). */
  function TopUpLen(r: BatchReader): (n: nat)
    requires r.WellSized()
    ensures r.pos + n <= |r.stream| && |r.remainder| + n <= r.bufferSize
  {
    var limit := r.bufferSize - |r.remainder|;
    if limit < |r.stream| - r.pos then limit else |r.stream| - r.pos
  }

  /** The remainder topped up from the stream is the window. */
  lemma TopUpIsWindow(r: BatchReader)
    requires r.WellSized()
    ensures r.remainder + r.stream[r.pos..r.pos + TopUpLen(r)] == r.Window()
  {
    var n := TopUpLen(r);
    assert r.Pending()[..|r.remainder| + n] == r.remainder + r.stream[r.pos..r.pos + n];
  }

  /** What a returned batch means for the reader: the next reader is valid
      and reads the same stream the same way, and the batch is a non-empty
      run of pending bytes, at most a buffer long, ending with the
      delimiter, that the next reader no longer holds. */
  ghost predicate Advances(r: BatchReader, batch: seq<byte>, next: BatchReader)
    requires r.pos <= |r.stream|
  {
    && next.Valid()
    && next.stream == r.stream
    && next.bufferSize == r.bufferSize
    && next.delimiter == r.delimiter
    && 0 < |batch| <= r.bufferSize
    && batch[|batch| - 1] == r.delimiter
    && r.Pending() == batch + next.Pending()
  }

  /** The cut of a topped-up buffer (the remainder plus the next `n`
      stream bytes) just after its last delimiter, at `d`: the batch is the
      buffer up to and including `d`, the new remainder the rest of it. */
  function CutAfter(r: BatchReader, n: nat, d: nat): (o: ReadOutcome)
    requires r.WellSized() && r.pos + n <= |r.stream| && |r.remainder| + n <= r.bufferSize
    requires var buffer := r.remainder + r.stream[r.pos..r.pos + n];
      d < |buffer| && buffer[d] == r.delimiter && r.delimiter !in buffer[d + 1..]
    ensures o.Batch? && Advances(r, o.batch, o.next)
    ensures var buffer := r.remainder + r.stream[r.pos..r.pos + n];
      && |o.batch| <= |buffer|
      && o.batch == buffer[..|o.batch|]
      && r.delimiter !in buffer[|o.batch|..]
  {
    var buffer := r.remainder + r.stream[r.pos..r.pos + n];
    var next := r.(pos := r.pos + n, remainder := buffer[d + 1..]);
    assert buffer[..d + 1] + buffer[d + 1..] == buffer;
    assert r.Pending() == buffer + r.stream[r.pos + n..];
    assert buffer[..d + 1][d] == r.delimiter;
    CutIsPrefix(buffer, r.delimiter, d, buffer[..d + 1]);
    Batch(buffer[..d + 1], next)
  }

  /** One `read_batch` call. The remainder is swapped out, topped up with
      the next `min(bufferSize - |remainder|, unread)` stream bytes, and
      the batch is cut just after its last delimiter. */
  function ReadBatch(r: BatchReader): (o: ReadOutcome)
    requires r.WellSized()
    ensures o.EndOfData? ==> o.next == r
    ensures o.Batch? ==> Advances(r, o.batch, o.next)
    ensures o.Batch? ==> var buffer := r.remainder + r.stream[r.pos..r.pos + TopUpLen(r)];
      && |o.batch| <= |buffer|
      && o.batch == buffer[..|o.batch|]
      && r.delimiter !in buffer[|o.batch|..]
  {
    var n := TopUpLen(r);
    var buffer := r.remainder + r.stream[r.pos..r.pos + n];
    if |buffer| == 0 then
      // nothing was taken from the stream and the remainder was empty
      EndOfData(r)
    else
      match LastDelim(buffer, r.delimiter)
      case None => NoDelimiterPanic
      case Some(d) => CutAfter(r, n, d)
  }

  /** There is no more data exactly when the window is empty: the
      remainder is empty and the stream is used up or the buffer size is
      zero. */
  lemma ReadBatchEndsIff(r: BatchReader)
    requires r.WellSized()
    ensures ReadBatch(r).EndOfData? <==> |r.Window()| == 0
    ensures ReadBatch(r).EndOfData? <==> |r.remainder| == 0 && (r.pos == |r.stream| || r.bufferSize == 0)
  {
    TopUpIsWindow(r);
  }

  /** The unwrap panics exactly when the window is non-empty and holds
      no delimiter. */
  lemma ReadBatchPanicsIff(r: BatchReader)
    requires r.WellSized()
    ensures ReadBatch(r).NoDelimiterPanic? <==> |r.Window()| > 0 && r.delimiter !in r.Window()
  {
    TopUpIsWindow(r);
  }

  /** Where `read_batch` cuts: the batch is the window up to and including
      its last delimiter, and the window beyond the cut holds no delimiter. */
  lemma ReadBatchCutsWindow(r: BatchReader)
    requires r.WellSized()
    ensures var o := ReadBatch(r);
      o.Batch? ==> && |o.batch| <= |r.Window()|
                   && o.batch == r.Window()[..|o.batch|]
                   && r.delimiter !in r.Window()[|o.batch|..]
  {
    TopUpIsWindow(r);
  }

  /** Cutting a buffer after `d`, its last delimiter, leaves a prefix and
      a delimiter-free rest. */
  lemma CutIsPrefix(buffer: seq<byte>, delim: byte, d: nat, batch: seq<byte>)
    requires d < |buffer| && delim !in buffer[d + 1..] && batch == buffer[..d + 1]
    ensures |batch| <= |buffer| && batch == buffer[..|batch|] && delim !in buffer[|batch|..]
  {
  }

  /** The outcome of reading the whole stream: every batch in order, or the
      panic some call hit. */
  datatype Batches = Batches(batches: seq<seq<byte>>) | Panicked

  /** The reader task's loop: call `read_batch` until it reports no more
      data. Every batch of a completed read is non-empty, ends with the
      delimiter and fits the buffer; with a non-zero buffer size the
      batches put together are exactly the input. */
  function ReadAll(r: BatchReader): (o: Batches)
    requires r.Valid()
    ensures o.Batches? ==> forall b | b in o.batches :: 0 < |b| <= r.bufferSize && b[|b| - 1] == r.delimiter
    ensures o.Batches? && r.bufferSize > 0 ==> Flatten(o.batches) == r.Pending()
    decreases |r.Pending()|
  {
    match ReadBatch(r)
    case EndOfData(_) => Batches([])
    case NoDelimiterPanic => Panicked
    case Batch(batch, next) =>
      match ReadAll(next)
      case Panicked => Panicked
      case Batches(rest) =>
        PrependBatch(r, batch, next, rest);
        Batches([batch] + rest)
  }

  /** One unfolding of the loop. */
  lemma ReadAllStep(r: BatchReader)
    requires r.Valid()
    ensures ReadBatch(r).EndOfData? ==> ReadAll(r) == Batches([])
    ensures ReadBatch(r).NoDelimiterPanic? ==> ReadAll(r) == Panicked
    ensures var o := ReadBatch(r);
      o.Batch? ==> ReadAll(r) == (if ReadAll(o.next).Batches? then Batches([o.batch] + ReadAll(o.next).batches) else Panicked)
  {
  }

  /** The batch step of `ReadAll`'s contract. */
  lemma PrependBatch(r: BatchReader, batch: seq<byte>, next: BatchReader, rest: seq<seq<byte>>)
    requires r.pos <= |r.stream| && Advances(r, batch, next)
    requires forall b | b in rest :: 0 < |b| <= r.bufferSize && b[|b| - 1] == r.delimiter
    requires r.bufferSize > 0 ==> Flatten(rest) == next.Pending()
    ensures forall b | b in [batch] + rest :: 0 < |b| <= r.bufferSize && b[|b| - 1] == r.delimiter
    ensures r.bufferSize > 0 ==> Flatten([batch] + rest) == r.Pending()
  {
    FlattenCons(batch, rest);
  }

  /** The condition under which the whole stream can be read: the input is
      empty or ends with the delimiter, and no record is longer than the
      buffer. */
  ghost predicate Fits(r: BatchReader)
    requires r.pos <= |r.stream|
  {
    FitsPending(r.Pending(), r.bufferSize, r.delimiter)
  }

  /** The input `p` is empty or ends with the delimiter, and none of its
      records is longer than `bufferSize`. */
  ghost predicate FitsPending(p: seq<byte>, bufferSize: nat, delimiter: byte)
  {
    && (|p| == 0 || p[|p| - 1] == delimiter)
    && forall rec | rec in Lines(delimiter, p) :: |rec| <= bufferSize
  }

  /** Reading the whole stream completes exactly when the input fits: a
      final tail without a delimiter, or a record longer than the buffer,
      ends in the unwrap panic. */
  lemma {:induction false} ReadAllCompletesIff(r: BatchReader)
    requires r.Valid() && r.bufferSize > 0
    ensures ReadAll(r).Batches? <==> Fits(r)
    decreases |r.Pending()|
  {
    ReadAllStep(r);
    match ReadBatch(r)
    case EndOfData(_) =>
      ReadBatchEndsIff(r);
      assert r.Pending() == [];
    case NoDelimiterPanic =>
      ReadBatchPanicsIff(r);
      if Fits(r) {
        FitsHasDelimiterInWindow(r);
      }
    case Batch(batch, next) =>
      ReadAllCompletesIff(next);
      FitsAfterBatch(r, batch, next.Pending());
  }

  /** A batch no longer than the buffer has no record longer than it. */
  lemma RecordsWithinBatch(delim: byte, batch: seq<byte>, bufferSize: nat)
    requires |batch| <= bufferSize
    ensures forall rec | rec in Lines(delim, batch) :: |rec| <= bufferSize
  {
    var lb := Lines(delim, batch);
    LinesFlatten(delim, batch);
    forall rec | rec in lb
      ensures |rec| <= bufferSize
    {
      var i :| 0 <= i < |lb| && lb[i] == rec;
      FlattenPartLength(lb, i);
    }
  }

  /** Cutting off a batch that fits the buffer and ends with the delimiter
      changes nothing about whether the rest fits. */
  lemma FitsAfterBatch(r: BatchReader, batch: seq<byte>, rest: seq<byte>)
    requires r.pos <= |r.stream|
    requires 0 < |batch| <= r.bufferSize && batch[|batch| - 1] == r.delimiter
    requires r.Pending() == batch + rest
    ensures Fits(r) <==> FitsPending(rest, r.bufferSize, r.delimiter)
  {
    var p := r.Pending();
    LinesAppend(r.delimiter, batch, rest);
    RecordsWithinBatch(r.delimiter, batch, r.bufferSize);
    if |rest| > 0 {
      assert p[|p| - 1] == rest[|rest| - 1];
    }
  }

  /** When the input fits and something is pending, the window holds a
      delimiter: the end of the first record lies inside it. */
  lemma FitsHasDelimiterInWindow(r: BatchReader)
    requires r.Valid() && r.bufferSize > 0 && Fits(r) && |r.Pending()| > 0
    ensures r.delimiter in r.Window()
  {
    var p := r.Pending();
    var k := RecordLen(r.delimiter, p);
    assert Lines(r.delimiter, p)[0] == p[..k];
    assert p[..k] in Lines(r.delimiter, p);
    assert p[k - 1] == r.delimiter;
    var w := r.Window();
    assert k <= |w| && w[k - 1] == p[k - 1];
  }

  /** A non-empty input whose last byte is not the delimiter never reads to
      completion: its final tail is never returned, the reader panics on it. */
  lemma UnterminatedTailPanics(r: BatchReader)
    requires r.Valid() && r.bufferSize > 0
    requires |r.Pending()| > 0 && r.Pending()[|r.Pending()| - 1] != r.delimiter
    ensures ReadAll(r) == Panicked
  {
    ReadAllCompletesIff(r);
  }

  /** With a zero buffer size the first call already reports no more data,
      so a non-empty input yields no batches at all. */
  lemma ZeroBufferSizeReadsNothing(stream: seq<byte>, delimiter: byte)
    ensures ReadAll(New(stream, 0, delimiter)) == Batches([])
  {
    ReadBatchEndsIff(New(stream, 0, delimiter));
  }

  // The inputs of the source's `last_delim` tests.

  /** `Here's some text` */
  const SomeText: seq<byte> := [0x48, 0x65, 0x72, 0x65, 0x27, 0x73, 0x20, 0x73, 0x6f, 0x6d, 0x65, 0x20, 0x74, 0x65, 0x78, 0x74]

  /** `Here's some more` */
  const SomeMore: seq<byte> := [0x48, 0x65, 0x72, 0x65, 0x27, 0x73, 0x20, 0x73, 0x6f, 0x6d, 0x65, 0x20, 0x6d, 0x6f, 0x72, 0x65]

  /** `\n` written as the two bytes backslash and `n`. */
  const EscapedNewline: seq<byte> := [0x5c, 0x6e]

  /** The backwards scan finds the last delimiter: any index holding the
      delimiter with none after it is the one it returns. */
  lemma LastDelimIsLast(buf: seq<byte>, delim: byte, j: nat)
    requires j < |buf| && buf[j] == delim && delim !in buf[j + 1..]
    ensures LastDelim(buf, delim) == Some(j)
  {
    assert buf[j] in buf;
  }

  /** The last newline of `Here's some text\nHere's some more` is at 16. */
  lemma LastDelimExample()
    ensures LastDelim(SomeText + [Newline] + SomeMore, Newline) == Some(16)
  {
    var a := SomeText + [Newline] + SomeMore;
    assert a[17..] == SomeMore;
    LastDelimIsLast(a, Newline, 16);
  }

  /** The only newline of `\nHere's some text` is at 0. */
  lemma LastDelimLeadingExample()
    ensures LastDelim([Newline] + SomeText, Newline) == Some(0)
  {
    var b := [Newline] + SomeText;
    assert b[1..] == SomeText;
    LastDelimIsLast(b, Newline, 0);
  }

  /** `Here's some text` has no newline, nor has the same text with an
      escaped (two-byte) newline inside it. */
  lemma LastDelimNoneExamples()
    ensures LastDelim(SomeText, Newline) == None
    ensures LastDelim(SomeText + EscapedNewline + SomeMore, Newline) == None
  {
    var a := SomeText + EscapedNewline + SomeMore;
    assert Newline !in SomeText && Newline !in SomeMore;
    assert forall i | 0 <= i < |a| :: a[i] != Newline by {
      forall i | 0 <= i < |a|
        ensures a[i] != Newline
      {
        if i < 16 { assert a[i] == SomeText[i]; }
        else if i < 18 { assert a[i] == EscapedNewline[i - 16]; }
        else { assert a[i] == SomeMore[i - 18]; }
      }
    }
  }
}
