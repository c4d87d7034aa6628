/**
  The line-by-line summarizer: read one record at a time up to and
  including the delimiter, parse it, and either add it to the summary or
  register its zero-based line number as an error. The file is an
  in-memory byte sequence.
 */
module SyncSummarizer {
  import opened Bytes
  import opened Parsers
  import ByteLines
  import opened Summaries
  import SyncParserError

  /** The loop body: the summary after one record, the `lineNumber`-th. A
      parsed record adds its bytes to its type's entry and nothing else; a
      rejected one leaves the type map and appends its line number to the
      failed lines. */
  function Step(parse: Parser, s: Summary, line: seq<byte>, lineNumber: nat): (r: Summary)
    ensures KindOf(r.errors) == KindOf(s.errors)
    ensures parse(line).Parsed? ==> var m := parse(line).meta;
      && r.errors == s.errors
      && Get(r.typeCounts, m.typeName) == Get(s.typeCounts, m.typeName) + m.bytes
      && forall k | k != m.typeName :: Get(r.typeCounts, k) == Get(s.typeCounts, k)
    ensures parse(line).NoTypeParsed? ==> r.typeCounts == s.typeCounts
    ensures parse(line).NoTypeParsed? && s.errors.LineErrors? ==>
      r.errors.LineErrors? && r.errors.lines.errorLines == s.errors.lines.errorLines + [lineNumber]
  {
    match parse(line)
    case Parsed(meta) => Accumulate(s, meta)
    case NoTypeParsed => RegisterError(s, lineNumber)
  }

  /** The summary of a list of records read in order, numbered from zero.
      Its meaning is stated by `SyncTotalSize`, `SyncTypeCounts` and
      `SyncErrorLines`. */
  function SyncFold(parse: Parser, lines: seq<seq<byte>>): (s: Summary)
    ensures s.errors.LineErrors?
  {
    if |lines| == 0 then New(PerLine)
    else Step(parse, SyncFold(parse, lines[..|lines| - 1]), lines[|lines| - 1], |lines| - 1)
  }

  /** `read_until` on an in-memory file at `pos`: the bytes up to and
      including the next delimiter, or up to the end; empty at the end. */
  function ReadUntil(input: seq<byte>, pos: nat, delim: byte): (chunk: seq<byte>)
    requires pos <= |input|
    ensures |chunk| == 0 <==> pos == |input|
    ensures pos + |chunk| <= |input| && chunk == input[pos..pos + |chunk|]
    ensures |chunk| > 0 ==> delim !in chunk[..|chunk| - 1]
    ensures |chunk| > 0 ==> chunk[|chunk| - 1] == delim || pos + |chunk| == |input|
  {
    if pos == |input| then []
    else
      var k := ByteLines.RecordLen(delim, input[pos..]);
      assert input[pos..][..k] == input[pos..pos + k];
      input[pos..pos + k]
  }

  /** `pos` is where a record starts: at the beginning, or just after a
      delimiter, or at the end. */
  predicate AtRecordStart(input: seq<byte>, pos: nat, delim: byte)
    requires pos <= |input|
  {
    pos == 0 || pos == |input| || input[pos - 1] == delim
  }

  /** The summarizer loop: read a record, parse it, count it, until a read
      returns nothing. The result is the fold over the file's records. */
  method Summarize(parse: Parser, input: seq<byte>, delim: byte) returns (summary: Summary)
    ensures summary == SyncFold(parse, ByteLines.Lines(delim, input))
  {
    summary := New(PerLine);
    var pos := 0;
    var lineNumber := 0;
    ghost var done: seq<seq<byte>> := [];
    assert input[..0] == [];
    while true
      invariant pos <= |input| && AtRecordStart(input, pos, delim)
      invariant done == ByteLines.Lines(delim, input[..pos])
      invariant lineNumber == |done|
      invariant summary == SyncFold(parse, done)
      decreases |input| - pos
    {
      var buf := ReadUntil(input, pos, delim);
      if |buf| == 0 {
        assert input[..pos] == input;
        return;
      }
      var next := pos + |buf|;
      summary := Step(parse, summary, buf, lineNumber);
      done := ReadRecord(parse, delim, input, pos, next, buf, done);
      lineNumber := lineNumber + 1;
      pos := next;
    }
  }

  /** Reading the record `buf` at a record start `pos` adds it to the
      records read so far. */
  lemma ReadRecord(parse: Parser, delim: byte, input: seq<byte>, pos: nat, next: nat, buf: seq<byte>, done: seq<seq<byte>>)
    returns (done': seq<seq<byte>>)
    requires next == pos + |buf| <= |input| && |buf| > 0 && buf == input[pos..next]
    requires AtRecordStart(input, pos, delim)
    requires delim !in buf[..|buf| - 1]
    requires buf[|buf| - 1] == delim || next == |input|
    requires done == ByteLines.Lines(delim, input[..pos])
    ensures done' == ByteLines.Lines(delim, input[..next])
    ensures AtRecordStart(input, next, delim)
    ensures |done'| == |done| + 1
    ensures SyncFold(parse, done') == Step(parse, SyncFold(parse, done), buf, |done|)
  {
    RecordEnd(delim, input, pos, next, buf);
    SyncFoldSnoc(parse, done, buf);
    done' := LinesSnoc(delim, input, pos, next, buf, done);
  }

  lemma LinesSnoc(delim: byte, input: seq<byte>, pos: nat, next: nat, buf: seq<byte>, done: seq<seq<byte>>)
    returns (done': seq<seq<byte>>)
    requires next == pos + |buf| <= |input| && |buf| > 0 && buf == input[pos..next]
    requires AtRecordStart(input, pos, delim)
    requires delim !in buf[..|buf| - 1]
    requires done == ByteLines.Lines(delim, input[..pos])
    ensures done' == ByteLines.Lines(delim, input[..next])
    ensures done' == done + [buf]
  {
    var a := input[..pos];
    assert input[..next] == a + buf;
    ByteLines.LinesAppend(delim, a, buf);
    SingleRecord(delim, buf);
    done' := done + [buf];
  }

  /** A record read up to its delimiter ends where the next one starts. */
  lemma RecordEnd(delim: byte, input: seq<byte>, pos: nat, next: nat, buf: seq<byte>)
    requires next == pos + |buf| <= |input| && |buf| > 0 && buf == input[pos..next]
    requires buf[|buf| - 1] == delim || next == |input|
    ensures AtRecordStart(input, next, delim)
  {
    if next < |input| {
      assert input[next - 1] == buf[|buf| - 1];
    }
  }

  /** A record holding no delimiter before its last byte splits into itself. */
  lemma SingleRecord(delim: byte, buf: seq<byte>)
    requires |buf| > 0 && delim !in buf[..|buf| - 1]
    ensures ByteLines.Lines(delim, buf) == [buf]
  {
    ByteLines.RecordLenUnique(delim, buf, |buf|);
    assert buf[..|buf|] == buf && buf[|buf|..] == [];
  }

  /** Folding one more record is one more step. */
  lemma SyncFoldSnoc(parse: Parser, done: seq<seq<byte>>, line: seq<byte>)
    ensures SyncFold(parse, done + [line]) == Step(parse, SyncFold(parse, done), line, |done|)
  {
    assert (done + [line])[..|done|] == done;
  }

  // What the summary means.

  /** The total size is the sum of the sizes of the parsed records. */
  lemma {:induction false} SyncTotalSize(parse: Parser, lines: seq<seq<byte>>)
    ensures TotalSize(SyncFold(parse, lines)) == ParsedBytes(parse, lines)
  {
    if |lines| > 0 {
      var n := |lines|;
      SyncTotalSize(parse, lines[..n - 1]);
      match parse(lines[n - 1])
      case Parsed(meta) => TotalSizeAccumulate(SyncFold(parse, lines[..n - 1]), meta, n - 1);
      case NoTypeParsed => TotalSizeAccumulate(SyncFold(parse, lines[..n - 1]), LogLineMetadata([], 0), n - 1);
    }
  }

  /** Each type's entry holds the bytes of the records of that type, and a
      type has an entry exactly when some record was parsed to it. */
  lemma {:induction false} SyncTypeCounts(parse: Parser, lines: seq<seq<byte>>, name: seq<byte>)
    ensures Get(SyncFold(parse, lines).typeCounts, name) == TypeBytes(parse, lines, name)
    ensures name in SyncFold(parse, lines).typeCounts <==> NamedBySome(parse, lines, name)
  {
    if |lines| > 0 {
      var n := |lines|;
      var init := lines[..n - 1];
      SyncTypeCounts(parse, init, name);
      if NamedBySome(parse, init, name) {
        var j :| 0 <= j < |init| && parse(init[j]).Parsed? && parse(init[j]).meta.typeName == name;
        assert lines[j] == init[j];
      }
      if NamedBySome(parse, lines, name) {
        var j :| 0 <= j < n && parse(lines[j]).Parsed? && parse(lines[j]).meta.typeName == name;
        if j < n - 1 {
          assert init[j] == lines[j];
        }
      }
    }
  }

  /** `e` lists the indices of the records of `lines` the parser rejects,
      in increasing order: every entry is an index of `lines`, and an index
      is listed exactly when its record is rejected. */
  ghost predicate ListsFailures(parse: Parser, lines: seq<seq<byte>>, e: seq<nat>)
  {
    && (forall a, b | 0 <= a < b < |e| :: e[a] < e[b])
    && (forall j | 0 <= j < |e| :: e[j] < |lines|)
    && (forall k | 0 <= k < |lines| :: k in e <==> parse(lines[k]).NoTypeParsed?)
  }

  /** The failed line numbers: exactly the indices of the records the
      parser rejects, in increasing order, one per rejected record. */
  lemma {:induction false} SyncErrorLines(parse: Parser, lines: seq<seq<byte>>)
    ensures var e := SyncFold(parse, lines).errors.lines.errorLines;
      |e| == FailedCount(parse, lines) && ListsFailures(parse, lines, e)
  {
    if |lines| > 0 {
      var n := |lines|;
      SyncErrorLines(parse, lines[..n - 1]);
      ErrorLinesSnoc(parse, lines);
      ListsFailuresSnoc(parse, lines, SyncFold(parse, lines[..n - 1]).errors.lines.errorLines);
    }
  }

  /** One more record adds its line number to the failed lines exactly
      when it is rejected. */
  lemma ErrorLinesSnoc(parse: Parser, lines: seq<seq<byte>>)
    requires |lines| > 0
    ensures var n := |lines|;
      var e0 := SyncFold(parse, lines[..n - 1]).errors.lines.errorLines;
      var e := SyncFold(parse, lines).errors.lines.errorLines;
      e == if parse(lines[n - 1]).NoTypeParsed? then e0 + [n - 1] else e0
  {
  }

  /** Listing the failures of all records but the last, then the last
      index if that record fails, lists the failures of all records. */
  lemma ListsFailuresSnoc(parse: Parser, lines: seq<seq<byte>>, e0: seq<nat>)
    requires |lines| > 0 && ListsFailures(parse, lines[..|lines| - 1], e0)
    ensures var n := |lines|;
      ListsFailures(parse, lines, if parse(lines[n - 1]).NoTypeParsed? then e0 + [n - 1] else e0)
  {
    var n := |lines|;
    var init := lines[..n - 1];
    forall k | 0 <= k < n - 1
      ensures lines[k] == init[k]
    {}
    assert n - 1 !in e0;
    if parse(lines[n - 1]).NoTypeParsed? {
      var e := e0 + [n - 1];
      forall k | 0 <= k < n
        ensures k in e <==> k == n - 1 || k in e0
      {}
    }
  }

  /** The sum of the total size and the rejected records' bytes is the
      file's size, for a parser that reports each record's full length. */
  lemma {:induction false} SyncSizeAccounting(parse: Parser, lines: seq<seq<byte>>)
    requires forall j | 0 <= j < |lines| :: parse(lines[j]).Parsed? ==> parse(lines[j]).meta.bytes == |lines[j]|
    ensures TotalSize(SyncFold(parse, lines)) + FailedBytes(parse, lines) == |Flatten(lines)|
  {
    SyncTotalSize(parse, lines);
    if |lines| > 0 {
      var n := |lines|;
      forall j | 0 <= j < n - 1
        ensures lines[..n - 1][j] == lines[j]
      {}
      SyncSizeAccounting(parse, lines[..n - 1]);
      SyncTotalSize(parse, lines[..n - 1]);
    }
  }
}
