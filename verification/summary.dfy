/**
  The aggregate of a run: bytes per type name, and an error tally whose
  representation depends on the summarizer (line numbers for the
  line-by-line one, a count for the batch one).
 */
module Summaries {
  import opened Bytes
  import opened Parsers
  import SyncParserError
  import AsyncParserError

  /** Type name to the total bytes of the records of that type. */
  type TypeCountMap = map<seq<byte>, nat>

  /** The error tallies the summarizers use. */
  datatype ErrorSummary =
    | LineErrors(lines: SyncParserError.BufReaderParserError)
    | CountErrors(count: AsyncParserError.AsyncBatchReaderParserError)

  /** Which tally a summary carries. */
  datatype ErrorKind = PerLine | Counted

  function KindOf(e: ErrorSummary): ErrorKind
  {
    if e.LineErrors? then PerLine else Counted
  }

  function DefaultErrors(kind: ErrorKind): (e: ErrorSummary)
    ensures KindOf(e) == kind && TotalErrors(e) == 0
  {
    match kind
    case PerLine => LineErrors(SyncParserError.Default())
    case Counted => CountErrors(AsyncParserError.Default())
  }

  function TotalErrors(e: ErrorSummary): nat
  {
    match e
    case LineErrors(l) => SyncParserError.TotalErrors(l)
    case CountErrors(c) => AsyncParserError.TotalErrors(c)
  }

  /** Register one failure described by `error`: a line number for the
      per-line tally (one more error), a count for the counting tally. */
  function AccumulateError(e: ErrorSummary, error: nat): (r: ErrorSummary)
    ensures KindOf(r) == KindOf(e)
    ensures TotalErrors(r) == TotalErrors(e) + (if e.LineErrors? then 1 else error)
  {
    match e
    case LineErrors(l) => LineErrors(SyncParserError.Accumulate(l, error))
    case CountErrors(c) => CountErrors(AsyncParserError.Accumulate(c, error))
  }

  function CombineErrors(e: ErrorSummary, other: ErrorSummary): (r: ErrorSummary)
    requires KindOf(e) == KindOf(other)
    ensures KindOf(r) == KindOf(e)
    ensures TotalErrors(r) == TotalErrors(e) + TotalErrors(other)
  {
    match e
    case LineErrors(l) => LineErrors(SyncParserError.Combine(l, other.lines))
    case CountErrors(c) => CountErrors(AsyncParserError.Combine(c, other.count))
  }

  datatype Summary = Summary(typeCounts: TypeCountMap, errors: ErrorSummary)

  /** The bytes recorded for `name`, zero when it has no entry. */
  function Get(m: TypeCountMap, name: seq<byte>): nat
  {
    if name in m then m[name] else 0
  }

  /** Add `bytes` to the entry of `name`, creating it when absent. */
  function AddTo(m: TypeCountMap, name: seq<byte>, bytes: nat): (r: TypeCountMap)
    ensures r.Keys == m.Keys + {name}
    ensures Get(r, name) == Get(m, name) + bytes
    ensures forall k | k != name :: Get(r, k) == Get(m, k)
  {
    m[name := Get(m, name) + bytes]
  }

  /** The key-wise sum of two maps; a key of either is a key of the result. */
  function CombineMaps(a: TypeCountMap, b: TypeCountMap): (r: TypeCountMap)
    ensures r.Keys == a.Keys + b.Keys
    ensures forall k :: Get(r, k) == Get(a, k) + Get(b, k)
  {
    map k | k in a.Keys + b.Keys :: Get(a, k) + Get(b, k)
  }

  /** An empty summary. */
  function New(kind: ErrorKind): (s: Summary)
    ensures s.typeCounts == map[]
    ensures KindOf(s.errors) == kind && TotalErrors(s.errors) == 0
  {
    Summary(map[], DefaultErrors(kind))
  }

  /** Record a failed line; the type counts are untouched. */
  function RegisterError(s: Summary, error: nat): (r: Summary)
    ensures r.typeCounts == s.typeCounts
    ensures KindOf(r.errors) == KindOf(s.errors)
    ensures TotalErrors(r.errors) == TotalErrors(s.errors) + (if s.errors.LineErrors? then 1 else error)
  {
    Summary(s.typeCounts, AccumulateError(s.errors, error))
  }

  /** Add a parsed record: its bytes go to its type's entry, which is
      created when the type is new; no other entry and no error changes. */
  function Accumulate(s: Summary, meta: LogLineMetadata): (r: Summary)
    ensures r.errors == s.errors
    ensures r.typeCounts.Keys == s.typeCounts.Keys + {meta.typeName}
    ensures Get(r.typeCounts, meta.typeName) == Get(s.typeCounts, meta.typeName) + meta.bytes
    ensures forall k | k != meta.typeName :: Get(r.typeCounts, k) == Get(s.typeCounts, k)
  {
    Summary(AddTo(s.typeCounts, meta.typeName, meta.bytes), s.errors)
  }

  /** Merge `other` into `s`: counts add key by key and the error tallies
      merge. Both summaries must carry the same kind of tally, as the
      source's generic `Summary<E>` ensures. */
  function Combine(s: Summary, other: Summary): (r: Summary)
    requires KindOf(s.errors) == KindOf(other.errors)
    ensures r.typeCounts.Keys == s.typeCounts.Keys + other.typeCounts.Keys
    ensures forall k :: Get(r.typeCounts, k) == Get(s.typeCounts, k) + Get(other.typeCounts, k)
    ensures KindOf(r.errors) == KindOf(s.errors)
    ensures TotalErrors(r.errors) == TotalErrors(s.errors) + TotalErrors(other.errors)
  {
    Summary(CombineMaps(s.typeCounts, other.typeCounts), CombineErrors(s.errors, other.errors))
  }

  /** Two maps with the same entries, read through `Get`, are equal. */
  lemma MapsEqual(a: TypeCountMap, b: TypeCountMap)
    requires a.Keys == b.Keys
    requires forall k :: Get(a, k) == Get(b, k)
    ensures a == b
  {
    forall k | k in a.Keys
      ensures a[k] == b[k]
    {
      assert Get(a, k) == Get(b, k);
    }
  }

  /** Merging with an empty map changes nothing. */
  lemma CombineMapsEmpty(a: TypeCountMap, b: TypeCountMap)
    requires b.Keys == {}
    ensures CombineMaps(a, b) == a
  {
    MapsEqual(CombineMaps(a, b), a);
  }

  /** Moving one entry of `b` into `a` keeps the key-wise sum. */
  lemma MoveEntry(a: TypeCountMap, b: TypeCountMap, k: seq<byte>)
    requires k in b.Keys
    ensures CombineMaps(AddTo(a, k, b[k]), b - {k}) == CombineMaps(a, b)
  {
    var l := CombineMaps(AddTo(a, k, b[k]), b - {k});
    var r := CombineMaps(a, b);
    forall j
      ensures Get(l, j) == Get(r, j)
    {
      if j == k {
        assert Get(b - {k}, j) == 0;
      } else {
        assert Get(b - {k}, j) == Get(b, j);
      }
    }
    MapsEqual(l, r);
  }

  /** The key-wise sum with `b` is the sum with `b` less one entry, that
      entry then added. */
  lemma SplitEntry(a: TypeCountMap, b: TypeCountMap, k: seq<byte>)
    requires k in b.Keys
    ensures CombineMaps(a, b) == AddTo(CombineMaps(a, b - {k}), k, b[k])
  {
    var l := CombineMaps(a, b);
    var r := AddTo(CombineMaps(a, b - {k}), k, b[k]);
    forall j
      ensures Get(l, j) == Get(r, j)
    {
      if j == k {
        assert Get(b - {k}, j) == 0;
      } else {
        assert Get(b - {k}, j) == Get(b, j);
      }
    }
    MapsEqual(l, r);
  }

  /** The merge loop as written: walk the other map's entries in whatever
      order the hash map yields them, adding each to this summary's entry
      (creating it at zero first), then merge the error tallies. Any
      visiting order gives the key-wise sum. */
  method CombineInPlace(s: Summary, other: Summary) returns (r: Summary)
    requires KindOf(s.errors) == KindOf(other.errors)
    ensures r == Combine(s, other)
  {
    var counts := s.typeCounts;
    var rest := other.typeCounts;
    while rest.Keys != {}
      invariant CombineMaps(counts, rest) == CombineMaps(s.typeCounts, other.typeCounts)
      decreases |rest.Keys|
    {
      var key :| key in rest.Keys;
      MoveEntry(counts, rest, key);
      counts, rest := AddTo(counts, key, rest[key]), rest - {key};
    }
    CombineMapsEmpty(counts, rest);
    r := Summary(counts, CombineErrors(s.errors, other.errors));
  }

  // The total size: the sum of the map's values.

  /** Sum of the values of `m`. */
  ghost function SumValues(m: TypeCountMap): nat
    decreases |m.Keys|
  {
    if m.Keys == {} then 0
    else
      var k :| k in m.Keys;
      m[k] + SumValues(m - {k})
  }

  /** The sum can be split at any key. */
  lemma {:induction false} SumValuesRemove(m: TypeCountMap, k: seq<byte>)
    requires k in m.Keys
    ensures SumValues(m) == m[k] + SumValues(m - {k})
    decreases |m.Keys|
  {
    var j :| j in m.Keys && SumValues(m) == m[j] + SumValues(m - {j});
    if j != k {
      SumValuesRemove(m - {j}, k);
      SumValuesRemove(m - {k}, j);
      assert (m - {j}) - {k} == (m - {k}) - {j};
    }
  }

  /** Adding `bytes` to one entry raises the sum by `bytes`. */
  lemma SumValuesAddTo(m: TypeCountMap, name: seq<byte>, bytes: nat)
    ensures SumValues(AddTo(m, name, bytes)) == SumValues(m) + bytes
  {
    var r := AddTo(m, name, bytes);
    SumValuesRemove(r, name);
    if name in m.Keys {
      SumValuesRemove(m, name);
      assert r - {name} == m - {name};
    } else {
      assert r - {name} == m;
    }
  }

  /** The total size: every byte counted under some type. No entry is
      larger than it, and an empty map has total size zero. */
  ghost function TotalSize(s: Summary): (t: nat)
    ensures s.typeCounts == map[] ==> t == 0
    ensures forall k | k in s.typeCounts.Keys :: s.typeCounts[k] <= t
  {
    EntriesWithinSum(s.typeCounts);
    SumValues(s.typeCounts)
  }

  /** Every entry is at most the sum of the values. */
  lemma EntriesWithinSum(m: TypeCountMap)
    ensures forall k | k in m.Keys :: m[k] <= SumValues(m)
  {
    forall k | k in m.Keys
      ensures m[k] <= SumValues(m)
    {
      SumValuesRemove(m, k);
    }
  }

  /** The empty summary has total size zero. */
  lemma TotalSizeNew(kind: ErrorKind)
    ensures TotalSize(New(kind)) == 0
  {
  }

  /** Accumulating a record adds its bytes to the total size; registering
      an error leaves it unchanged. */
  lemma TotalSizeAccumulate(s: Summary, meta: LogLineMetadata, error: nat)
    ensures TotalSize(Accumulate(s, meta)) == TotalSize(s) + meta.bytes
    ensures TotalSize(RegisterError(s, error)) == TotalSize(s)
  {
    SumValuesAddTo(s.typeCounts, meta.typeName, meta.bytes);
  }

  /** Merging adds the total sizes. */
  lemma {:induction false} SumValuesCombine(a: TypeCountMap, b: TypeCountMap)
    ensures SumValues(CombineMaps(a, b)) == SumValues(a) + SumValues(b)
    decreases |b.Keys|
  {
    if b.Keys != {} {
      var k :| k in b.Keys;
      SumValuesRemove(b, k);
      SumValuesCombine(a, b - {k});
      SplitEntry(a, b, k);
      SumValuesAddTo(CombineMaps(a, b - {k}), k, b[k]);
    } else {
      CombineMapsEmpty(a, b);
    }
  }

  lemma TotalSizeCombine(s: Summary, other: Summary)
    requires KindOf(s.errors) == KindOf(other.errors)
    ensures TotalSize(Combine(s, other)) == TotalSize(s) + TotalSize(other)
  {
    SumValuesCombine(s.typeCounts, other.typeCounts);
  }

  // Algebra of the merge, for summaries with counting tallies.

  /** Merging counted summaries is commutative and associative, and the
      empty summary is its unit: the reducer's result does not depend on
      the order in which the mappers' summaries arrive. */
  lemma CombineCommutative(a: Summary, b: Summary)
    requires a.errors.CountErrors? && b.errors.CountErrors?
    ensures Combine(a, b) == Combine(b, a)
  {
    MapsEqual(CombineMaps(a.typeCounts, b.typeCounts), CombineMaps(b.typeCounts, a.typeCounts));
    AsyncParserError.CombineCommutativeMonoid(a.errors.count, b.errors.count, b.errors.count);
  }

  lemma CombineAssociative(a: Summary, b: Summary, c: Summary)
    requires KindOf(a.errors) == KindOf(b.errors) == KindOf(c.errors)
    ensures Combine(Combine(a, b), c) == Combine(a, Combine(b, c))
  {
    var l := CombineMaps(CombineMaps(a.typeCounts, b.typeCounts), c.typeCounts);
    var r := CombineMaps(a.typeCounts, CombineMaps(b.typeCounts, c.typeCounts));
    MapsEqual(l, r);
    match a.errors
    case LineErrors(x) => SyncParserError.CombineMonoid(x, b.errors.lines, c.errors.lines);
    case CountErrors(x) => AsyncParserError.CombineCommutativeMonoid(x, b.errors.count, c.errors.count);
  }

  /** The last two of three merges can be swapped. */
  lemma CombineSwap(a: Summary, b: Summary, c: Summary)
    requires a.errors.CountErrors? && b.errors.CountErrors? && c.errors.CountErrors?
    ensures Combine(Combine(a, b), c) == Combine(Combine(a, c), b)
  {
    CombineAssociative(a, b, c);
    CombineCommutative(b, c);
    CombineAssociative(a, c, b);
  }

  lemma CombineNewLeft(s: Summary)
    ensures Combine(New(KindOf(s.errors)), s) == s
  {
    MapsEqual(CombineMaps(map[], s.typeCounts), s.typeCounts);
    match s.errors
    case LineErrors(x) => SyncParserError.CombineMonoid(x, x, x);
    case CountErrors(x) => AsyncParserError.CombineCommutativeMonoid(x, x, x);
  }

  /** Accumulating into a merge is accumulating into its right operand;
      the same holds for registering an error. This is what lets a fold
      over records be cut into batches. */
  lemma AccumulateCombine(a: Summary, b: Summary, meta: LogLineMetadata, error: nat)
    requires KindOf(a.errors) == KindOf(b.errors)
    ensures Accumulate(Combine(a, b), meta) == Combine(a, Accumulate(b, meta))
    ensures RegisterError(Combine(a, b), error) == Combine(a, RegisterError(b, error))
  {
    AccumulateCombineCounts(a, b, meta);
    RegisterErrorCombine(a, b, error);
  }

  lemma AccumulateCombineCounts(a: Summary, b: Summary, meta: LogLineMetadata)
    requires KindOf(a.errors) == KindOf(b.errors)
    ensures Accumulate(Combine(a, b), meta).typeCounts == Combine(a, Accumulate(b, meta)).typeCounts
  {
    MapsEqual(Accumulate(Combine(a, b), meta).typeCounts, Combine(a, Accumulate(b, meta)).typeCounts);
  }

  lemma RegisterErrorCombine(a: Summary, b: Summary, error: nat)
    requires KindOf(a.errors) == KindOf(b.errors)
    ensures AccumulateError(CombineErrors(a.errors, b.errors), error) == CombineErrors(a.errors, AccumulateError(b.errors, error))
  {
    match a.errors
    case LineErrors(x) =>
      SyncParserError.CombineMonoid(x, b.errors.lines, SyncParserError.BufReaderParserError([error]));
    case CountErrors(x) =>
  }

  // Per-record tallies over a list of records, which state what the
  // summary of those records means. Each is a left fold, matching the
  // order records are read.

  /** Sum of `bytes` over the records the parser accepts. */
  function ParsedBytes(parse: Parser, lines: seq<seq<byte>>): nat
  {
    if |lines| == 0 then 0
    else
      ParsedBytes(parse, lines[..|lines| - 1])
      + match parse(lines[|lines| - 1])
        case Parsed(m) => m.bytes
        case NoTypeParsed => 0
  }

  /** Sum of `bytes` over the records the parser maps to type `name`. */
  function TypeBytes(parse: Parser, lines: seq<seq<byte>>, name: seq<byte>): nat
  {
    if |lines| == 0 then 0
    else
      TypeBytes(parse, lines[..|lines| - 1], name)
      + match parse(lines[|lines| - 1])
        case Parsed(m) => if m.typeName == name then m.bytes else 0
        case NoTypeParsed => 0
  }

  /** The parser accepts some record and names it `name`. */
  ghost predicate NamedBySome(parse: Parser, lines: seq<seq<byte>>, name: seq<byte>)
  {
    exists j | 0 <= j < |lines| :: parse(lines[j]).Parsed? && parse(lines[j]).meta.typeName == name
  }

  /** Number of records the parser rejects. */
  function FailedCount(parse: Parser, lines: seq<seq<byte>>): nat
  {
    if |lines| == 0 then 0
    else FailedCount(parse, lines[..|lines| - 1]) + (if parse(lines[|lines| - 1]).NoTypeParsed? then 1 else 0)
  }

  /** Sum of the lengths of the records the parser rejects. */
  function FailedBytes(parse: Parser, lines: seq<seq<byte>>): nat
  {
    if |lines| == 0 then 0
    else FailedBytes(parse, lines[..|lines| - 1]) + (if parse(lines[|lines| - 1]).NoTypeParsed? then |lines[|lines| - 1]| else 0)
  }
}
