/**
  The parser strategy: one record in, either the record's type name and
  size or the failure `NoTypeParsed`. The byte-scan parsers all look for
  the key marker `"type":` and take the quoted string after it.
 */
module Parsers {
  import opened Bytes

  /** The byte `"`. */
  const Quote: byte := 0x22

  /** The key marker `"type":`, seven bytes. */
  const TypeMarker: seq<byte> := [0x22, 0x74, 0x79, 0x70, 0x65, 0x22, 0x3a]

  /** What a successful parse reports: the type name (a slice of the record
      in the source, copied here) and the record's full length. */
  datatype LogLineMetadata = LogLineMetadata(typeName: seq<byte>, bytes: nat)

  datatype ParseResult = Parsed(meta: LogLineMetadata) | NoTypeParsed

  /** A parser strategy, injected where the source uses a type parameter `P: Parser`. */
  type Parser = seq<byte> -> ParseResult

  /** `needle` occurs in `haystack` starting at index `j`. */
  predicate OccursAt(haystack: seq<byte>, needle: seq<byte>, j: int)
  {
    0 <= j && j + |needle| <= |haystack| && haystack[j..j + |needle|] == needle
  }

  /** `j` is the least index at which `needle` occurs in `haystack`. */
  predicate FirstOccurrence(haystack: seq<byte>, needle: seq<byte>, j: int)
  {
    OccursAt(haystack, needle, j) && forall k | 0 <= k < j :: !OccursAt(haystack, needle, k)
  }

  lemma OccursSingle(haystack: seq<byte>, b: byte, j: int)
    ensures OccursAt(haystack, [b], j) <==> 0 <= j < |haystack| && haystack[j] == b
  {
    if 0 <= j < |haystack| {
      assert haystack[j..j + 1] == [haystack[j]];
    }
  }

  /** The line has a type field: the marker occurs somewhere and two quote
      bytes follow it, not necessarily adjacent. */
  ghost predicate HasTypeField(line: seq<byte>)
  {
    exists i, q, c | 0 <= i && i + |TypeMarker| <= q < c < |line| ::
      OccursAt(line, TypeMarker, i) && line[q] == Quote && line[c] == Quote
  }

  /** `name` is the type field of `line`: the marker first occurs at `i`, the
      first quote at or after the end of that marker is at `q`, and `name`
      is everything from just after `q` up to (not including) the next quote. */
  ghost predicate TypeFieldAt(line: seq<byte>, i: nat, q: nat, name: seq<byte>)
  {
    && FirstOccurrence(line, TypeMarker, i)
    && i + |TypeMarker| <= q < |line|
    && line[q] == Quote
    && (forall k | i + |TypeMarker| <= k < q :: line[k] != Quote)
    && q + 1 + |name| < |line|
    && line[q + 1 .. q + 1 + |name|] == name
    && line[q + 1 + |name|] == Quote
    && Quote !in name
  }

  /** `q` holds the first quote at or after `from`. */
  predicate FirstQuoteFrom(line: seq<byte>, from: nat, q: nat)
  {
    from <= q < |line| && line[q] == Quote && forall k | from <= k < q :: line[k] != Quote
  }

  /** With the opening quote at `q`, `meta` names the quote-free bytes up to
      the closing quote and reports the whole line's length. */
  predicate NameAfterQuote(line: seq<byte>, q: nat, meta: LogLineMetadata)
  {
    && q + 1 + |meta.typeName| < |line|
    && line[q + 1 .. q + 1 + |meta.typeName|] == meta.typeName
    && line[q + 1 + |meta.typeName|] == Quote
    && Quote !in meta.typeName
    && meta.bytes == |line|
  }

  /** `meta` names the bytes between the first quote at or after `from`
      and the next quote. */
  ghost predicate QuotedNameFrom(line: seq<byte>, from: nat, meta: LogLineMetadata)
  {
    exists q :: FirstQuoteFrom(line, from, q) && NameAfterQuote(line, q, meta)
  }

  /** The contract shared by the byte-scan parsers: success exactly when the
      line has a type field, and then the name is that field and `bytes` is
      the whole line's length, delimiter included. */
  ghost predicate MeetsContract(line: seq<byte>, r: ParseResult)
  {
    && (r.Parsed? <==> HasTypeField(line))
    && (r.Parsed? ==> r.meta.bytes == |line|)
    && (r.Parsed? ==> exists i, q :: TypeFieldAt(line, i, q, r.meta.typeName))
  }

  /** A line has at most one type field. */
  lemma TypeFieldUnique(line: seq<byte>, i1: nat, q1: nat, n1: seq<byte>, i2: nat, q2: nat, n2: seq<byte>)
    requires TypeFieldAt(line, i1, q1, n1)
    requires TypeFieldAt(line, i2, q2, n2)
    ensures n1 == n2
  {
    assert i1 == i2;
    assert q1 == q2;
  }

  // The lines of the source's parser tests, as bytes.

  /** `{"type":"some_complicated_TYPE123","message":"Hello, world!"}`, written
      as its parts: the opening brace, the marker, the quoted name and the rest. */
  const ExampleLine: seq<byte> := [0x7b] + TypeMarker + [Quote] + ExampleTypeName + [Quote] + ExampleLineTail

  /** `,"message":"Hello, world!"}` */
  const ExampleLineTail: seq<byte> := [
    0x2c, 0x22, 0x6d, 0x65, 0x73, 0x73, 0x61, 0x67, 0x65, 0x22, 0x3a, 0x22, 0x48, 0x65, 0x6c, 0x6c,
    0x6f, 0x2c, 0x20, 0x77, 0x6f, 0x72, 0x6c, 0x64, 0x21, 0x22, 0x7d]

  /** `some_complicated_TYPE123` */
  const ExampleTypeName: seq<byte> := [
    0x73, 0x6f, 0x6d, 0x65, 0x5f, 0x63, 0x6f, 0x6d, 0x70, 0x6c, 0x69, 0x63, 0x61, 0x74, 0x65, 0x64,
    0x5f, 0x54, 0x59, 0x50, 0x45, 0x31, 0x32, 0x33]

  /** `{"message":"Hello, world!"}` */
  const ExampleNoType: seq<byte> := [
    0x7b, 0x22, 0x6d, 0x65, 0x73, 0x73, 0x61, 0x67, 0x65, 0x22, 0x3a, 0x22, 0x48, 0x65, 0x6c, 0x6c,
    0x6f, 0x2c, 0x20, 0x77, 0x6f, 0x72, 0x6c, 0x64, 0x21, 0x22, 0x7d]
}
