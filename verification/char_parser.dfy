/** The single-byte-scan parser: the marker is found with the window
    search, the two quotes with a byte-by-byte scan. */
module CharParser {
  import opened Bytes
  import opened Parsers
  import StringParser

  /** Index of the first byte of `haystack` equal to `needle`, if any. */
  function FindChar(haystack: seq<byte>, needle: byte): (r: Option<nat>)
    ensures r.Some? ==> r.value < |haystack| && haystack[r.value] == needle
    ensures r.Some? ==> forall k | 0 <= k < r.value :: haystack[k] != needle
    ensures r.None? <==> needle !in haystack
  {
    FindCharFrom(haystack, needle, 0)
  }

  /** The scan, resumed at `start`; no earlier byte matched. */
  function FindCharFrom(haystack: seq<byte>, needle: byte, start: nat): (r: Option<nat>)
    requires start <= |haystack|
    requires forall k | 0 <= k < start :: haystack[k] != needle
    ensures r.Some? ==> start <= r.value < |haystack| && haystack[r.value] == needle
    ensures r.Some? ==> forall k | 0 <= k < r.value :: haystack[k] != needle
    ensures r.None? <==> needle !in haystack
    decreases |haystack| - start
  {
    if start == |haystack| then None
    else if haystack[start] == needle then Some(start)
    else FindCharFrom(haystack, needle, start + 1)
  }

  /** As the window-search parser, with the quote searches done by `FindChar`.
      The two parsers agree on every line: same success or failure, same
      name slice, same length; so this one meets the byte-scan contract too. */
  function Parse(line: seq<byte>): (r: ParseResult)
    ensures r == StringParser.Parse(line)
    ensures MeetsContract(line, r)
  {
    match StringParser.FindSubsequence(line, TypeMarker)
    case None => NoTypeParsed
    case Some(index) =>
      AfterMarkerAgrees(line, index);
      ParseAfterMarker(line, index)
  }

  /** After the marker at `index`: a name it returns follows the first
      quote after the marker. */
  function ParseAfterMarker(line: seq<byte>, index: nat): (r: ParseResult)
    requires index + |TypeMarker| <= |line|
    ensures r.Parsed? ==> QuotedNameFrom(line, index + |TypeMarker|, r.meta)
  {
    match FindChar(line[index + |TypeMarker|..], Quote)
    case None => NoTypeParsed
    case Some(i) =>
      var startIndex := i + index + |TypeMarker|;
      assert FirstQuoteFrom(line, index + |TypeMarker|, startIndex);
      ParseName(line, startIndex)
  }

  /** With the opening quote at `startIndex`: fails exactly when no quote
      follows it, and otherwise returns the bytes up to the next quote. */
  function ParseName(line: seq<byte>, startIndex: nat): (r: ParseResult)
    requires startIndex < |line|
    ensures r.NoTypeParsed? <==> Quote !in line[startIndex + 1..]
    ensures r.Parsed? ==> NameAfterQuote(line, startIndex, r.meta)
  {
    match FindChar(line[startIndex + 1..], Quote)
    case None => NoTypeParsed
    case Some(relIndex) =>
      var (nameStart, nameEnd) := (startIndex + 1, startIndex + relIndex);
      Parsed(LogLineMetadata(line[nameStart..nameEnd + 1], |line|))
  }

  /** Scanning for one byte finds what the window search finds with a
      one-byte needle. */
  lemma FindCharIsFindSubsequence(haystack: seq<byte>, c: byte)
    ensures FindChar(haystack, c) == StringParser.FindSubsequence(haystack, [c])
  {
    var a := FindChar(haystack, c);
    var b := StringParser.FindSubsequence(haystack, [c]);
    forall j
      ensures OccursAt(haystack, [c], j) <==> 0 <= j < |haystack| && haystack[j] == c
    {
      OccursSingle(haystack, c, j);
    }
  }

  /** From the marker on, the two parsers take the same branch and give
      the same result. */
  lemma AfterMarkerAgrees(line: seq<byte>, index: nat)
    requires index + |TypeMarker| <= |line|
    ensures ParseAfterMarker(line, index) == StringParser.ParseAfterMarker(line, index)
  {
    var rest := line[index + |TypeMarker|..];
    SameQuoteSearch(rest);
    match FindChar(rest, Quote)
    case None =>
      NoOpeningQuoteAgrees(line, index);
    case Some(i) =>
      OpeningQuoteAgrees(line, index, i);
  }

  /** Neither parser finds an opening quote: both fail. */
  lemma NoOpeningQuoteAgrees(line: seq<byte>, index: nat)
    requires index + |TypeMarker| <= |line|
    requires FindChar(line[index + |TypeMarker|..], Quote).None?
    requires StringParser.FindSubsequence(line[index + |TypeMarker|..], StringParser.QuoteStr).None?
    ensures ParseAfterMarker(line, index) == NoTypeParsed
    ensures StringParser.ParseAfterMarker(line, index) == NoTypeParsed
  {
  }

  /** Both parsers find the opening quote `i` bytes past the marker. */
  lemma OpeningQuoteAgrees(line: seq<byte>, index: nat, i: nat)
    requires index + |TypeMarker| <= |line|
    requires FindChar(line[index + |TypeMarker|..], Quote) == Some(i)
    requires StringParser.FindSubsequence(line[index + |TypeMarker|..], StringParser.QuoteStr) == Some(i)
    ensures ParseAfterMarker(line, index) == StringParser.ParseAfterMarker(line, index)
  {
    OpeningQuoteStep(line, index, i);
    StringOpeningQuoteStep(line, index, i);
    NameAgrees(line, index + |TypeMarker| + i);
  }

  /** The same step in the window-search parser. */
  lemma StringOpeningQuoteStep(line: seq<byte>, index: nat, i: nat)
    requires index + |TypeMarker| <= |line|
    requires StringParser.FindSubsequence(line[index + |TypeMarker|..], StringParser.QuoteStr) == Some(i)
    ensures index + |TypeMarker| + i < |line|
    ensures StringParser.ParseAfterMarker(line, index) == StringParser.ParseName(line, index + |TypeMarker| + i)
  {
  }

  /** With the opening quote at `i` past the marker, the parse goes on to the name. */
  lemma OpeningQuoteStep(line: seq<byte>, index: nat, i: nat)
    requires index + |TypeMarker| <= |line| && FindChar(line[index + |TypeMarker|..], Quote) == Some(i)
    ensures index + |TypeMarker| + i < |line|
    ensures ParseAfterMarker(line, index) == ParseName(line, index + |TypeMarker| + i)
  {
  }

  lemma NameAgrees(line: seq<byte>, startIndex: nat)
    requires startIndex < |line|
    ensures ParseName(line, startIndex) == StringParser.ParseName(line, startIndex)
  {
    SameQuoteSearch(line[startIndex + 1..]);
  }

  /** Both parsers look for the quote the same way. */
  lemma SameQuoteSearch(s: seq<byte>)
    ensures FindChar(s, Quote) == StringParser.FindSubsequence(s, StringParser.QuoteStr)
  {
    assert StringParser.QuoteStr == [Quote];
    FindCharIsFindSubsequence(s, Quote);
  }

  /** The source's test: the example line parses to `some_complicated_TYPE123`
      and reports its full 61 bytes. */
  lemma ParseExample()
    ensures Parse(ExampleLine) == Parsed(LogLineMetadata(ExampleTypeName, 61))
  {
    StringParser.ParseExample();
  }

  /** The source's failing test: a line without the marker does not parse. */
  lemma ParseExampleNoType()
    ensures Parse(ExampleNoType) == NoTypeParsed
  {
    StringParser.ParseExampleNoType();
  }
}
