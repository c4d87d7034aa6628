/** The window-search byte-scan parser, the program's default parser. */
module StringParser {
  import opened Bytes
  import opened Parsers

  /** The needle of the two quote searches: a one-byte window. */
  const QuoteStr: seq<byte> := [Quote]

  /** Least index at which `needle` occurs in `haystack`, sliding a window of
      `|needle|` bytes from the left. A zero-width window is refused by the
      source (its window iterator panics), hence the requires. */
  function FindSubsequence(haystack: seq<byte>, needle: seq<byte>): (r: Option<nat>)
    requires |needle| > 0
    ensures r.Some? ==> FirstOccurrence(haystack, needle, r.value)
    ensures r.None? <==> forall j :: !OccursAt(haystack, needle, j)
  {
    FindFrom(haystack, needle, 0)
  }

  /** The window search, resumed at window `start`; no earlier window matched. */
  function FindFrom(haystack: seq<byte>, needle: seq<byte>, start: nat): (r: Option<nat>)
    requires |needle| > 0
    requires forall k | 0 <= k < start :: !OccursAt(haystack, needle, k)
    ensures r.Some? ==> start <= r.value && FirstOccurrence(haystack, needle, r.value)
    ensures r.None? <==> forall j :: !OccursAt(haystack, needle, j)
    decreases |haystack| - start
  {
    if start + |needle| > |haystack| then None
    else if haystack[start..start + |needle|] == needle then Some(start)
    else FindFrom(haystack, needle, start + 1)
  }

  /** Find the marker, then the next quote after it, then the quote after
      that; the name is the bytes strictly between the two quotes. This
      meets the byte-scan contract: success exactly on lines with a type
      field, with that field's name and the whole line's length. */
  function Parse(line: seq<byte>): (r: ParseResult)
    ensures MeetsContract(line, r)
  {
    match FindSubsequence(line, TypeMarker)
    case None => NoTypeParsed
    case Some(index) =>
      AfterMarkerMeetsContract(line, index);
      ParseAfterMarker(line, index)
  }

  /** The steps after the marker was found at `index`: look for the
      opening quote from the end of the marker on. A name it returns
      follows the first quote after the marker. */
  function ParseAfterMarker(line: seq<byte>, index: nat): (r: ParseResult)
    requires index + |TypeMarker| <= |line|
    ensures r.Parsed? ==> QuotedNameFrom(line, index + |TypeMarker|, r.meta)
  {
    QuoteSearch(line, index + |TypeMarker|);
    match FindSubsequence(line[index + |TypeMarker|..], QuoteStr)
    case None => NoTypeParsed
    case Some(i) =>
      var startIndex := i + index + |TypeMarker|;
      assert FirstQuoteFrom(line, index + |TypeMarker|, startIndex);
      ParseName(line, startIndex)
  }

  /** The last step, with the opening quote at `startIndex`: look for the
      closing quote after it and slice out the name. It fails exactly when
      no quote follows the opening one. */
  function ParseName(line: seq<byte>, startIndex: nat): (r: ParseResult)
    requires startIndex < |line|
    ensures r.NoTypeParsed? <==> Quote !in line[startIndex + 1..]
    ensures r.Parsed? ==> NameAfterQuote(line, startIndex, r.meta)
  {
    QuoteSearch(line, startIndex + 1);
    match FindSubsequence(line[startIndex + |QuoteStr|..], QuoteStr)
    case None => NoTypeParsed
    case Some(relIndex) =>
      var (nameStart, nameEnd) := (startIndex + |QuoteStr|, startIndex + relIndex);
      Parsed(LogLineMetadata(line[nameStart..nameEnd + 1], |line|))
  }

  /** A quote search in `line[from..]` finds the first quote at or after `from`. */
  lemma QuoteSearch(line: seq<byte>, from: nat)
    requires from <= |line|
    ensures var r := FindSubsequence(line[from..], QuoteStr);
      && (r.Some? ==> from + r.value < |line| && line[from + r.value] == Quote
                      && forall k | from <= k < from + r.value :: line[k] != Quote)
      && (r.None? <==> forall k | from <= k < |line| :: line[k] != Quote)
  {
    var sub := line[from..];
    var r := FindSubsequence(sub, QuoteStr);
    if r.Some? {
      OccursSingle(sub, Quote, r.value);
      forall k | from <= k < from + r.value
        ensures line[k] != Quote
      {
        OccursSingle(sub, Quote, k - from);
        assert !OccursAt(sub, QuoteStr, k - from);
      }
    } else {
      forall k | from <= k < |line|
        ensures line[k] != Quote
      {
        OccursSingle(sub, Quote, k - from);
      }
    }
    if forall k | from <= k < |line| :: line[k] != Quote {
      forall j
        ensures !OccursAt(sub, QuoteStr, j)
      {
        OccursSingle(sub, Quote, j);
        if 0 <= j < |sub| { assert sub[j] == line[from + j]; }
      }
    }
  }

  /** No quote at or after the end of the first marker: no type field. */
  lemma NoOpeningQuote(line: seq<byte>, index: nat)
    requires FirstOccurrence(line, TypeMarker, index)
    requires forall k | index + |TypeMarker| <= k < |line| :: line[k] != Quote
    ensures !HasTypeField(line)
  {
    forall i, q, c | 0 <= i && i + |TypeMarker| <= q < c < |line| && OccursAt(line, TypeMarker, i)
      ensures !(line[q] == Quote && line[c] == Quote)
    {
      assert index <= i;
    }
  }

  /** An opening quote at `q` (the first after the first marker) with no
      quote after it: no type field. */
  lemma NoClosingQuote(line: seq<byte>, index: nat, q: nat)
    requires FirstOccurrence(line, TypeMarker, index)
    requires index + |TypeMarker| <= q < |line|
    requires forall k | index + |TypeMarker| <= k < q :: line[k] != Quote
    requires forall k | q + 1 <= k < |line| :: line[k] != Quote
    ensures !HasTypeField(line)
  {
    forall i, q', c | 0 <= i && i + |TypeMarker| <= q' < c < |line| && OccursAt(line, TypeMarker, i)
      ensures !(line[q'] == Quote && line[c] == Quote)
    {
      assert index <= i;
      if line[q'] == Quote {
        assert q <= q';
      }
    }
  }

  /** The contract, once the first marker is known to be at `index`. */
  lemma AfterMarkerMeetsContract(line: seq<byte>, index: nat)
    requires FirstOccurrence(line, TypeMarker, index)
    ensures MeetsContract(line, ParseAfterMarker(line, index))
  {
    var from := index + |TypeMarker|;
    var r := FindSubsequence(line[from..], QuoteStr);
    AfterMarkerStep(line, index);
    if r.None? {
      QuoteSearch(line, from);
      NoOpeningQuote(line, index);
      assert MeetsContract(line, NoTypeParsed);
    } else {
      OpeningQuoteMeetsContract(line, index, r.value);
    }
  }

  /** The contract, once the first quote after the marker is `i` bytes
      past its end. */
  lemma OpeningQuoteMeetsContract(line: seq<byte>, index: nat, i: nat)
    requires FirstOccurrence(line, TypeMarker, index)
    requires FindSubsequence(line[index + |TypeMarker|..], QuoteStr) == Some(i)
    ensures MeetsContract(line, ParseName(line, index + |TypeMarker| + i))
  {
    QuoteSearch(line, index + |TypeMarker|);
    NameMeetsContract(line, index, index + |TypeMarker| + i);
  }

  /** The step after the marker: stop, or go on to the name. */
  lemma AfterMarkerStep(line: seq<byte>, index: nat)
    requires index + |TypeMarker| <= |line|
    ensures var r := FindSubsequence(line[index + |TypeMarker|..], QuoteStr);
      && (r.None? ==> ParseAfterMarker(line, index) == NoTypeParsed)
      && (r.Some? ==> ParseAfterMarker(line, index) == ParseName(line, index + |TypeMarker| + r.value))
  {
  }

  /** The contract, once the first marker is at `index` and the first
      quote after it at `q`. */
  lemma NameMeetsContract(line: seq<byte>, index: nat, q: nat)
    requires FirstOccurrence(line, TypeMarker, index)
    requires index + |TypeMarker| <= q < |line| && line[q] == Quote
    requires forall k | index + |TypeMarker| <= k < q :: line[k] != Quote
    ensures MeetsContract(line, ParseName(line, q))
  {
    var r := FindSubsequence(line[q + 1..], QuoteStr);
    NameStep(line, q);
    if r.None? {
      QuoteSearch(line, q + 1);
      NoClosingQuote(line, index, q);
    } else {
      ClosingQuoteMeetsContract(line, index, q, r.value);
    }
  }

  /** The contract, once the closing quote is `t` bytes past the opening one. */
  lemma ClosingQuoteMeetsContract(line: seq<byte>, index: nat, q: nat, t: nat)
    requires FirstOccurrence(line, TypeMarker, index)
    requires index + |TypeMarker| <= q < |line| && line[q] == Quote
    requires forall k | index + |TypeMarker| <= k < q :: line[k] != Quote
    requires FindSubsequence(line[q + 1..], QuoteStr) == Some(t)
    ensures MeetsContract(line, Parsed(LogLineMetadata(line[q + 1..q + 1 + t], |line|)))
  {
    QuoteSearch(line, q + 1);
    ClosingQuoteFound(line, index, q, q + 1 + t);
    FieldMeetsContract(line, index, q, line[q + 1..q + 1 + t]);
  }

  /** With the closing quote at `c`, the bytes strictly between the quotes
      are the type field. */
  lemma ClosingQuoteFound(line: seq<byte>, index: nat, q: nat, c: nat)
    requires FirstOccurrence(line, TypeMarker, index)
    requires index + |TypeMarker| <= q < c < |line| && line[q] == Quote && line[c] == Quote
    requires forall k | index + |TypeMarker| <= k < q :: line[k] != Quote
    requires forall k | q + 1 <= k < c :: line[k] != Quote
    ensures TypeFieldAt(line, index, q, line[q + 1..c])
  {
    var name := line[q + 1..c];
    assert |name| == c - (q + 1);
    forall j | 0 <= j < |name|
      ensures name[j] != Quote
    {
      assert name[j] == line[q + 1 + j];
    }
  }

  /** A type field makes the parse result it names meet the contract. */
  lemma FieldMeetsContract(line: seq<byte>, i: nat, q: nat, name: seq<byte>)
    requires TypeFieldAt(line, i, q, name)
    ensures MeetsContract(line, Parsed(LogLineMetadata(name, |line|)))
  {
    var c := q + 1 + |name|;
    assert OccursAt(line, TypeMarker, i) && line[q] == Quote && line[c] == Quote;
  }

  /** The name step: no closing quote, or the bytes up to it. */
  lemma NameStep(line: seq<byte>, q: nat)
    requires q < |line|
    ensures var r := FindSubsequence(line[q + 1..], QuoteStr);
      && (r.None? ==> ParseName(line, q) == NoTypeParsed)
      && (r.Some? ==> ParseName(line, q) == Parsed(LogLineMetadata(line[q + 1..q + 1 + r.value], |line|)))
  {
  }

  lemma ExampleMarkerFirst()
    ensures FirstOccurrence(ExampleLine, TypeMarker, 1)
  {
    assert ExampleLine[1..8] == TypeMarker;
    assert ExampleLine[0..7][0] != TypeMarker[0];
  }

  lemma ExampleTypeField()
    ensures TypeFieldAt(ExampleLine, 1, 8, ExampleTypeName)
  {
    ExampleMarkerFirst();
    assert ExampleLine[9..33] == ExampleTypeName;
  }

  /** The source's test: the example line parses to `some_complicated_TYPE123`
      and reports its full 61 bytes. */
  lemma ParseExample()
    ensures Parse(ExampleLine) == Parsed(LogLineMetadata(ExampleTypeName, 61))
  {
    var line := ExampleLine;
    ExampleTypeField();
    assert OccursAt(line, TypeMarker, 1) && line[8] == Quote && line[33] == Quote;
    var r := Parse(line);
    var i, q :| TypeFieldAt(line, i, q, r.meta.typeName);
    TypeFieldUnique(line, i, q, r.meta.typeName, 1, 8, ExampleTypeName);
  }

  lemma ExampleNoMarker()
    ensures forall j :: !OccursAt(ExampleNoType, TypeMarker, j)
  {
    var line := ExampleNoType;
    forall k | 0 <= k < |line|
      ensures line[k] != 0x74
    {}
    forall j
      ensures !OccursAt(line, TypeMarker, j)
    {
      if 0 <= j && j + |TypeMarker| <= |line| {
        assert line[j..j + |TypeMarker|][1] == line[j + 1];
      }
    }
  }

  /** The source's failing test: a line without the marker does not parse. */
  lemma ParseExampleNoType()
    ensures Parse(ExampleNoType) == NoTypeParsed
  {
    ExampleNoMarker();
  }
}
