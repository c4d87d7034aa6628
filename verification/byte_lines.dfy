/**
  Splitting a byte buffer into records on a one-byte delimiter. Each record
  keeps its delimiter; the last record lacks one when the buffer does not
  end with the delimiter. `Lines` is the reference decomposition, and the
  iterator `ByteLines` with its `Next` step yields exactly it.
 */
module ByteLines {
  import opened Bytes

  /** Length of the first record of a non-empty buffer: up to and including
      the first delimiter, or the whole buffer when there is none. */
  function RecordLen(delim: byte, s: seq<byte>): (k: nat)
    requires |s| > 0
    ensures 1 <= k <= |s|
    ensures delim !in s[..k - 1]
    ensures s[k - 1] == delim || k == |s|
    decreases |s|
  {
    if s[0] == delim || |s| == 1 then 1
    else
      var k' := RecordLen(delim, s[1..]);
      assert s[..k'] == [s[0]] + s[1..][..k' - 1];
      1 + k'
  }

  /** The first record is determined by where the first delimiter is. */
  lemma RecordLenUnique(delim: byte, s: seq<byte>, k: nat)
    requires 1 <= k <= |s|
    requires delim !in s[..k - 1]
    requires s[k - 1] == delim || k == |s|
    ensures RecordLen(delim, s) == k
  {
  }

  /** The records of `s`, in order. */
  function Lines(delim: byte, s: seq<byte>): seq<seq<byte>>
    decreases |s|
  {
    if |s| == 0 then []
    else
      var k := RecordLen(delim, s);
      [s[..k]] + Lines(delim, s[k..])
  }

  /** A record list as the splitter produces it: every record is non-empty
      and holds no delimiter before its last byte, and every record but the
      last ends with the delimiter. */
  ghost predicate WellFormed(delim: byte, records: seq<seq<byte>>)
  {
    forall i | 0 <= i < |records| ::
      && |records[i]| > 0
      && delim !in records[i][..|records[i]| - 1]
      && (i < |records| - 1 ==> records[i][|records[i]| - 1] == delim)
  }

  /** Concatenating the records gives back the buffer. */
  lemma {:induction false} LinesFlatten(delim: byte, s: seq<byte>)
    ensures Flatten(Lines(delim, s)) == s
    decreases |s|
  {
    if |s| > 0 {
      var k := RecordLen(delim, s);
      LinesFlatten(delim, s[k..]);
      FirstRecordFlatten(delim, s, k);
    }
  }

  /** One step of `LinesFlatten`: the first record and the flattened rest
      join back into the buffer. */
  lemma FirstRecordFlatten(delim: byte, s: seq<byte>, k: nat)
    requires 0 < |s| && k == RecordLen(delim, s)
    requires Flatten(Lines(delim, s[k..])) == s[k..]
    ensures Flatten(Lines(delim, s)) == s
  {
    var rest := Lines(delim, s[k..]);
    assert Lines(delim, s) == [s[..k]] + rest;
    FlattenCons(s[..k], rest);
  }

  /** The records are well formed. */
  lemma {:induction false} LinesWellFormed(delim: byte, s: seq<byte>)
    ensures WellFormed(delim, Lines(delim, s))
    decreases |s|
  {
    if |s| > 0 {
      var k := RecordLen(delim, s);
      LinesWellFormed(delim, s[k..]);
      var rest := Lines(delim, s[k..]);
      var all := Lines(delim, s);
      assert all == [s[..k]] + rest;
      if |rest| > 0 {
        assert s[..k][k - 1] == s[k - 1];
        assert s[k - 1] == delim by {
          LinesFlatten(delim, s[k..]);
          assert |Flatten(rest)| > 0 by { FlattenPartLength(rest, 0); }
        }
      }
      forall i | 1 <= i < |all|
        ensures all[i] == rest[i - 1]
      {}
    }
  }

  /** `Lines` is the only well-formed way to cut a buffer into records. */
  lemma {:induction false} LinesUnique(delim: byte, records: seq<seq<byte>>)
    requires WellFormed(delim, records)
    ensures Lines(delim, Flatten(records)) == records
    decreases |records|
  {
    if |records| > 0 {
      var r := records[0];
      var rest := records[1..];
      assert records == [r] + rest;
      FlattenCons(r, rest);
      var s := Flatten(records);
      assert WellFormed(delim, rest) by {
        forall i | 0 <= i < |rest|
          ensures records[i + 1] == rest[i]
        {}
      }
      LinesUnique(delim, rest);
      FirstRecord(delim, r, Flatten(rest));
    }
  }

  /** A record followed by more bytes is cut off as the first record,
      provided it ends with the delimiter or nothing follows. */
  lemma FirstRecord(delim: byte, r: seq<byte>, t: seq<byte>)
    requires |r| > 0 && delim !in r[..|r| - 1]
    requires r[|r| - 1] == delim || t == []
    ensures Lines(delim, r + t) == [r] + Lines(delim, t)
  {
    var s := r + t;
    assert s[..|r|] == r && s[|r|..] == t;
    assert s[..|r| - 1] == r[..|r| - 1];
    RecordLenUnique(delim, s, |r|);
  }

  /** If the buffer ends with the delimiter, so does every record. */
  lemma LinesAllEndWithDelim(delim: byte, s: seq<byte>)
    requires |s| > 0 && s[|s| - 1] == delim
    ensures forall r | r in Lines(delim, s) :: |r| > 0 && r[|r| - 1] == delim
  {
    var all := Lines(delim, s);
    LinesWellFormed(delim, s);
    LinesFlatten(delim, s);
    var n := |all|;
    assert n > 0;
    assert Flatten(all) == Flatten(all[..n - 1]) + all[n - 1];
  }

  /** Splitting is compositional at a record boundary: when `a` is empty or
      ends with the delimiter, the records of `a + b` are those of `a`
      followed by those of `b`. */
  lemma LinesAppend(delim: byte, a: seq<byte>, b: seq<byte>)
    requires |a| == 0 || a[|a| - 1] == delim
    ensures Lines(delim, a + b) == Lines(delim, a) + Lines(delim, b)
  {
    var la, lb := Lines(delim, a), Lines(delim, b);
    LinesWellFormed(delim, a);
    LinesWellFormed(delim, b);
    LinesFlatten(delim, a);
    LinesFlatten(delim, b);
    FlattenAppend(la, lb);
    if |a| > 0 {
      LinesAllEndWithDelim(delim, a);
      assert la[|la| - 1] in la;
    } else {
      assert la == [];
    }
    WellFormedAppend(delim, la, lb);
    LinesUnique(delim, la + lb);
  }

  /** Well-formed record lists concatenate to a well-formed one when the
      first ends with a delimiter-terminated record. */
  lemma WellFormedAppend(delim: byte, la: seq<seq<byte>>, lb: seq<seq<byte>>)
    requires WellFormed(delim, la) && WellFormed(delim, lb)
    requires |la| > 0 ==> la[|la| - 1][|la[|la| - 1]| - 1] == delim
    ensures WellFormed(delim, la + lb)
  {
    var all := la + lb;
    forall i | 0 <= i < |all|
      ensures |all[i]| > 0 && delim !in all[i][..|all[i]| - 1]
      ensures i < |all| - 1 ==> all[i][|all[i]| - 1] == delim
    {
      if i < |la| {
        assert all[i] == la[i];
      } else {
        assert all[i] == lb[i - |la|];
      }
    }
  }

  /** Cutting one record `s[start..end]` off the front of `s[start..]`. */
  lemma LinesStep(delim: byte, s: seq<byte>, start: nat, end: nat)
    requires start < end <= |s|
    requires delim !in s[start..end - 1]
    requires s[end - 1] == delim || end == |s|
    ensures Lines(delim, s[start..]) == [s[start..end]] + Lines(delim, s[end..])
  {
    var t := s[start..];
    assert t[..end - start - 1] == s[start..end - 1];
    RecordLenUnique(delim, t, end - start);
    assert t[..end - start] == s[start..end];
    assert t[end - start..] == s[end..];
  }

  /** The splitter's iterator state: the buffer, the delimiter, where the
      current record starts and how far the scan for its end has got. */
  datatype ByteLines = ByteLines(delim: byte, buf: seq<byte>, readStart: nat, readEnd: nat)
  {
    /** The indices stay in order and within the buffer, and the bytes
        scanned for the current record hold no delimiter. */
    ghost predicate Valid()
    {
      readStart <= readEnd <= |buf| && delim !in buf[readStart..readEnd]
    }

    /** The records still to be yielded. */
    ghost function Remaining(): seq<seq<byte>>
      requires Valid()
    {
      Lines(delim, buf[readStart..])
    }
  }

  /** A fresh iterator over `buf`; it will yield every record of `buf`. */
  function New(delim: byte, buf: seq<byte>): (it: ByteLines)
    ensures it.Valid() && it.delim == delim && it.buf == buf
    ensures it.Remaining() == Lines(delim, buf)
  {
    assert buf[0..] == buf;
    ByteLines(delim, buf, 0, 0)
  }

  /** Yielding the record that ends at `end` leaves the records after it. */
  lemma YieldStep(it: ByteLines, end: nat)
    requires it.Valid() && it.readStart < end <= |it.buf|
    requires it.delim !in it.buf[it.readStart..end - 1]
    requires it.buf[end - 1] == it.delim || end == |it.buf|
    ensures it.(readStart := end, readEnd := end).Valid()
    ensures it.Remaining() == [it.buf[it.readStart..end]] + it.(readStart := end, readEnd := end).Remaining()
  {
    LinesStep(it.delim, it.buf, it.readStart, end);
  }

  /** A byte absent from a slice is absent from the slice one shorter. */
  lemma NotInShorter(s: seq<byte>, x: byte, a: nat, b: nat)
    requires a < b <= |s| && x !in s[a..b]
    ensures x !in s[a..b - 1]
  {
    assert s[a..b - 1] == s[a..b][..b - 1 - a];
  }

  /** One step of the iterator: scan forward from `readEnd` for a delimiter
      or the end of the buffer and yield the record from `readStart` up to
      there, delimiter included; `None` once the buffer is used up. */
  method Next(it: ByteLines) returns (item: Option<seq<byte>>, next: ByteLines)
    requires it.Valid()
    ensures next.Valid() && next.delim == it.delim && next.buf == it.buf
    ensures item.None? <==> it.readStart == |it.buf|
    ensures item.None? ==> next == it
    ensures item.Some? ==> it.readStart < next.readStart == next.readEnd
    ensures item.Some? ==> item.value == it.buf[it.readStart..next.readStart]
    ensures item.Some? ==> it.Remaining() == [item.value] + next.Remaining()
  {
    var readEnd := it.readEnd;
    while true
      invariant it.readStart <= readEnd <= |it.buf|
      invariant it.delim !in it.buf[it.readStart..readEnd]
      decreases |it.buf| - readEnd
    {
      if readEnd == |it.buf| {
        if it.readStart < readEnd {
          NotInShorter(it.buf, it.delim, it.readStart, readEnd);
          YieldStep(it, readEnd);
          return Some(it.buf[it.readStart..readEnd]), it.(readStart := readEnd, readEnd := readEnd);
        } else {
          return None, it.(readEnd := readEnd);
        }
      } else {
        var b := it.buf[readEnd];
        if b == it.delim {
          YieldStep(it, readEnd + 1);
          return Some(it.buf[it.readStart..readEnd + 1]), it.(readStart := readEnd + 1, readEnd := readEnd + 1);
        }
        assert it.buf[it.readStart..readEnd + 1] == it.buf[it.readStart..readEnd] + [b];
        readEnd := readEnd + 1;
      }
    }
  }

  /** Drive the iterator to exhaustion, as a `for` loop over it does. */
  method Collect(delim: byte, buf: seq<byte>) returns (records: seq<seq<byte>>)
    ensures records == Lines(delim, buf)
  {
    var it := New(delim, buf);
    records := [];
    while true
      invariant it.Valid() && it.delim == delim && it.buf == buf
      invariant records + it.Remaining() == Lines(delim, buf)
      decreases |buf| - it.readStart
    {
      var item, next := Next(it);
      if item.None? {
        assert it.Remaining() == [];
        assert records + [] == records;
        return;
      }
      MoveToDone(records, item.value, it.Remaining(), next.Remaining());
      records := records + [item.value];
      it := next;
    }
  }

  /** Yielding `line` moves it from the remaining records to the done ones. */
  lemma MoveToDone(done: seq<seq<byte>>, line: seq<byte>, remaining: seq<seq<byte>>, remaining': seq<seq<byte>>)
    requires remaining == [line] + remaining'
    ensures done + remaining == (done + [line]) + remaining'
  {
  }

  /** An empty buffer has no records. */
  lemma LinesEmpty(delim: byte)
    ensures Lines(delim, []) == []
  {}

  /** `hello\nworld\n` splits into `hello\n` and `world\n`. */
  lemma LinesHelloWorld()
    ensures Lines(Newline, HelloWorld) == [Hello + [Newline], World + [Newline]]
  {
    var records := [Hello + [Newline], World + [Newline]];
    assert WellFormed(Newline, records) by {
      assert (Hello + [Newline])[..5] == Hello;
      assert (World + [Newline])[..5] == World;
    }
    assert Flatten(records) == Flatten([Hello + [Newline]]) + (World + [Newline]);
    FlattenSingle(Hello + [Newline]);
    assert Flatten(records) == HelloWorld;
    LinesUnique(Newline, records);
  }

  /** `hello` without a trailing newline is one record, unchanged. */
  lemma LinesNoEndNewline()
    ensures Lines(Newline, Hello) == [Hello]
  {
    assert WellFormed(Newline, [Hello]) by {
      assert Hello[..4] == [0x68, 0x65, 0x6c, 0x6c];
    }
    LinesUnique(Newline, [Hello]);
    FlattenSingle(Hello);
  }

  /** `hello` */
  const Hello: seq<byte> := [0x68, 0x65, 0x6c, 0x6c, 0x6f]

  /** `world` */
  const World: seq<byte> := [0x77, 0x6f, 0x72, 0x6c, 0x64]

  /** `hello\nworld\n` */
  const HelloWorld: seq<byte> := Hello + [Newline] + World + [Newline]
}
