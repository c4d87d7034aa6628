/** Shared vocabulary: bytes, optional values and flattening of record lists. */
module Bytes {

  /** One byte of input, as Rust's `u8`. */
  newtype byte = b: int | 0 <= b < 256

  /** The conventional Some/None datatype, for Rust's `Option`. */
  datatype Option<+T> = None | Some(value: T)

  /** The newline byte, the default record delimiter. */
  const Newline: byte := 0x0a

  /** Concatenation of a list of byte sequences. */
  function Flatten(parts: seq<seq<byte>>): seq<byte>
  {
    if |parts| == 0 then [] else Flatten(parts[..|parts| - 1]) + parts[|parts| - 1]
  }

  lemma {:induction false} FlattenAppend(a: seq<seq<byte>>, b: seq<seq<byte>>)
    ensures Flatten(a + b) == Flatten(a) + Flatten(b)
    decreases |b|
  {
    if |b| == 0 {
      assert a + b == a;
    } else {
      var b' := b[..|b| - 1];
      assert (a + b)[..|a + b| - 1] == a + b';
      FlattenAppend(a, b');
    }
  }

  lemma FlattenSingle(p: seq<byte>)
    ensures Flatten([p]) == p
  {
    assert [p][..0] == [];
  }

  lemma FlattenCons(p: seq<byte>, rest: seq<seq<byte>>)
    ensures Flatten([p] + rest) == p + Flatten(rest)
  {
    FlattenAppend([p], rest);
    FlattenSingle(p);
  }

  /** Each part is no longer than the flattening it belongs to. */
  lemma {:induction false} FlattenPartLength(parts: seq<seq<byte>>, i: nat)
    requires i < |parts|
    ensures |parts[i]| <= |Flatten(parts)|
    decreases |parts|
  {
    if i < |parts| - 1 {
      FlattenPartLength(parts[..|parts| - 1], i);
    }
  }
}
