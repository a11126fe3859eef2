/**
 * The byte cursor the server reads the client's first message with
 * (`ByteIterator` over a byte array): single bytes, the bytes up to a
 * delimiter, and everything that is left. Reading a byte past the end is
 * the only way it fails (`NoSuchElementException`).
 */
module ByteCursor {
  import opened Options

  /** An unsigned byte, as `ByteIterator.next()` hands it out. */
  newtype byte = x: int | 0 <= x < 0x100

  /** The longest prefix of `s` that does not contain `d`. */
  function TakeUntil(s: seq<byte>, d: byte): (r: seq<byte>)
    ensures |r| <= |s| && r == s[..|r|]
    ensures d !in r
    ensures |r| < |s| ==> s[|r|] == d
  {
    if |s| == 0 || s[0] == d then [] else [s[0]] + TakeUntil(s[1..], d)
  }

  /** A prefix free of `d` that is followed by `d` or by nothing is the one `TakeUntil` takes. */
  lemma TakeUntilUnique(s: seq<byte>, d: byte, a: seq<byte>)
    requires |a| <= |s| && s[..|a|] == a && d !in a
    requires |a| < |s| ==> s[|a|] == d
    ensures TakeUntil(s, d) == a
  {
    var r := TakeUntil(s, d);
    assert r == s[..|r|];
  }

  class Cursor {
    /** The cursor's own copy of the bytes it walks over. */
    const bytes: seq<byte>
    /** Index of the next byte to hand out. */
    var pos: nat

    ghost predicate Valid()
      reads this
    {
      pos <= |bytes|
    }

    /** The bytes not yet handed out. */
    ghost function Remaining(): seq<byte>
      reads this
      requires Valid()
    {
      bytes[pos..]
    }

    constructor (source: seq<byte>)
      ensures Valid() && bytes == source && pos == 0
    {
      bytes := source;
      pos := 0;
    }

    /** `next()`: the next byte, or `None` where the iterator throws. */
    method Next() returns (b: Option<byte>)
      requires Valid()
      modifies this
      ensures Valid()
      ensures old(pos) < |bytes| ==> b == Some(bytes[old(pos)]) && pos == old(pos) + 1
      ensures old(pos) == |bytes| ==> b == None && pos == old(pos)
    {
      if pos < |bytes| {
        b := Some(bytes[pos]);
        pos := pos + 1;
      } else {
        b := None;
      }
    }

    /**
     * `delimitedBy(d)` drained: the bytes before the next `d` (all the rest
     * when there is none). The delimiter itself stays unread.
     */
    method DelimitedBy(d: byte) returns (s: seq<byte>)
      requires Valid()
      modifies this
      ensures Valid()
      ensures s == TakeUntil(old(Remaining()), d)
      ensures pos == old(pos) + |s|
    {
      var start := pos;
      while pos < |bytes| && bytes[pos] != d
        invariant start <= pos <= |bytes|
        invariant d !in bytes[start..pos]
        decreases |bytes| - pos
      {
        pos := pos + 1;
      }
      s := bytes[start..pos];
      TakeUntilUnique(bytes[start..], d, s);
    }

    /** Everything not yet read; the cursor is exhausted afterwards. */
    method Drain() returns (s: seq<byte>)
      requires Valid()
      modifies this
      ensures Valid()
      ensures s == old(Remaining()) && pos == |bytes|
    {
      s := bytes[pos..];
      pos := |bytes|;
    }
  }
}
