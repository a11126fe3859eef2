/**
 * The parts of `java.lang.String` that the OAUTHBEARER server relies on:
 * `indexOf(String)` and `split(String)` with a pattern made only of literal
 * characters (no regular-expression metacharacters), as both case in the
 * server are.
 */
module JavaString {

  /** `d` occurs in `s` starting at index `k`. */
  ghost predicate OccursAt(s: string, d: string, k: int) {
    0 <= k && k + |d| <= |s| && s[k..k + |d|] == d
  }

  lemma OccursAtShift(s: string, d: string, k: int)
    requires |s| > 0 && k >= 0
    ensures OccursAt(s[1..], d, k) <==> OccursAt(s, d, k + 1)
  {
    if k + |d| <= |s[1..]| {
      assert s[1..][k..k + |d|] == s[k + 1..k + 1 + |d|];
    }
  }

  /**
   * `s.indexOf(d)`: the first index at which `d` occurs in `s`, or -1 when it
   * occurs nowhere.
   */
  function IndexOf(s: string, d: string): (r: int)
    requires |d| > 0
    ensures r == -1 || OccursAt(s, d, r)
    ensures r == -1 ==> forall k :: !OccursAt(s, d, k)
    ensures forall k :: 0 <= k < r ==> !OccursAt(s, d, k)
    decreases |s|
  {
    if |s| < |d| then -1
    else if s[..|d|] == d then 0
    else
      var i := IndexOf(s[1..], d);
      assert forall k :: k >= 1 ==> (OccursAt(s, d, k) <==> OccursAt(s[1..], d, k - 1)) by {
        forall k | k >= 1
          ensures OccursAt(s, d, k) <==> OccursAt(s[1..], d, k - 1)
        {
          OccursAtShift(s, d, k - 1);
        }
      }
      assert s[0..|d|] == s[..|d|];
      assert !OccursAt(s, d, 0);
      if i == -1 then -1 else i + 1
  }

  /** A one-character delimiter occurs exactly where that character stands. */
  lemma OccursAtChar(s: string, c: char, k: int)
    ensures OccursAt(s, [c], k) <==> 0 <= k < |s| && s[k] == c
  {
    if 0 <= k < |s| {
      assert s[k..k + 1] == [s[k]];
    }
  }

  /** `OccursAtChar` for every index at once. */
  lemma OccursAtCharEverywhere(s: string, c: char)
    ensures forall k :: OccursAt(s, [c], k) <==> 0 <= k < |s| && s[k] == c
  {
    forall k
      ensures OccursAt(s, [c], k) <==> 0 <= k < |s| && s[k] == c
    {
      OccursAtChar(s, c, k);
    }
  }

  /** `IndexOf` finds the first occurrence of a one-character delimiter. */
  lemma IndexOfChar(a: string, c: char, b: string)
    requires c !in a
    ensures IndexOf(a + [c] + b, [c]) == |a|
  {
    var s := a + [c] + b;
    var r := IndexOf(s, [c]);
    OccursAtChar(s, c, |a|);
    OccursAtChar(s, c, r);
  }

  /** A delimiter whose first character is absent from `s` is not found. */
  lemma IndexOfAbsent(s: string, d: string)
    requires |d| > 0 && d[0] !in s
    ensures IndexOf(s, d) == -1
  {
  }

  /**
   * Every piece of `s` between occurrences of `d`, found left to right and
   * without overlap, keeping empty pieces.
   */
  function SplitAll(s: string, d: string): (r: seq<string>)
    requires |d| > 0
    ensures |r| >= 1
    decreases |s|
  {
    var i := IndexOf(s, d);
    if i == -1 then [s] else [s[..i]] + SplitAll(s[i + |d|..], d)
  }

  /** The pieces joined back together with `d` between them. */
  function Join(pieces: seq<string>, d: string): string
    requires |pieces| >= 1
  {
    if |pieces| == 1 then pieces[0] else pieces[0] + d + Join(pieces[1..], d)
  }

  /** Splitting and joining again gives back the original string. */
  lemma {:induction false} SplitAllJoin(s: string, d: string)
    requires |d| > 0
    ensures Join(SplitAll(s, d), d) == s
    decreases |s|
  {
    var i := IndexOf(s, d);
    if i != -1 {
      var rest := s[i + |d|..];
      var pieces := SplitAll(s, d);
      assert pieces == [s[..i]] + SplitAll(rest, d);
      SplitAllJoin(rest, d);
      assert pieces[1..] == SplitAll(rest, d);
      assert Join(pieces, d) == s[..i] + d + rest;
      assert s[i..i + |d|] == d;
      assert s == s[..i] + s[i..i + |d|] + rest;
    }
  }

  /** No piece contains the delimiter. */
  lemma {:induction false} SplitAllPiecesFree(s: string, d: string)
    requires |d| > 0
    ensures forall j :: 0 <= j < |SplitAll(s, d)| ==> IndexOf(SplitAll(s, d)[j], d) == -1
    decreases |s|
  {
    var i := IndexOf(s, d);
    if i != -1 {
      var rest := s[i + |d|..];
      SplitAllPiecesFree(rest, d);
      assert IndexOf(s[..i], d) == -1 by {
        var p := s[..i];
        var r := IndexOf(p, d);
        if r != -1 {
          assert p[r..r + |d|] == s[r..r + |d|];
          assert OccursAt(s, d, r);
        }
      }
      var pieces := SplitAll(s, d);
      assert pieces == [s[..i]] + SplitAll(rest, d);
      forall j | 0 <= j < |pieces| ensures IndexOf(pieces[j], d) == -1 {
        if j > 0 {
          assert pieces[j] == SplitAll(rest, d)[j - 1];
        }
      }
    }
  }

  /** Drops the empty strings at the end of `pieces`, as `split` with limit 0 does. */
  function TrimTrailingEmpty(pieces: seq<string>): (r: seq<string>)
    ensures |r| <= |pieces| && r == pieces[..|r|]
    ensures forall k :: |r| <= k < |pieces| ==> pieces[k] == []
    ensures |r| > 0 ==> r[|r| - 1] != []
    decreases |pieces|
  {
    if |pieces| > 0 && pieces[|pieces| - 1] == [] then TrimTrailingEmpty(pieces[..|pieces| - 1])
    else pieces
  }

  /**
   * `s.split(d)` for a pattern `d` without metacharacters: when `d` does not
   * occur the result is `[s]` (so `"".split(d)` is `[""]`); otherwise the
   * pieces between occurrences with the trailing empty ones removed.
   */
  function Split(s: string, d: string): (r: seq<string>)
    requires |d| > 0
    ensures |r| <= |SplitAll(s, d)| && r == SplitAll(s, d)[..|r|]
    ensures forall k :: |r| <= k < |SplitAll(s, d)| ==> SplitAll(s, d)[k] == []
    ensures forall k :: 0 <= k < |r| ==> IndexOf(r[k], d) == -1
    ensures IndexOf(s, d) == -1 ==> r == [s]
    ensures IndexOf(s, d) != -1 && |r| > 0 ==> r[|r| - 1] != []
  {
    SplitAllPiecesFree(s, d);
    if IndexOf(s, d) == -1 then [s] else TrimTrailingEmpty(SplitAll(s, d))
  }

  /** Every character of `s` is `c`. */
  ghost predicate AllChar(s: string, c: char) {
    forall k :: 0 <= k < |s| ==> s[k] == c
  }

  /** Joining pieces that are empty after the first one with `[c]` appends only `c`s. */
  lemma {:induction false} JoinEmptyTail(pieces: seq<string>, c: char)
    requires |pieces| >= 1
    requires forall k :: 1 <= k < |pieces| ==> pieces[k] == []
    ensures |pieces[0]| <= |Join(pieces, [c])|
    ensures Join(pieces, [c])[..|pieces[0]|] == pieces[0]
    ensures AllChar(Join(pieces, [c])[|pieces[0]|..], c)
    decreases |pieces|
  {
    if |pieces| > 1 {
      var tail := pieces[1..];
      JoinEmptyTail(tail, c);
      assert tail[0] == [];
      var j := Join(tail, [c]);
      assert Join(pieces, [c]) == pieces[0] + [c] + j;
      assert (pieces[0] + [c] + j)[|pieces[0]|..] == [c] + j;
    }
  }

  /** A string made only of `c`, split on `[c]`, gives only empty pieces. */
  lemma {:induction false} SplitAllOnlyDelims(s: string, c: char)
    requires AllChar(s, c)
    ensures forall k :: 0 <= k < |SplitAll(s, [c])| ==> SplitAll(s, [c])[k] == []
    decreases |s|
  {
    if |s| > 0 {
      IndexOfChar([], c, s[1..]);
      assert [] + [c] + s[1..] == s;
      SplitAllOnlyDelims(s[1..], c);
      assert SplitAll(s, [c]) == [[]] + SplitAll(s[1..], [c]);
    } else {
      IndexOfAbsent(s, [c]);
    }
  }

  /**
   * `split` returns no piece at all exactly when the string is non-empty and
   * made only of the delimiter character.
   */
  lemma SplitEmptyIff(s: string, c: char)
    ensures |Split(s, [c])| == 0 <==> |s| > 0 && AllChar(s, c)
  {
    if |s| > 0 && AllChar(s, c) {
      IndexOfChar([], c, s[1..]);
      assert [] + [c] + s[1..] == s;
      SplitAllOnlyDelims(s, c);
    }
    if |Split(s, [c])| == 0 {
      var pieces := SplitAll(s, [c]);
      SplitAllJoin(s, [c]);
      JoinEmptyTail(pieces, c);
    }
  }

  /**
   * For a key without the delimiter character, `split` returns the key alone
   * exactly when the string is the key followed only by delimiters.
   */
  lemma SplitKeyOnlyIff(s: string, key: string, c: char)
    requires |key| > 0 && c !in key
    ensures (|Split(s, [c])| == 1 && Split(s, [c])[0] == key)
        <==> (|key| <= |s| && s[..|key|] == key && AllChar(s[|key|..], c))
  {
    if |key| <= |s| && s[..|key|] == key && AllChar(s[|key|..], c) {
      var rest := s[|key|..];
      assert s == key + rest;
      if |rest| == 0 {
        IndexOfAbsent(s, [c]);
        assert s == key;
      } else {
        assert key + [c] + rest[1..] == s;
        IndexOfChar(key, c, rest[1..]);
        assert s[|key| + 1..] == rest[1..];
        SplitAllOnlyDelims(rest[1..], c);
        var pieces := SplitAll(s, [c]);
        assert pieces == [key] + SplitAll(rest[1..], [c]);
        assert forall k :: 1 <= k < |pieces| ==> pieces[k] == SplitAll(rest[1..], [c])[k - 1];
        var r := TrimTrailingEmpty(pieces);
        assert |r| != 0 by { assert pieces[0] == key; }
        assert |r| < 2;
      }
    }
    if |Split(s, [c])| == 1 && Split(s, [c])[0] == key {
      if IndexOf(s, [c]) != -1 {
        var pieces := SplitAll(s, [c]);
        var r := TrimTrailingEmpty(pieces);
        assert r == pieces[..1];
        assert pieces[0] == key;
        SplitAllJoin(s, [c]);
        JoinEmptyTail(pieces, c);
        assert Join(pieces, [c]) == s;
        assert |key| <= |s|;
        assert s[..|key|] == key;
        assert AllChar(s[|key|..], c);
      } else {
        assert s == key;
        assert s[..|key|] == key && s[|key|..] == [];
      }
    }
  }

  /**
   * A key and a value free of the delimiter character, the value non-empty and
   * followed by nothing or by another delimiter: the first two pieces returned
   * are the key and the value, whatever comes after the second delimiter.
   */
  lemma SplitKeyValue(key: string, value: string, rest: string, c: char)
    requires c !in key && c !in value && |value| > 0
    requires rest == [] || rest[0] == c
    ensures var r := Split(key + [c] + value + rest, [c]);
      |r| >= 2 && r[0] == key && r[1] == value
  {
    var after := value + rest;
    var s := key + [c] + after;
    assert key + [c] + value + rest == s;
    IndexOfChar(key, c, after);
    SplitAllChar(key, c, after);
    if rest == [] {
      assert after == value;
      SplitAllNoChar(value, c);
    } else {
      assert after == value + [c] + rest[1..];
      SplitAllChar(value, c, rest[1..]);
    }
    var pieces := SplitAll(s, [c]);
    assert pieces[0] == key && pieces[1] == value;
    var r := TrimTrailingEmpty(pieces);
    assert |pieces| > 1 && pieces[1] != [];
    assert |r| >= 2;
  }

  /** Splitting on a character that `a` lacks stops right after `a`. */
  lemma SplitAllChar(a: string, c: char, b: string)
    requires c !in a
    ensures SplitAll(a + [c] + b, [c]) == [a] + SplitAll(b, [c])
  {
    var s := a + [c] + b;
    IndexOfChar(a, c, b);
    assert s[..|a|] == a && s[|a| + 1..] == b;
  }

  /** A string without the delimiter character is a piece of its own. */
  lemma SplitAllNoChar(s: string, c: char)
    requires c !in s
    ensures SplitAll(s, [c]) == [s]
  {
    IndexOfAbsent(s, [c]);
  }

  /** Nothing is trimmed when the last piece is non-empty. */
  lemma TrimKeepsNonEmptyLast(pieces: seq<string>)
    requires |pieces| > 0 && pieces[|pieces| - 1] != []
    ensures TrimTrailingEmpty(pieces) == pieces
  {
  }

  /** Two trailing empty pieces after a non-empty one are trimmed. */
  lemma TrimEmptyPair(first: string, second: string)
    requires second != []
    ensures TrimTrailingEmpty([first, second, [], []]) == [first, second]
  {
    assert [first, second, [], []][..3] == [first, second, []];
    assert [first, second, []][..2] == [first, second];
    assert TrimTrailingEmpty([first, second, [], []]) == TrimTrailingEmpty([first, second, []]);
    assert TrimTrailingEmpty([first, second, []]) == TrimTrailingEmpty([first, second]);
  }

  /** Two delimiters in a row leave an empty piece, kept because a non-empty one follows. */
  lemma SplitEmptyMiddle(key: string, value: string, c: char)
    requires c !in key && c !in value && |value| > 0
    ensures Split(key + [c, c] + value, [c]) == [key, [], value]
  {
    var mid := [] + [c] + value;
    var s := key + [c] + mid;
    assert key + [c, c] + value == s;
    assert IndexOf(s, [c]) != -1 by {
      IndexOfChar(key, c, mid);
    }
    assert SplitAll(s, [c]) == [key, [], value] by {
      SplitAllChar(key, c, mid);
      SplitAllChar([], c, value);
      SplitAllNoChar(value, c);
    }
    TrimKeepsNonEmptyLast([key, [], value]);
  }
}
