/**
 * Splitting an identifier into its '/'-separated pieces and putting pieces back
 * together: `String.split(sep, -1)`, which keeps every piece including empty ones
 * at either end, and the string that DocId's encode and decode loops build by
 * appending the separator and then each piece.
 */
module Paths {

  /** Every piece preceded by `sep`, all concatenated: "/a" + "/b" + ... */
  function Prefixed(parts: seq<string>, sep: char): (s: string)
    ensures |s| >= |parts|
    ensures parts != [] ==> s[0] == sep
  {
    if parts == [] then []
    else Prefixed(parts[..|parts| - 1], sep) + [sep] + parts[|parts| - 1]
  }

  /** No piece holds the separator. */
  ghost predicate Separated(parts: seq<string>, sep: char)
  {
    forall i :: 0 <= i < |parts| ==> sep !in parts[i]
  }

  /**
   * `s.split(sep, -1)` for a one-character separator that is not a regular-expression
   * metacharacter. It always yields at least one piece; `SplitJoin` and
   * `SplitCount` state what the pieces are.
   */
  function Split(s: string, sep: char): (parts: seq<string>)
    ensures parts != []
    decreases |s|
  {
    if s == [] then [[]]
    else
      var init := Split(s[..|s| - 1], sep);
      if s[|s| - 1] == sep then init + [[]]
      else init[..|init| - 1] + [init[|init| - 1] + [s[|s| - 1]]]
  }

  /** The pieces hold no separator, and putting the separator back in front of each gives `s`. */
  lemma {:induction false} SplitJoin(s: string, sep: char)
    ensures Separated(Split(s, sep), sep)
    ensures Prefixed(Split(s, sep), sep) == [sep] + s
    decreases |s|
  {
    if s != [] {
      var front, c := s[..|s| - 1], s[|s| - 1];
      assert s == front + [c];
      SplitJoin(front, sep);
      var init := Split(front, sep);
      var parts := Split(s, sep);
      if c == sep {
        assert parts == init + [[]];
        assert parts[..|parts| - 1] == init;
      } else {
        SplitJoinExtend(init, c, sep);
      }
    }
  }

  /** Appending a non-separator to the last piece keeps the pieces separated and extends their join by it. */
  lemma SplitJoinExtend(init: seq<string>, c: char, sep: char)
    requires init != [] && c != sep
    requires Separated(init, sep)
    ensures var parts := init[..|init| - 1] + [init[|init| - 1] + [c]];
      Separated(parts, sep) && Prefixed(parts, sep) == Prefixed(init, sep) + [c]
  {
    var before, last := init[..|init| - 1], init[|init| - 1];
    var parts := before + [last + [c]];
    assert parts[..|parts| - 1] == before;
    assert init == before + [last];
    assert Prefixed(init, sep) == Prefixed(before, sep) + [sep] + last;
    assert forall i :: 0 <= i < |before| ==> before[i] == init[i];
  }

  /** There is one piece more than there are separators in `s`, so empty pieces are kept. */
  lemma {:induction false} SplitCount(s: string, sep: char)
    ensures |Split(s, sep)| == multiset(s)[sep] + 1
    decreases |s|
  {
    if s != [] {
      var front, c := s[..|s| - 1], s[|s| - 1];
      assert s == front + [c];
      assert multiset(s) == multiset(front) + multiset{c};
      SplitCount(front, sep);
    }
  }

  /** A string without the separator is a single piece. */
  lemma {:induction false} SplitWithoutSeparator(p: string, sep: char)
    requires sep !in p
    ensures Split(p, sep) == [p]
    decreases |p|
  {
    if p != [] {
      SplitWithoutSeparator(p[..|p| - 1], sep);
      assert p[..|p| - 1] + [p[|p| - 1]] == p;
    }
  }

  /** Text after the last separator becomes the last piece. */
  lemma {:induction false} SplitAfterSeparator(x: string, p: string, sep: char)
    requires sep !in p
    ensures Split(x + [sep] + p, sep) == Split(x, sep) + [p]
    decreases |p|
  {
    var s := x + [sep] + p;
    if p == [] {
      assert s[..|s| - 1] == x;
    } else {
      var q, c := p[..|p| - 1], p[|p| - 1];
      assert s[..|s| - 1] == x + [sep] + q;
      assert s[|s| - 1] == c;
      SplitAfterSeparator(x, q, sep);
      assert q + [c] == p;
    }
  }

  /** Splitting the joined pieces, without the leading separator, gives the pieces back. */
  lemma {:induction false} SplitPrefixed(parts: seq<string>, sep: char)
    requires parts != []
    requires Separated(parts, sep)
    ensures Split(Prefixed(parts, sep)[1..], sep) == parts
    decreases |parts|
  {
    var init, last := parts[..|parts| - 1], parts[|parts| - 1];
    if init == [] {
      assert Prefixed(parts, sep)[1..] == last;
      SplitWithoutSeparator(last, sep);
    } else {
      var x := Prefixed(init, sep)[1..];
      assert Prefixed(parts, sep)[1..] == x + [sep] + last;
      SplitPrefixed(init, sep);
      SplitAfterSeparator(x, last, sep);
      assert init + [last] == parts;
    }
  }
}
