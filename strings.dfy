/**
 * The operations of Python's `str` that the cooperative tasks use, on
 * `string` (a sequence of `char`): prefix and suffix tests, slicing,
 * `find`, `split` and `join`.
 */
module Strings {

  /** `s.startswith(p)` */
  predicate StartsWith(s: string, p: string) {
    |p| <= |s| && s[..|p|] == p
  }

  /** `s.endswith(p)` */
  predicate EndsWith(s: string, p: string) {
    |p| <= |s| && s[|s| - |p|..] == p
  }

  /** A prefix of a string is a prefix of any extension of it. */
  lemma StartsWithConcat(a: string, b: string, p: string)
    requires StartsWith(a, p)
    ensures StartsWith(a + b, p)
  {
    assert (a + b)[..|p|] == a[..|p|];
  }

  /** `s[n:]` for a non-negative `n`: empty once `n` runs past the end. */
  function Drop(s: string, n: nat): string {
    if n <= |s| then s[n..] else ""
  }

  /** `sep` occurs in `s` starting at index `i`. */
  predicate MatchAt(s: string, sep: string, i: nat) {
    i + |sep| <= |s| && s[i..i + |sep|] == sep
  }

  /** `sep in s` */
  predicate Contains(s: string, sep: string) {
    exists i: nat :: i <= |s| && MatchAt(s, sep, i)
  }

  /** `c.isdecimal()` restricted to the ASCII digits. */
  predicate IsDigit(c: char) {
    '0' <= c <= '9'
  }

  /** `s.isdecimal()`: non-empty and made of digits only. */
  predicate IsDecimal(s: string) {
    |s| > 0 && forall i :: 0 <= i < |s| ==> IsDigit(s[i])
  }

  lemma MatchAtTail(s: string, sep: string)
    requires s != ""
    ensures forall i: nat :: MatchAt(s[1..], sep, i) <==> MatchAt(s, sep, i + 1)
    ensures forall i: nat :: 1 <= i ==> (MatchAt(s, sep, i) <==> MatchAt(s[1..], sep, i - 1))
  {
    forall i: nat
      ensures MatchAt(s[1..], sep, i) <==> MatchAt(s, sep, i + 1)
    {
      if i + 1 + |sep| <= |s| {
        assert s[1..][i..i + |sep|] == s[i + 1..i + 1 + |sep|];
      }
    }
  }

  /**
   * Index of the leftmost occurrence of `sep` in `s`, or `|s|` when there
   * is none (`s.find(sep)`, with -1 read as `|s|`).
   */
  function FirstMatch(s: string, sep: string): (n: nat)
    requires sep != ""
    ensures n <= |s|
    ensures n < |s| ==> MatchAt(s, sep, n)
    ensures forall i: nat :: i < n ==> !MatchAt(s, sep, i)
    decreases |s|
  {
    if s == "" || MatchAt(s, sep, 0) then 0
    else
      MatchAtTail(s, sep);
      1 + FirstMatch(s[1..], sep)
  }

  /** The search comes back with `|s|` exactly when `sep` does not occur in `s`. */
  lemma FirstMatchFindsOccurrence(s: string, sep: string)
    requires sep != ""
    ensures FirstMatch(s, sep) == |s| <==> !Contains(s, sep)
  {
    var n := FirstMatch(s, sep);
    if n < |s| {
      assert n <= |s| && MatchAt(s, sep, n);
    }
  }

  /** Index of the first character of `s` that is in `stops`, or `|s|`. */
  function FindFirst(s: string, stops: set<char>): (n: nat)
    ensures n <= |s|
    ensures n < |s| ==> s[n] in stops
    ensures forall i :: 0 <= i < n ==> s[i] !in stops
  {
    if s == "" || s[0] in stops then 0 else 1 + FindFirst(s[1..], stops)
  }

  /**
   * `s.split(sep)`: cut at the leftmost occurrence of `sep` and go on with
   * what follows it; without an occurrence the string is a single piece.
   */
  function Split(s: string, sep: string): (parts: seq<string>)
    requires sep != ""
    ensures |parts| >= 1
    decreases |s|
  {
    var n := FirstMatch(s, sep);
    if n < |s| then [s[..n]] + Split(s[n + |sep|..], sep) else [s]
  }

  /** `sep.join(parts)` */
  function Join(sep: string, parts: seq<string>): string {
    if parts == [] then ""
    else if |parts| == 1 then parts[0]
    else parts[0] + sep + Join(sep, parts[1..])
  }

  /** A string without the separator is a single piece. */
  lemma {:induction false} SplitWithout(s: string, sep: string)
    requires sep != "" && !Contains(s, sep)
    ensures Split(s, sep) == [s]
  {
    FirstMatchFindsOccurrence(s, sep);
  }

  /**
   * When nothing before the separator that follows `a` (nor overlapping it)
   * is a match, `a` is the first piece and the rest is split on its own.
   */
  lemma {:induction false} SplitAfterPrefix(a: string, sep: string, b: string)
    requires sep != "" && !Contains(a + sep[..|sep| - 1], sep)
    ensures Split(a + sep + b, sep) == [a] + Split(b, sep)
  {
    var s := a + sep + b;
    var head := a + sep[..|sep| - 1];
    assert MatchAt(s, sep, |a|) by {
      assert s[|a|..|a| + |sep|] == sep;
    }
    forall i: nat | i < |a|
      ensures !MatchAt(s, sep, i)
    {
      assert MatchAt(s, sep, i) ==> MatchAt(head, sep, i);
    }
    assert FirstMatch(s, sep) == |a|;
    assert s[..|a|] == a;
    assert s[|a| + |sep|..] == b;
  }

  /** Joining a first piece onto at least one more puts the separator between them. */
  lemma JoinCons(sep: string, head: string, tail: seq<string>)
    requires tail != []
    ensures Join(sep, [head] + tail) == head + sep + Join(sep, tail)
  {
    assert ([head] + tail)[1..] == tail;
  }

  /** A match cuts the string into what precedes it, the separator and what follows it. */
  lemma CutAtMatch(s: string, sep: string, n: nat)
    requires MatchAt(s, sep, n)
    ensures s == s[..n] + sep + s[n + |sep|..]
  {
    assert s[n..n + |sep|] == sep;
    assert s == s[..n] + s[n..n + |sep|] + s[n + |sep|..];
  }

  /** A common head keeps a prefix a prefix. */
  lemma StartsWithAfter(a: string, b: string, p: string)
    requires StartsWith(b, p)
    ensures StartsWith(a + b, a + p)
  {
    assert (a + b)[..|a + p|] == a + b[..|p|];
  }

  /** The first piece of a split is the text before the first match. */
  lemma FirstPiece(s: string, sep: string)
    requires sep != ""
    ensures Split(s, sep)[0] == s[..FirstMatch(s, sep)]
  {
  }

  /** Joining the pieces of a split with the same separator gives back the string. */
  lemma {:induction false} JoinSplit(s: string, sep: string)
    requires sep != ""
    ensures Join(sep, Split(s, sep)) == s
    decreases |s|
  {
    var n := FirstMatch(s, sep);
    if n < |s| {
      var rest := s[n + |sep|..];
      JoinSplit(rest, sep);
      JoinCons(sep, s[..n], Split(rest, sep));
      CutAtMatch(s, sep, n);
    }
  }

  /** No piece of a split contains the separator. */
  lemma {:induction false} SplitPiecesAvoidSeparator(s: string, sep: string)
    requires sep != ""
    ensures forall p :: p in Split(s, sep) ==> !Contains(p, sep)
    decreases |s|
  {
    var n := FirstMatch(s, sep);
    var first := s[..n];
    assert !Contains(first, sep) by {
      forall i: nat | MatchAt(first, sep, i)
        ensures false
      {
        MatchInPrefix(s, sep, n, i);
      }
    }
    if n < |s| {
      SplitPiecesAvoidSeparator(s[n + |sep|..], sep);
    }
  }

  /** A match inside a prefix is a match in the whole string. */
  lemma MatchInPrefix(s: string, sep: string, n: nat, i: nat)
    requires n <= |s| && MatchAt(s[..n], sep, i)
    ensures MatchAt(s, sep, i)
  {
    assert s[..n][i..i + |sep|] == s[i..i + |sep|];
  }

  /** For a one-character separator, occurrence is membership. */
  lemma ContainsChar(s: string, c: char)
    ensures Contains(s, [c]) <==> c in s
  {
    if c in s {
      var i :| 0 <= i < |s| && s[i] == c;
      assert s[i..i + 1] == [c];
      assert i <= |s| && MatchAt(s, [c], i);
    }
    if Contains(s, [c]) {
      var i: nat :| i <= |s| && MatchAt(s, [c], i);
      assert s[i] == s[i..i + 1][0];
    }
  }

  /** A split on a character yields two or more pieces exactly when the character occurs. */
  lemma {:induction false} SplitCountChar(s: string, c: char)
    ensures |Split(s, [c])| >= 2 <==> c in s
  {
    ContainsChar(s, c);
    FirstMatchFindsOccurrence(s, [c]);
  }

  /**
   * Splitting is the inverse of joining for a character separator: pieces
   * without the character come back unchanged.
   */
  lemma {:induction false} SplitJoinChar(parts: seq<string>, c: char)
    requires |parts| >= 1
    requires forall p :: p in parts ==> c !in p
    ensures Split(Join([c], parts), [c]) == parts
  {
    ContainsChar(parts[0], c);
    if |parts| == 1 {
      SplitWithout(parts[0], [c]);
    } else {
      SplitJoinChar(parts[1..], c);
      assert parts[0] + [c][..0] == parts[0];
      SplitAfterPrefix(parts[0], [c], Join([c], parts[1..]));
    }
  }

}
