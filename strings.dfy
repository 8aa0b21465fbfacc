/** String helpers shared by the path and JSX utilities: Rust's `str::split` on one
    character, its inverse `join`, and `starts_with`. */
module Strings {

  predicate StartsWith(s: string, prefix: string) {
    |prefix| <= |s| && s[..|prefix|] == prefix
  }

  predicate EndsWith(s: string, suffix: string) {
    |suffix| <= |s| && s[|s| - |suffix|..] == suffix
  }

  /** Position of the first occurrence of `c` in `s`. */
  function IndexOf(s: string, c: char): (i: nat)
    requires c in s
    ensures i < |s| && s[i] == c && c !in s[..i]
  {
    if s[0] == c then 0 else 1 + IndexOf(s[1..], c)
  }

  /** `s.split(sep).collect()`: the maximal pieces between occurrences of `sep`;
      an empty input gives one empty piece. */
  function Split(s: string, sep: char): (parts: seq<string>)
    ensures |parts| >= 1
    ensures forall i :: 0 <= i < |parts| ==> sep !in parts[i]
    decreases |s|
  {
    if sep !in s then [s]
    else
      var i := IndexOf(s, sep);
      [s[..i]] + Split(s[i + 1..], sep)
  }

  /** The pieces glued back together with `sep` between neighbours. */
  function Join(parts: seq<string>, sep: char): string {
    if |parts| == 0 then ""
    else if |parts| == 1 then parts[0]
    else parts[0] + [sep] + Join(parts[1..], sep)
  }

  /** Splitting loses nothing: joining the pieces gives back the input. */
  lemma {:induction false} JoinSplit(s: string, sep: char)
    ensures Join(Split(s, sep), sep) == s
    decreases |s|
  {
    if sep in s {
      var i := IndexOf(s, sep);
      JoinSplit(s[i + 1..], sep);
      var rest := Split(s[i + 1..], sep);
      assert Split(s, sep) == [s[..i]] + rest;
      assert ([s[..i]] + rest)[1..] == rest;
      assert s == s[..i] + [sep] + s[i + 1..];
    }
  }

  /** The first `sep` of `p + [sep] + tail` is the one after `p` when `p` has none. */
  lemma {:induction false} IndexOfAfterPrefix(p: string, sep: char, tail: string)
    requires sep !in p
    ensures sep in p + [sep] + tail && IndexOf(p + [sep] + tail, sep) == |p|
    decreases |p|
  {
    var s := p + [sep] + tail;
    assert s[|p|] == sep;
    if |p| > 0 {
      assert s[1..] == p[1..] + [sep] + tail;
      IndexOfAfterPrefix(p[1..], sep, tail);
    }
  }

  /** Splitting `p + [sep] + tail`, where `p` has no `sep`, gives `p` and then the pieces of `tail`. */
  lemma SplitAfterPrefix(p: string, sep: char, tail: string)
    requires sep !in p
    ensures Split(p + [sep] + tail, sep) == [p] + Split(tail, sep)
  {
    var s := p + [sep] + tail;
    IndexOfAfterPrefix(p, sep, tail);
    assert s[..|p|] == p;
    assert s[|p| + 1..] == tail;
  }

  /** Joining pieces free of `sep` and splitting again gives back the pieces. */
  lemma {:induction false} SplitJoin(parts: seq<string>, sep: char)
    requires |parts| >= 1
    requires forall i :: 0 <= i < |parts| ==> sep !in parts[i]
    ensures Split(Join(parts, sep), sep) == parts
  {
    if |parts| > 1 {
      var tail := Join(parts[1..], sep);
      assert Join(parts, sep) == parts[0] + [sep] + tail;
      SplitJoin(parts[1..], sep);
      SplitAfterPrefix(parts[0], sep, tail);
      assert parts == [parts[0]] + parts[1..];
    }
  }

  /** A character other than `sep` that no piece holds is not in the join. */
  lemma {:induction false} JoinAvoids(parts: seq<string>, sep: char, c: char)
    requires c != sep
    requires forall i :: 0 <= i < |parts| ==> c !in parts[i]
    ensures c !in Join(parts, sep)
    decreases |parts|
  {
    if |parts| > 1 {
      JoinAvoids(parts[1..], sep, c);
      assert c !in parts[0];
    }
  }

  /** Splitting a string in which `sep` does not occur gives the string itself. */
  lemma SplitWithoutSeparator(s: string, sep: char)
    requires sep !in s
    ensures Split(s, sep) == [s]
  {
  }

  /** Every piece is a contiguous part of the input, so a character absent from the
      input is absent from every piece. */
  lemma {:induction false} SplitPiecesAvoid(s: string, sep: char, c: char)
    requires c !in s
    ensures forall i :: 0 <= i < |Split(s, sep)| ==> c !in Split(s, sep)[i]
    decreases |s|
  {
    if sep in s {
      var i := IndexOf(s, sep);
      assert s == s[..i] + [sep] + s[i + 1..];
      SplitPiecesAvoid(s[i + 1..], sep, c);
    }
  }

  /** The last piece is a suffix of the input. */
  lemma {:induction false} SplitLastIsSuffix(s: string, sep: char)
    ensures EndsWith(s, Split(s, sep)[|Split(s, sep)| - 1])
    decreases |s|
  {
    if sep in s {
      var i := IndexOf(s, sep);
      SplitLastIsSuffix(s[i + 1..], sep);
      var rest := Split(s[i + 1..], sep);
      assert Split(s, sep)[|Split(s, sep)| - 1] == rest[|rest| - 1];
      var t := s[i + 1..];
      var l := rest[|rest| - 1];
      assert s[|s| - |l|..] == t[|t| - |l|..];
    }
  }
}
