/**
 * Splitting a string on a single separator character, as Rust's
 * `str::split(char)` does: every occurrence of the separator ends a
 * segment, so a string with n separators yields n + 1 segments, and the
 * empty string yields one empty segment.
 */
module Text {

  /** The segments joined back together with `sep` between neighbours. */
  function Join(parts: seq<string>, sep: char): string
    decreases |parts|
  {
    if |parts| == 0 then ""
    else if |parts| == 1 then parts[0]
    else parts[0] + [sep] + Join(parts[1..], sep)
  }

  /** The segments of `s` between occurrences of `sep`, in order. */
  function Split(s: string, sep: char): (parts: seq<string>)
    ensures |parts| >= 1
    ensures forall k :: 0 <= k < |parts| ==> sep !in parts[k]
    ensures Join(parts, sep) == s
    decreases |s|
  {
    if |s| == 0 then [""]
    else
      var rest := Split(s[1..], sep);
      assert s == [s[0]] + s[1..];
      if s[0] == sep then
        [""] + rest
      else
        var head := [s[0]] + rest[0];
        assert |rest| > 1 ==> Join(rest, sep) == rest[0] + [sep] + Join(rest[1..], sep);
        [head] + rest[1..]
  }

  /** The number of occurrences of `sep` in `s`. */
  function Count(s: string, sep: char): nat
    decreases |s|
  {
    if |s| == 0 then 0 else (if s[0] == sep then 1 else 0) + Count(s[1..], sep)
  }

  /** `sep` occurs in `s` exactly once, at index i. */
  predicate SoleSeparatorAt(s: string, sep: char, i: int)
  {
    0 <= i < |s| && s[i] == sep && sep !in s[..i] && sep !in s[i + 1..]
  }

  /** One step of Split: the first character either ends the first segment or joins it. */
  lemma SplitStep(s: string, sep: char)
    requires |s| > 0
    ensures var rest := Split(s[1..], sep);
      Split(s, sep) == if s[0] == sep then [""] + rest else [[s[0]] + rest[0]] + rest[1..]
  {
  }

  /** A segment free of separators that is followed by one is split off whole. */
  lemma {:induction false} SplitAfterSegment(a: string, sep: char, rest: string)
    requires sep !in a
    ensures Split(a + [sep] + rest, sep) == [a] + Split(rest, sep)
    decreases |a|
  {
    var s := a + [sep] + rest;
    SplitStep(s, sep);
    if |a| == 0 {
      assert s[1..] == rest;
    } else {
      assert s[0] == a[0] && s[1..] == a[1..] + [sep] + rest;
      SplitAfterSegment(a[1..], sep, rest);
      var tail := Split(s[1..], sep);
      assert tail[0] == a[1..] && tail[1..] == Split(rest, sep);
      assert [a[0]] + a[1..] == a;
    }
  }

  /** A string free of separators is a single segment. */
  lemma SplitWithoutSeparator(a: string, sep: char)
    requires sep !in a
    ensures Split(a, sep) == [a]
  {
  }

  /** Split undoes Join on separator-free segments. */
  lemma {:induction false} SplitOfJoin(parts: seq<string>, sep: char)
    requires |parts| >= 1
    requires forall k :: 0 <= k < |parts| ==> sep !in parts[k]
    ensures Split(Join(parts, sep), sep) == parts
    decreases |parts|
  {
    if |parts| == 1 {
      SplitWithoutSeparator(parts[0], sep);
    } else {
      SplitOfJoin(parts[1..], sep);
      SplitAfterSegment(parts[0], sep, Join(parts[1..], sep));
      assert [parts[0]] + parts[1..] == parts;
    }
  }

  /** A string with its only separator at index i splits into the text before and after i. */
  lemma SplitAtSoleSeparator(s: string, sep: char, i: int)
    requires SoleSeparatorAt(s, sep, i)
    ensures Split(s, sep) == [s[..i], s[i + 1..]]
  {
    assert s == s[..i] + [sep] + s[i + 1..];
    SplitAfterSegment(s[..i], sep, s[i + 1..]);
    SplitWithoutSeparator(s[i + 1..], sep);
  }

  /**
   * Split yields exactly two segments iff the separator occurs exactly
   * once, and then the segments are the text on either side of it.
   */
  lemma SplitInTwo(s: string, sep: char)
    ensures |Split(s, sep)| == 2 <==> exists i :: SoleSeparatorAt(s, sep, i)
    ensures forall i :: SoleSeparatorAt(s, sep, i) ==> Split(s, sep) == [s[..i], s[i + 1..]]
  {
    forall i | SoleSeparatorAt(s, sep, i)
      ensures Split(s, sep) == [s[..i], s[i + 1..]]
    {
      SplitAtSoleSeparator(s, sep, i);
    }
    var parts := Split(s, sep);
    if |parts| == 2 {
      var p := |parts[0]|;
      assert Join(parts, sep) == parts[0] + [sep] + parts[1];
      assert s == parts[0] + [sep] + parts[1];
      assert s[..p] == parts[0] && s[p + 1..] == parts[1];
      assert SoleSeparatorAt(s, sep, p);
    }
  }

  /** n separators give n + 1 segments. */
  lemma {:induction false} SplitCount(s: string, sep: char)
    ensures |Split(s, sep)| == Count(s, sep) + 1
    decreases |s|
  {
    if |s| > 0 {
      SplitStep(s, sep);
      SplitCount(s[1..], sep);
    }
  }
}
