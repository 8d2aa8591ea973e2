/**
 * The string operations the monitor relies on: ASCII lower-casing and a
 * substring test (the title check), and splitting on a separator (the
 * display name derived from a URL).
 */
module Strings {

  /** ASCII lower-casing of one character; every other character is left alone. */
  function LowerChar(c: char): char {
    if 'A' <= c <= 'Z' then (c as int + 32) as char else c
  }

  /** `s.lower()`, restricted to ASCII letters. */
  function Lower(s: string): string {
    seq(|s|, i requires 0 <= i < |s| => LowerChar(s[i]))
  }

  /** `sub` occurs in `s` starting at position `i`. */
  predicate OccursAt(s: string, sub: string, i: int) {
    0 <= i <= |s| - |sub| && s[i..i + |sub|] == sub
  }

  /** `sub in s`: `sub` occurs in `s` at some position. */
  predicate Contains(s: string, sub: string) {
    exists i | 0 <= i <= |s| :: OccursAt(s, sub, i)
  }

  /** `sep.join(parts)`. */
  function Join(parts: seq<string>, sep: char): string
    decreases |parts|
  {
    if |parts| == 0 then ""
    else if |parts| == 1 then parts[0]
    else Join(parts[..|parts| - 1], sep) + [sep] + parts[|parts| - 1]
  }

  /**
   * `s.split(sep)`: the maximal runs of `s` between occurrences of `sep`,
   * empty runs included; there is always at least one part.
   */
  function Split(s: string, sep: char): (parts: seq<string>)
    ensures |parts| >= 1
    decreases |s|
  {
    if |s| == 0 then [""]
    else
      var init := Split(s[..|s| - 1], sep);
      var c := s[|s| - 1];
      if c == sep then init + [""]
      else init[..|init| - 1] + [init[|init| - 1] + [c]]
  }

  /** No part of a split contains the separator. */
  lemma {:induction false} SplitPartsHaveNoSeparator(s: string, sep: char)
    ensures forall k :: 0 <= k < |Split(s, sep)| ==> sep !in Split(s, sep)[k]
  {
    if |s| > 0 {
      SplitPartsHaveNoSeparator(s[..|s| - 1], sep);
    }
  }

  /** Joining one more part appends the separator and that part. */
  lemma JoinSnoc(front: seq<string>, last: string, sep: char)
    requires |front| >= 1
    ensures Join(front + [last], sep) == Join(front, sep) + [sep] + last
  {
    assert (front + [last])[..|front|] == front;
  }

  /** Extending the last part by a character extends the joined string by it. */
  lemma JoinExtendLast(parts: seq<string>, c: char, sep: char)
    requires |parts| >= 1
    ensures Join(parts[..|parts| - 1] + [parts[|parts| - 1] + [c]], sep) == Join(parts, sep) + [c]
  {
    var front := parts[..|parts| - 1];
    var last := parts[|parts| - 1];
    assert parts == front + [last];
    if |front| > 0 {
      JoinSnoc(front, last + [c], sep);
      JoinSnoc(front, last, sep);
    }
  }

  /** Splitting and joining again gives back the original string. */
  lemma {:induction false} JoinSplit(s: string, sep: char)
    ensures Join(Split(s, sep), sep) == s
  {
    if |s| > 0 {
      var s' := s[..|s| - 1];
      var c := s[|s| - 1];
      var init := Split(s', sep);
      JoinSplit(s', sep);
      if c == sep {
        JoinSnoc(init, "", sep);
      } else {
        JoinExtendLast(init, c, sep);
      }
      assert s == s' + [c];
    }
  }

  /**
   * The last part of a split is the suffix of `s` after the last separator:
   * `s` ends with it, and it is either all of `s` or preceded by `sep`.
   */
  lemma {:induction false} LastPartIsSuffix(s: string, sep: char)
    ensures var last := Split(s, sep)[|Split(s, sep)| - 1];
      && |last| <= |s|
      && s[|s| - |last|..] == last
      && (|last| == |s| || s[|s| - |last| - 1] == sep)
  {
    if |s| > 0 {
      LastPartIsSuffix(s[..|s| - 1], sep);
    }
  }

  /** A string ending in the separator splits into the parts of its prefix plus one empty part. */
  lemma TrailingSeparatorSplit(s: string, sep: char)
    requires |s| > 0 && s[|s| - 1] == sep
    ensures Split(s, sep) == Split(s[..|s| - 1], sep) + [""]
  {
  }

  /** Only the empty string has a split consisting of one empty part. */
  lemma {:induction false} SplitSingleEmpty(s: string, sep: char)
    ensures Split(s, sep) == [""] <==> s == ""
  {
    if |s| > 0 {
      var init := Split(s[..|s| - 1], sep);
      var c := s[|s| - 1];
      if c == sep {
        assert |Split(s, sep)| == |init| + 1 >= 2;
      } else {
        assert Split(s, sep)[|Split(s, sep)| - 1] == init[|init| - 1] + [c];
      }
    }
  }
}
