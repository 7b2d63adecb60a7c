/** The `match: /.+@.+\..+/` constraint on a student's `correo`
    (models/estudientes.js). The pattern has no anchors, so it accepts any
    string that CONTAINS a match; JavaScript's `.` is any character except
    a line terminator. */
module CorreoRegex {
  import opened Text

  /** JavaScript's `.` without the `s` flag. */
  predicate Dot(c: char) {
    !IsLineTerminator(c)
  }

  /** The pattern matches with its `@` at index `i` and its `\.` at index
      `j`: one `.` right before the `@`, a non-empty run of `.` between
      them, and one `.` right after the dot. */
  predicate MatchesAt(s: string, i: int, j: int) {
    && 0 < i && i + 1 < j && j + 1 < |s|
    && Dot(s[i - 1]) && s[i] == '@'
    && (forall k :: i < k < j ==> Dot(s[k]))
    && s[j] == '.' && Dot(s[j + 1])
  }

  /** `/.+@.+\..+/.test(s)`. */
  predicate CorreoPattern(s: string) {
    exists i, j :: 0 <= i < |s| && 0 <= j < |s| && MatchesAt(s, i, j)
  }

  /** An accepted `correo` has an `@` past its first character and a later
      `.` with at least one character on each side. */
  lemma CorreoShape(s: string)
    requires CorreoPattern(s)
    ensures exists i, j :: 0 < i && i + 1 < j < |s| - 1 && s[i] == '@' && s[j] == '.'
  {
  }

  /** Helper of `MatchCorreo`. Every character of a match, from the one before the `@` to the dot,
      is a `.` character. */
  lemma MatchSpansDots(s: string, i: int, j: int)
    requires MatchesAt(s, i, j)
    ensures forall m :: i - 1 <= m <= j ==> Dot(s[m])
  {
  }

  /** One left-to-right pass deciding the pattern. `start` is where the
      current run of non-line-terminators begins; `at` is the earliest `@`
      of that run with a run character before it (-1 when there is none).
      The earliest such `@` is the best candidate for every later dot. */
  method MatchCorreo(s: string) returns (b: bool)
    ensures b <==> CorreoPattern(s)
  {
    var start := 0;
    var at := -1;
    var k := 0;
    while k < |s|
      invariant 0 <= start <= k <= |s|
      invariant start == 0 || IsLineTerminator(s[start - 1])
      invariant forall m :: start <= m < k ==> Dot(s[m])
      invariant at == -1 || (start < at < k && s[at] == '@')
      invariant forall m :: start < m < k && s[m] == '@' ==> at != -1 && at <= m
      invariant forall i, j :: 0 <= i < |s| && 0 <= j < k ==> !MatchesAt(s, i, j)
    {
      if IsLineTerminator(s[k]) {
        start, at := k + 1, -1;
      } else {
        forall i | 0 <= i < |s| && MatchesAt(s, i, k)
          ensures at != -1 && at + 1 < k
        {
          MatchSpansDots(s, i, k);
          if start > 0 {
            assert !Dot(s[start - 1]);
          }
          assert start < i;
        }
        if s[k] == '.' && at != -1 && at + 1 < k && k + 1 < |s| && Dot(s[k + 1]) {
          assert MatchesAt(s, at, k);
          return true;
        }
        if s[k] == '@' && at == -1 && start < k {
          at := k;
        }
      }
      k := k + 1;
    }
    return false;
  }
}
