/** The string operations the record schemas rely on: JavaScript's
    `String.prototype.trim` (Mongoose's `trim: true` setter) and the
    UTF-16 length JavaScript reports for a string (Joi's `length` rule). */
module Text {

  /** LineTerminator of ECMAScript section 12.3. */
  predicate IsLineTerminator(c: char) {
    c == '\n' || c == '\r' || c == '\U{2028}' || c == '\U{2029}'
  }

  /** WhiteSpace (section 12.2 of ECMAScript) or LineTerminator: exactly the
      characters `trim` strips. */
  predicate IsJsWhitespace(c: char) {
    || c == '\t' || c == '\U{000B}' || c == '\U{000C}' || c == ' '
    || c == '\U{00A0}' || c == '\U{FEFF}' || c == '\U{1680}'
    || ('\U{2000}' <= c <= '\U{200A}')
    || c == '\U{202F}' || c == '\U{205F}' || c == '\U{3000}'
    || IsLineTerminator(c)
  }

  predicate AllWhitespace(s: string) {
    forall k :: 0 <= k < |s| ==> IsJsWhitespace(s[k])
  }

  /** Neither the first nor the last character is whitespace. */
  predicate Trimmed(s: string) {
    s == [] || (!IsJsWhitespace(s[0]) && !IsJsWhitespace(s[|s| - 1]))
  }

  /** Helper of `Trim`. Drops the whitespace prefix: the result is a suffix of `s`, what was
      dropped is whitespace, and the result does not start with whitespace. */
  function TrimStart(s: string): (r: string)
    ensures |r| <= |s| && r == s[|s| - |r|..]
    ensures forall k :: 0 <= k < |s| - |r| ==> IsJsWhitespace(s[k])
    ensures r == [] || !IsJsWhitespace(r[0])
  {
    if |s| > 0 && IsJsWhitespace(s[0]) then
      TrimStart(s[1..])
    else s
  }

  /** Helper of `Trim`. Drops the whitespace suffix: the result is a prefix of `s`, what was
      dropped is whitespace, and the result does not end with whitespace. */
  function TrimEnd(s: string): (r: string)
    ensures |r| <= |s| && r == s[..|r|]
    ensures forall k :: |r| <= k < |s| ==> IsJsWhitespace(s[k])
    ensures r == [] || !IsJsWhitespace(r[|r| - 1])
  {
    if |s| > 0 && IsJsWhitespace(s[|s| - 1]) then
      TrimEnd(s[..|s| - 1])
    else s
  }

  /** `s.trim()`: the result has no whitespace at either end. */
  function Trim(s: string): (r: string)
    ensures Trimmed(r)
    ensures |r| <= |s|
  {
    var t := TrimStart(s);
    var r := TrimEnd(t);
    assert Trimmed(r) by {
      if r != [] {
        assert r[0] == t[0];
      }
    }
    r
  }

  /** `r` is one slice of `s` with only whitespace around it. */
  ghost predicate WhitespaceFramed(s: string, r: string) {
    exists i :: 0 <= i <= |s| - |r| && r == s[i..i + |r|]
                && AllWhitespace(s[..i]) && AllWhitespace(s[i + |r|..])
  }

  /** What trim keeps is one slice of `s`, and everything it drops on
      either side is whitespace. */
  lemma TrimIsSlice(s: string)
    ensures WhitespaceFramed(s, Trim(s))
  {
    var t := TrimStart(s);
    var r := TrimEnd(t);
    assert r == Trim(s);
    TrimPartsSlice(s, t, r);
  }

  /** Helper of `TrimIsSlice`: a suffix `t` of `s` after a whitespace
      prefix, cut to a prefix `r` before a whitespace tail, is the slice of
      `s` that starts where `t` does. */
  lemma TrimPartsSlice(s: string, t: string, r: string)
    requires |t| <= |s| && t == s[|s| - |t|..]
    requires forall k :: 0 <= k < |s| - |t| ==> IsJsWhitespace(s[k])
    requires |r| <= |t| && r == t[..|r|]
    requires forall k :: |r| <= k < |t| ==> IsJsWhitespace(t[k])
    ensures WhitespaceFramed(s, r)
  {
    var i := |s| - |t|;
    WhitespacePrefix(s, i);
    forall k | i + |r| <= k < |s|
      ensures IsJsWhitespace(s[k])
    {
      assert s[k] == t[k - i];
    }
    WhitespaceSuffix(s, i + |r|);
    SliceWitness(s, i, r);
  }

  /** Helper of `TrimIsSlice`. */
  lemma WhitespacePrefix(s: string, i: int)
    requires 0 <= i <= |s|
    requires forall k :: 0 <= k < i ==> IsJsWhitespace(s[k])
    ensures AllWhitespace(s[..i])
  {
    forall k | 0 <= k < i
      ensures IsJsWhitespace(s[..i][k])
    {
      assert s[..i][k] == s[k];
    }
  }

  /** Helper of `TrimIsSlice`. */
  lemma WhitespaceSuffix(s: string, j: int)
    requires 0 <= j <= |s|
    requires forall k :: j <= k < |s| ==> IsJsWhitespace(s[k])
    ensures AllWhitespace(s[j..])
  {
    forall k | 0 <= k < |s| - j
      ensures IsJsWhitespace(s[j..][k])
    {
      assert s[j..][k] == s[j + k];
    }
  }

  /** Helper of `TrimIsSlice`: the slice facts at one index give the
      existential. */
  lemma SliceWitness(s: string, i: int, r: string)
    requires 0 <= i <= |s| - |r| && r == s[i..i + |r|]
    requires AllWhitespace(s[..i]) && AllWhitespace(s[i + |r|..])
    ensures WhitespaceFramed(s, r)
  {
  }

  /** Trim removes exactly the whitespace around a trimmed core: whatever
      whitespace surrounds `core`, trimming gives `core` back. */
  lemma {:induction false} TrimStripsSurroundings(pre: string, core: string, post: string)
    requires AllWhitespace(pre) && AllWhitespace(post) && Trimmed(core)
    ensures Trim(pre + core + post) == core
  {
    var s := pre + core + post;
    assert s == pre + (core + post);
    TrimStartOfPadded(pre, core + post);
    if core == [] {
      assert core + post == post;
      TrimStartAllWhitespace(post);
      assert TrimStart(s) == [];
    } else {
      assert TrimStart(core + post) == core + post;
      TrimEndOfPadded(core, post);
    }
  }

  lemma {:induction false} TrimStartOfPadded(pre: string, rest: string)
    requires AllWhitespace(pre)
    ensures TrimStart(pre + rest) == TrimStart(rest)
    decreases |pre|
  {
    if pre != [] {
      assert (pre + rest)[1..] == pre[1..] + rest;
      TrimStartOfPadded(pre[1..], rest);
    } else {
      assert pre + rest == rest;
    }
  }

  lemma TrimStartAllWhitespace(s: string)
    requires AllWhitespace(s)
    ensures TrimStart(s) == []
  {
  }

  lemma {:induction false} TrimEndOfPadded(core: string, post: string)
    requires AllWhitespace(post)
    requires core == [] || !IsJsWhitespace(core[|core| - 1])
    ensures TrimEnd(core + post) == core
    decreases |post|
  {
    if post == [] {
      assert core + post == core;
    } else {
      var s := core + post;
      assert s[..|s| - 1] == core + post[..|post| - 1];
      TrimEndOfPadded(core, post[..|post| - 1]);
    }
  }

  /** Trimming twice is trimming once. */
  lemma TrimIdempotent(s: string)
    ensures Trim(Trim(s)) == Trim(s)
  {
  }

  /** The length JavaScript reports: characters outside the Basic
      Multilingual Plane take two UTF-16 code units. */
  function Utf16Length(s: string): (n: nat)
    ensures |s| <= n <= 2 * |s|
    ensures (forall k :: 0 <= k < |s| ==> s[k] as int <= 0xFFFF) ==> n == |s|
  {
    if s == [] then 0
    else (if s[0] as int > 0xFFFF then 2 else 1) + Utf16Length(s[1..])
  }

  /** The characters outside the Basic Multilingual Plane. */
  function AstralCount(s: string): nat {
    if s == [] then 0
    else (if s[0] as int > 0xFFFF then 1 else 0) + AstralCount(s[1..])
  }

  /** The UTF-16 length is the character count plus one extra unit for each
      astral character. */
  lemma {:induction false} Utf16LengthCounts(s: string)
    ensures Utf16Length(s) == |s| + AstralCount(s)
    decreases |s|
  {
    if s != [] {
      Utf16LengthCounts(s[1..]);
    }
  }

  /** The UTF-16 length of a concatenation is the sum of the lengths. */
  lemma {:induction false} Utf16LengthConcat(a: string, b: string)
    ensures Utf16Length(a + b) == Utf16Length(a) + Utf16Length(b)
    decreases |a|
  {
    if a == [] {
      assert a + b == b;
    } else {
      assert (a + b)[1..] == a[1..] + b;
      Utf16LengthConcat(a[1..], b);
    }
  }
}
