/** The JavaScript string operations the CLI relies on, over `string` = `seq<char>`.
    Case conversion covers the ASCII letters only. */
module Text {
  import opened Wrappers

  function LowerChar(c: char): char {
    if 'A' <= c <= 'Z' then (c as int + 32) as char else c
  }

  function UpperChar(c: char): char {
    if 'a' <= c <= 'z' then (c as int - 32) as char else c
  }

  lemma LowerOfUpper(c: char)
    ensures LowerChar(UpperChar(c)) == LowerChar(c)
  {
  }

  /** `String.prototype.toLowerCase`. */
  function ToLower(s: string): (r: string)
    ensures |r| == |s|
    ensures forall i :: 0 <= i < |s| ==> r[i] == LowerChar(s[i])
  {
    seq(|s|, i requires 0 <= i < |s| => LowerChar(s[i]))
  }

  /** `String.prototype.toUpperCase`; it keeps the letters a case-insensitive comparison sees. */
  function ToUpper(s: string): (r: string)
    ensures |r| == |s|
    ensures forall i :: 0 <= i < |s| ==> r[i] == UpperChar(s[i])
    ensures ToLower(r) == ToLower(s)
  {
    var r := seq(|s|, i requires 0 <= i < |s| => UpperChar(s[i]));
    assert forall i :: 0 <= i < |s| ==> ToLower(r)[i] == LowerChar(UpperChar(s[i])) == ToLower(s)[i];
    r
  }

  lemma ToLowerConcat(a: string, b: string)
    ensures ToLower(a + b) == ToLower(a) + ToLower(b)
  {
    assert forall i :: 0 <= i < |a + b| ==> ToLower(a + b)[i] == (ToLower(a) + ToLower(b))[i];
  }

  predicate StartsWith(s: string, prefix: string) {
    |prefix| <= |s| && s[..|prefix|] == prefix
  }

  predicate EndsWith(s: string, suffix: string) {
    |suffix| <= |s| && s[|s| - |suffix|..] == suffix
  }

  /** `sub` occurs in `s` starting at index `i`. */
  predicate OccursAt(s: string, sub: string, i: int) {
    0 <= i && i + |sub| <= |s| && s[i..i + |sub|] == sub
  }

  /** `String.prototype.includes`. */
  predicate Contains(s: string, sub: string) {
    exists i | 0 <= i <= |s| :: OccursAt(s, sub, i)
  }

  lemma ContainsMiddle(a: string, b: string, c: string)
    ensures Contains(a + b + c, b)
  {
    assert (a + b + c)[|a|..|a| + |b|] == b;
    assert OccursAt(a + b + c, b, |a|);
  }

  lemma ContainsPrefix(s: string, sub: string, t: string)
    requires Contains(s, sub)
    ensures Contains(s + t, sub)
  {
    var i :| 0 <= i <= |s| && OccursAt(s, sub, i);
    assert (s + t)[i..i + |sub|] == s[i..i + |sub|];
    assert OccursAt(s + t, sub, i);
  }

  lemma ContainsSuffix(s: string, t: string, sub: string)
    requires Contains(t, sub)
    ensures Contains(s + t, sub)
  {
    var i :| 0 <= i <= |t| && OccursAt(t, sub, i);
    assert (s + t)[|s| + i..|s| + i + |sub|] == t[i..i + |sub|];
    assert OccursAt(s + t, sub, |s| + i);
  }

  /** The first index at or after `from` where `sub` occurs. */
  function IndexFrom(s: string, sub: string, from: nat): (r: Option<nat>)
    requires from <= |s| + 1
    ensures r.Some? ==> from <= r.value && OccursAt(s, sub, r.value)
    ensures r.Some? ==> forall j :: from <= j < r.value ==> !OccursAt(s, sub, j)
    ensures r.None? ==> forall j :: from <= j ==> !OccursAt(s, sub, j)
    decreases |s| + 1 - from
  {
    if from + |sub| > |s| then None
    else if s[from..from + |sub|] == sub then Some(from)
    else IndexFrom(s, sub, from + 1)
  }

  /** `String.prototype.indexOf`, with `None` for -1. */
  function IndexOf(s: string, sub: string): (r: Option<nat>)
    ensures r.Some? ==> OccursAt(s, sub, r.value) && forall j :: 0 <= j < r.value ==> !OccursAt(s, sub, j)
    ensures r.None? <==> !Contains(s, sub)
  {
    IndexFrom(s, sub, 0)
  }

  /** `s.replace(pattern, replacement)` with a string pattern: only the first occurrence is replaced. */
  function ReplaceFirst(s: string, pattern: string, replacement: string): (r: string)
    ensures !Contains(s, pattern) ==> r == s
    ensures StartsWith(s, pattern) ==> r == replacement + s[|pattern|..]
    ensures forall i :: OccursAt(s, pattern, i) && (forall j :: 0 <= j < i ==> !OccursAt(s, pattern, j)) ==>
      r == s[..i] + replacement + s[i + |pattern|..]
  {
    var found := IndexOf(s, pattern);
    if found.None? then
      assert StartsWith(s, pattern) ==> OccursAt(s, pattern, 0);
      s
    else
      var i := found.value;
      FirstOccurrenceUnique(s, pattern, i);
      assert StartsWith(s, pattern) ==> OccursAt(s, pattern, 0) && i == 0;
      s[..i] + replacement + s[i + |pattern|..]
  }

  /** An occurrence with none before it is the one `IndexOf` finds. */
  lemma FirstOccurrenceUnique(s: string, pattern: string, i: nat)
    requires IndexOf(s, pattern) == Some(i)
    ensures forall k :: OccursAt(s, pattern, k) && (forall j :: 0 <= j < k ==> !OccursAt(s, pattern, j)) ==> k == i
  {
  }

  /** `s.replace(/pattern/g, replacement)` for a regular expression that is a literal text:
      occurrences are found left to right and do not overlap. */
  function ReplaceAll(s: string, pattern: string, replacement: string): string
    requires |pattern| > 0
    decreases |s|
  {
    if |s| < |pattern| then s
    else if s[..|pattern|] == pattern then replacement + ReplaceAll(s[|pattern|..], pattern, replacement)
    else [s[0]] + ReplaceAll(s[1..], pattern, replacement)
  }

  /** Replacing a text by itself changes nothing. */
  lemma {:induction false} ReplaceAllBySelf(s: string, pattern: string)
    requires |pattern| > 0
    ensures ReplaceAll(s, pattern, pattern) == s
    decreases |s|
  {
    if |s| >= |pattern| {
      if s[..|pattern|] == pattern {
        ReplaceAllBySelf(s[|pattern|..], pattern);
        assert pattern + s[|pattern|..] == s;
      } else {
        ReplaceAllBySelf(s[1..], pattern);
        assert [s[0]] + s[1..] == s;
      }
    }
  }

  /** Text before the pattern's first character is copied unchanged. */
  lemma {:induction false} ReplaceAllPrefix(a: string, s: string, pattern: string, replacement: string)
    requires |pattern| > 0 && pattern[0] !in a
    ensures ReplaceAll(a + s, pattern, replacement) == a + ReplaceAll(s, pattern, replacement)
    decreases |a|
  {
    if a == [] {
      assert a + s == s;
    } else {
      var t := a + s;
      var rest := ReplaceAll(s, pattern, replacement);
      assert t[0] == a[0] && t[1..] == a[1..] + s;
      if |t| < |pattern| {
        assert ReplaceAll(t, pattern, replacement) == t;
        assert rest == s;
      } else {
        assert t[..|pattern|] != pattern by {
          assert t[..|pattern|][0] == a[0] != pattern[0];
        }
        assert ReplaceAll(t, pattern, replacement) == [t[0]] + ReplaceAll(t[1..], pattern, replacement);
        ReplaceAllPrefix(a[1..], s, pattern, replacement);
        assert [a[0]] + (a[1..] + rest) == a + rest;
      }
    }
  }

  /** A text without the pattern's first character is left as it is. */
  lemma ReplaceAllNoStart(s: string, pattern: string, replacement: string)
    requires |pattern| > 0 && pattern[0] !in s
    ensures ReplaceAll(s, pattern, replacement) == s
  {
    ReplaceAllPrefix(s, [], pattern, replacement);
    assert s + [] == s;
  }

  /** An occurrence after text free of the pattern's first character is replaced, and the scan goes on
      after it. */
  lemma ReplaceAllAt(a: string, pattern: string, replacement: string, b: string)
    requires |pattern| > 0 && pattern[0] !in a
    ensures ReplaceAll(a + pattern + b, pattern, replacement) == a + replacement + ReplaceAll(b, pattern, replacement)
  {
    assert a + pattern + b == a + (pattern + b);
    ReplaceAllPrefix(a, pattern + b, pattern, replacement);
    assert (pattern + b)[..|pattern|] == pattern && (pattern + b)[|pattern|..] == b;
  }

  /** A text without the pattern is left as it is. */
  lemma {:induction false} ReplaceAllAbsent(s: string, pattern: string, replacement: string)
    requires |pattern| > 0 && !Contains(s, pattern)
    ensures ReplaceAll(s, pattern, replacement) == s
    decreases |s|
  {
    if |s| >= |pattern| {
      assert !OccursAt(s, pattern, 0);
      assert !Contains(s[1..], pattern) by {
        forall i | 0 <= i <= |s[1..]| ensures !OccursAt(s[1..], pattern, i) {
          if OccursAt(s[1..], pattern, i) {
            assert s[1..][i..i + |pattern|] == s[i + 1..i + 1 + |pattern|];
            assert OccursAt(s, pattern, i + 1);
          }
        }
      }
      ReplaceAllAbsent(s[1..], pattern, replacement);
    }
  }

  /** `s.split(d)` for a one-character separator. */
  function Split(s: string, d: char): (parts: seq<string>)
    ensures |parts| >= 1
    ensures forall k :: 0 <= k < |parts| ==> d !in parts[k]
    decreases |s|
  {
    if |s| == 0 then [""]
    else
      var rest := Split(s[1..], d);
      if s[0] == d then [""] + rest
      else [[s[0]] + rest[0]] + rest[1..]
  }

  /** `parts.join(d)`. */
  function Join(parts: seq<string>, d: string): string {
    if |parts| == 0 then ""
    else if |parts| == 1 then parts[0]
    else parts[0] + d + Join(parts[1..], d)
  }

  /** `parts.join('')`. */
  function Concat(parts: seq<string>): string {
    if parts == [] then "" else parts[0] + Concat(parts[1..])
  }

  function RemoveChar(s: string, c: char): (r: string)
    ensures c !in r
  {
    if s == [] then "" else (if s[0] == c then "" else [s[0]]) + RemoveChar(s[1..], c)
  }

  /** Splitting and joining again with the same separator gives the text back. */
  lemma {:induction false} JoinSplit(s: string, d: char)
    ensures Join(Split(s, d), [d]) == s
    decreases |s|
  {
    if |s| > 0 {
      var rest := Split(s[1..], d);
      JoinSplit(s[1..], d);
      if s[0] == d {
        assert Split(s, d) == [""] + rest;
        assert Join([""] + rest, [d]) == "" + [d] + Join(rest, [d]);
      } else {
        var parts := Split(s, d);
        assert parts[1..] == rest[1..];
        if |rest| == 1 {
          assert Join(rest, [d]) == rest[0];
        } else {
          assert Join(rest, [d]) == rest[0] + [d] + Join(rest[1..], [d]);
        }
      }
      assert [s[0]] + s[1..] == s;
    }
  }

  /** Concatenating the pieces drops exactly the separators. */
  lemma {:induction false} ConcatSplit(s: string, d: char)
    ensures Concat(Split(s, d)) == RemoveChar(s, d)
    decreases |s|
  {
    if |s| > 0 {
      var rest := Split(s[1..], d);
      ConcatSplit(s[1..], d);
      assert Concat(rest) == rest[0] + Concat(rest[1..]);
      if s[0] != d {
        var parts := Split(s, d);
        assert parts[1..] == rest[1..];
      }
    }
  }

  /** The text after the last `d` (all of `s` when there is none): `s.split(d).pop()`. */
  function LastSegment(s: string, d: char): (r: string)
    ensures d !in r
  {
    var parts := Split(s, d);
    parts[|parts| - 1]
  }

  /** The text after a last separator is the last segment. */
  lemma {:induction false} LastSegmentAfter(a: string, b: string, d: char)
    requires d !in b
    ensures |Split(a + [d] + b, d)| >= 2 && LastSegment(a + [d] + b, d) == b
    decreases |a|
  {
    var s := a + [d] + b;
    if a == [] {
      assert s[1..] == b;
      SplitSinglePiece(b, d);
    } else {
      assert s[1..] == a[1..] + [d] + b;
      LastSegmentAfter(a[1..], b, d);
    }
  }

  /** `Split` of a text whose first separator follows `a`. */
  lemma {:induction false} SplitAfterPiece(a: string, b: string, d: char)
    requires d !in a
    ensures Split(a + [d] + b, d) == [a] + Split(b, d)
    decreases |a|
  {
    var s := a + [d] + b;
    if a != [] {
      SplitAfterPiece(a[1..], b, d);
      assert s[1..] == a[1..] + [d] + b;
      assert [a[0]] + a[1..] == a;
    } else {
      assert s[1..] == b;
    }
  }

  /** A text without the separator is a single piece. */
  lemma {:induction false} SplitSinglePiece(a: string, d: char)
    requires d !in a
    ensures Split(a, d) == [a]
    decreases |a|
  {
    if a != [] {
      SplitSinglePiece(a[1..], d);
      assert [a[0]] + a[1..] == a;
    }
  }

  /** JavaScript's `\s`: white space and line terminators. */
  predicate IsJsSpace(c: char) {
    c == ' ' || c == '\t' || c == '\n' || c == '\r' || c == '\U{B}' || c == '\U{C}'
    || c == '\U{A0}' || c == '\U{1680}' || ('\U{2000}' <= c <= '\U{200A}')
    || c == '\U{2028}' || c == '\U{2029}' || c == '\U{202F}' || c == '\U{205F}'
    || c == '\U{3000}' || c == '\U{FEFF}'
  }

  /** Drops the leading run of `\s` characters (what a greedy `\s*` consumes). */
  function TrimStartSpaces(s: string): (r: string)
    ensures EndsWith(s, r)
    ensures r == [] || !IsJsSpace(r[0])
    ensures forall i :: 0 <= i < |s| - |r| ==> IsJsSpace(s[i])
  {
    if s != [] && IsJsSpace(s[0]) then TrimStartSpaces(s[1..]) else s
  }
}
