/**
 * The slice of JavaScript's `String.prototype` the patch engine relies on:
 * `indexOf`, `substring`, `startsWith`, `trim` and `split` on a
 * one-character separator. A JavaScript string is modelled as `seq<char>`.
 * Also the truthiness of an optional string and environment lookups.
 */
module JsText {
  import opened Seqs
  import opened Wrappers

  function Min(a: nat, b: nat): nat {
    if a <= b then a else b
  }

  function Max(a: nat, b: nat): nat {
    if a <= b then b else a
  }

  /** An optional string in a truthy position: absent and `""` are falsy. */
  predicate Truthy(v: Option<string>) {
    v.Some? && v.value != []
  }

  /** `process.env[name]`: absent when the variable is not set. */
  function Env(env: map<string, string>, name: string): (v: Option<string>)
    ensures v.Some? <==> name in env
    ensures v.Some? ==> v.value == env[name]
  {
    if name in env then Some(env[name]) else None
  }

  /**
   * `process.env[name] ?? fallback`: a variable that is set, even to the
   * empty string, wins over the fallback, as `??` only replaces `undefined`.
   */
  function EnvOr(env: map<string, string>, name: string, fallback: string): (v: string)
    ensures name in env ==> v == env[name]
    ensures name !in env ==> v == fallback
  {
    Env(env, name).GetOr(fallback)
  }

  // ---------------------------------------------------------------------------
  // Occurrences and indexOf
  // ---------------------------------------------------------------------------

  /** `needle` occurs verbatim in `s` starting at index `i`. */
  predicate OccursAt(s: string, needle: string, i: nat) {
    i + |needle| <= |s| && s[i..i + |needle|] == needle
  }

  /** `i` is the first index at or after `from` where `needle` occurs. */
  predicate IsFirstFrom(s: string, needle: string, from: nat, i: nat) {
    && from <= i
    && OccursAt(s, needle, i)
    && forall j: nat :: from <= j < i ==> !OccursAt(s, needle, j)
  }

  /** `needle` occurs nowhere at or after `from`. */
  ghost predicate AbsentFrom(s: string, needle: string, from: nat) {
    forall j: nat :: from <= j ==> !OccursAt(s, needle, j)
  }

  /** Linear scan for `needle` starting at index `i`; -1 when absent. */
  function FindFrom(s: string, needle: string, i: nat): (r: int)
    requires i <= |s|
    ensures r == -1 || (i <= r && OccursAt(s, needle, r))
    decreases |s| - i
  {
    if i + |needle| > |s| then -1
    else if OccursAt(s, needle, i) then i
    else
      assert needle != [] by { assert s[i..i] == []; }
      FindFrom(s, needle, i + 1)
  }

  /** The scan reports the first occurrence, and -1 only when there is none. */
  lemma {:induction false} FindFromFirst(s: string, needle: string, i: nat)
    requires i <= |s|
    ensures FindFrom(s, needle, i) == -1 <==> AbsentFrom(s, needle, i)
    ensures FindFrom(s, needle, i) != -1 ==> IsFirstFrom(s, needle, i, FindFrom(s, needle, i))
    decreases |s| - i
  {
    if i + |needle| > |s| {
    } else if OccursAt(s, needle, i) {
    } else {
      assert needle != [] by { assert s[i..i] == []; }
      FindFromFirst(s, needle, i + 1);
    }
  }

  /**
   * `s.indexOf(needle, from)`: the first index at or after `from` (clamped
   * to the length of `s`) where `needle` occurs, or -1.
   */
  function IndexOf(s: string, needle: string, from: nat): (r: int)
    ensures r == -1 || (Min(from, |s|) <= r && OccursAt(s, needle, r))
  {
    FindFrom(s, needle, Min(from, |s|))
  }

  /** `indexOf` finds the first occurrence, and answers -1 only when there is none. */
  lemma IndexOfFirst(s: string, needle: string, from: nat)
    ensures IndexOf(s, needle, from) == -1 <==> AbsentFrom(s, needle, Min(from, |s|))
    ensures IndexOf(s, needle, from) != -1 ==>
      IsFirstFrom(s, needle, Min(from, |s|), IndexOf(s, needle, from))
  {
    FindFromFirst(s, needle, Min(from, |s|));
  }

  /** `indexOf` answers the first occurrence, whichever way it was found. */
  lemma IndexOfFinds(s: string, needle: string, from: nat, i: nat)
    requires from <= |s| && IsFirstFrom(s, needle, from, i)
    ensures IndexOf(s, needle, from) == i
  {
    IndexOfFirst(s, needle, from);
    assert !AbsentFrom(s, needle, from);
  }

  /** Number of indices at or after `i` where `needle` occurs. */
  function CountFrom(s: string, needle: string, i: nat): nat
    decreases |s| - i
  {
    if i >= |s| then 0
    else (if OccursAt(s, needle, i) then 1 else 0) + CountFrom(s, needle, i + 1)
  }

  lemma {:induction false} CountFromAntitone(s: string, needle: string, i: nat, j: nat)
    requires i <= j
    ensures CountFrom(s, needle, j) <= CountFrom(s, needle, i)
    decreases j - i
  {
    if i < j {
      CountFromAntitone(s, needle, i + 1, j);
    }
  }

  /** An occurrence at `e` is counted by every count starting at or before it. */
  lemma CountFromHit(s: string, needle: string, i: nat, e: nat)
    requires i <= e < |s| && OccursAt(s, needle, e)
    ensures CountFrom(s, needle, i) >= 1 + CountFrom(s, needle, e + 1)
  {
    CountFromAntitone(s, needle, i, e);
  }

  // ---------------------------------------------------------------------------
  // substring, startsWith
  // ---------------------------------------------------------------------------

  /**
   * `s.substring(start, end)`: both bounds are clamped to the length of `s`
   * and swapped when `start` is the larger one.
   */
  function Substring(s: string, start: nat, end: nat): (r: string)
    ensures |r| <= |s|
    ensures start <= end <= |s| ==> r == s[start..end]
    ensures end <= start <= |s| ==> r == s[end..start]
  {
    var a := Min(start, |s|);
    var b := Min(end, |s|);
    s[Min(a, b)..Max(a, b)]
  }

  /** `s` with the `cut` characters at `at` replaced by `ins`. */
  function Splice(s: string, at: nat, cut: nat, ins: string): (r: string)
    requires at + cut <= |s|
    ensures |r| == |s| - cut + |ins|
  {
    s[..at] + ins + s[at + cut..]
  }

  /** Around a splice nothing changes: the text before it, the inserted text, the text after it. */
  lemma SpliceParts(s: string, at: nat, cut: nat, ins: string)
    requires at + cut <= |s|
    ensures Splice(s, at, cut, ins)[..at] == s[..at]
    ensures Splice(s, at, cut, ins)[at..at + |ins|] == ins
    ensures Splice(s, at, cut, ins)[at + |ins|..] == s[at + cut..]
  {
    var r := Splice(s, at, cut, ins);
    assert r == s[..at] + ins + s[at + cut..];
    assert r[at + |ins|..] == s[at + cut..];
  }

  /**
   * `s.replace(pattern, replacement)` with a string pattern: only the first
   * occurrence is replaced, and the replacement is taken literally.
   */
  function ReplaceFirst(s: string, pattern: string, replacement: string): (r: string)
    ensures IndexOf(s, pattern, 0) == -1 ==> r == s
    ensures IndexOf(s, pattern, 0) != -1 ==>
      |r| == |s| - |pattern| + |replacement|
  {
    var p := IndexOf(s, pattern, 0);
    if p == -1 then s
    else Splice(s, p, |pattern|, replacement)
  }

  /**
   * Around the first occurrence of the pattern nothing changes: the text
   * before it, the replacement in its place, the text after it.
   */
  lemma ReplaceFirstSplices(s: string, pattern: string, replacement: string)
    requires IndexOf(s, pattern, 0) != -1
    ensures var p := IndexOf(s, pattern, 0);
      && IsFirstFrom(s, pattern, 0, p)
      && ReplaceFirst(s, pattern, replacement)[..p] == s[..p]
      && ReplaceFirst(s, pattern, replacement)[p..p + |replacement|] == replacement
      && ReplaceFirst(s, pattern, replacement)[p + |replacement|..] == s[p + |pattern|..]
  {
    IndexOfFirst(s, pattern, 0);
    var p := IndexOf(s, pattern, 0);
    SpliceParts(s, p, |pattern|, replacement);
  }

  /** `s.startsWith(prefix)`. */
  predicate StartsWith(s: string, prefix: string) {
    |prefix| <= |s| && s[..|prefix|] == prefix
  }

  /** The first two parts of an occurring concatenation occur where it puts them. */
  lemma OccursAtParts(r: string, a: string, b: string, c: string, k: nat)
    requires OccursAt(r, a + b + c, k)
    ensures OccursAt(r, a, k) && OccursAt(r, b, k + |a|)
  {
    var n := |a + b + c|;
    assert (a + b + c)[..|a|] == a;
    assert (a + b + c)[|a|..|a| + |b|] == b;
    SliceOfSlice(r, k, k + n, 0, |a|);
    SliceOfSlice(r, k, k + n, |a|, |a| + |b|);
  }

  // ---------------------------------------------------------------------------
  // trim
  // ---------------------------------------------------------------------------

  /**
   * The characters `String.prototype.trim` removes: the ECMAScript
   * WhiteSpace (tab, vertical tab, form feed, space, no-break space, the
   * byte order mark and the space separators) and LineTerminator sets.
   */
  predicate IsJsWhitespace(c: char) {
    || c == '\t' || c == '\n' || c == '\U{000B}' || c == '\U{000C}' || c == '\r'
    || c == ' ' || c == '\U{00A0}' || c == '\U{1680}'
    || ('\U{2000}' <= c <= '\U{200A}')
    || c == '\U{2028}' || c == '\U{2029}' || c == '\U{202F}' || c == '\U{205F}'
    || c == '\U{3000}' || c == '\U{FEFF}'
  }

  /** Every character of `s` is whitespace (the empty string included). */
  predicate IsBlank(s: string) {
    forall i :: 0 <= i < |s| ==> IsJsWhitespace(s[i])
  }

  /** `s` with its leading whitespace removed. */
  function TrimStart(s: string): (r: string)
    ensures |r| <= |s| && r == s[|s| - |r|..]
    ensures r == [] || !IsJsWhitespace(r[0])
    ensures IsBlank(s[..|s| - |r|])
  {
    if |s| > 0 && IsJsWhitespace(s[0]) then
      var r := TrimStart(s[1..]);
      var cut := s[..|s| - |r|];
      assert IsBlank(cut) by {
        forall i | 0 <= i < |cut| ensures IsJsWhitespace(cut[i]) {
          if 0 < i {
            assert cut[i] == s[1..][..|s| - 1 - |r|][i - 1];
          }
        }
      }
      r
    else s
  }

  /** `s` with its trailing whitespace removed. */
  function TrimEnd(s: string): (r: string)
    ensures |r| <= |s| && r == s[..|r|]
    ensures r == [] || !IsJsWhitespace(r[|r| - 1])
    ensures IsBlank(s[|r|..])
  {
    if |s| > 0 && IsJsWhitespace(s[|s| - 1]) then
      var r := TrimEnd(s[..|s| - 1]);
      var cut := s[|r|..];
      assert IsBlank(cut) by {
        forall i | 0 <= i < |cut| ensures IsJsWhitespace(cut[i]) {
          if i < |cut| - 1 {
            assert cut[i] == s[..|s| - 1][|r|..][i];
          }
        }
      }
      r
    else s
  }

  /** `r` is `s` with a blank prefix of length `k` and a blank suffix cut off. */
  ghost predicate TrimmedAt(s: string, r: string, k: nat) {
    && k + |r| <= |s|
    && s[k..k + |r|] == r
    && IsBlank(s[..k])
    && IsBlank(s[k + |r|..])
  }

  /** `s.trim()`. */
  function Trim(s: string): (r: string)
    ensures |r| <= |s|
  {
    TrimEnd(TrimStart(s))
  }

  /** `trim` removes a blank prefix and a blank suffix and nothing else. */
  lemma TrimCutsBlankEnds(s: string)
    ensures exists k: nat :: TrimmedAt(s, Trim(s), k)
  {
    var t := TrimStart(s);
    var r := TrimEnd(t);
    var k := |s| - |t|;
    assert r == Trim(s);
    assert s[k..k + |r|] == r by {
      assert t == s[k..];
      assert r == t[..|r|];
    }
    assert IsBlank(s[k + |r|..]) by {
      assert s[k + |r|..] == t[|r|..];
    }
    assert TrimmedAt(s, r, k);
  }

  /** What `trim` leaves neither starts nor ends with whitespace. */
  lemma TrimEdgesNotBlank(s: string)
    ensures var r := Trim(s); r == [] || (!IsJsWhitespace(r[0]) && !IsJsWhitespace(r[|r| - 1]))
  {
    var t := TrimStart(s);
    var r := TrimEnd(t);
    if r != [] {
      assert r[0] == t[0];
    }
  }

  /** `s.trim() === ""` exactly when every character of `s` is whitespace. */
  lemma TrimEmptyIffBlank(s: string)
    ensures Trim(s) == [] <==> IsBlank(s)
  {
    var t := TrimStart(s);
    TrimCutsBlankEnds(s);
    if Trim(s) == [] {
      assert t == [];
      assert s[..|s|] == s;
    } else {
      var k: nat :| TrimmedAt(s, Trim(s), k);
      assert s[k] == Trim(s)[0];
    }
  }

  // ---------------------------------------------------------------------------
  // Counting and split
  // ---------------------------------------------------------------------------

  /** Number of occurrences of the character `c` in `s`. */
  function CountChar(s: string, c: char): nat
  {
    if |s| == 0 then 0
    else (if s[0] == c then 1 else 0) + CountChar(s[1..], c)
  }

  lemma {:induction false} CountCharAppend(a: string, b: string, c: char)
    ensures CountChar(a + b, c) == CountChar(a, c) + CountChar(b, c)
    decreases |a|
  {
    if |a| == 0 {
      assert a + b == b;
    } else {
      assert (a + b)[1..] == a[1..] + b;
      CountCharAppend(a[1..], b, c);
    }
  }

  /** `s.split(sep)` for a one-character separator. */
  function Split(s: string, sep: char): (parts: seq<string>)
    ensures |parts| >= 1
    decreases |s|
  {
    if |s| == 0 then [""]
    else
      var rest := Split(s[1..], sep);
      if s[0] == sep then [""] + rest
      else [[s[0]] + rest[0]] + rest[1..]
  }

  /** The parts glued back together, `sep` between neighbours (`join`). */
  function Join(parts: seq<string>, sep: char): string
    requires |parts| >= 1
  {
    if |parts| == 1 then parts[0]
    else parts[0] + [sep] + Join(parts[1..], sep)
  }

  /** `split` yields one more part than there are separators. */
  lemma {:induction false} SplitLength(s: string, sep: char)
    ensures |Split(s, sep)| == CountChar(s, sep) + 1
    decreases |s|
  {
    if |s| > 0 {
      SplitLength(s[1..], sep);
    }
  }

  /** Joining the parts of a split restores the string. */
  lemma {:induction false} SplitJoin(s: string, sep: char)
    ensures Join(Split(s, sep), sep) == s
    decreases |s|
  {
    if |s| > 0 {
      var rest := Split(s[1..], sep);
      SplitJoin(s[1..], sep);
      if s[0] == sep {
        assert Split(s, sep)[1..] == rest;
      } else {
        var parts := Split(s, sep);
        if |rest| == 1 {
          assert parts == [[s[0]] + rest[0]];
        } else {
          assert parts[1..] == rest[1..];
          assert Join(rest, sep) == rest[0] + [sep] + Join(rest[1..], sep);
        }
      }
    }
  }

  /** No part of a split contains the separator. */
  lemma {:induction false} SplitPartsFree(s: string, sep: char)
    ensures forall k, i :: 0 <= k < |Split(s, sep)| && 0 <= i < |Split(s, sep)[k]| ==> Split(s, sep)[k][i] != sep
    decreases |s|
  {
    if |s| > 0 {
      SplitPartsFree(s[1..], sep);
    }
  }

  /** A string without the separator splits into itself alone. */
  lemma {:induction false} SplitNoSep(s: string, sep: char)
    requires forall i :: 0 <= i < |s| ==> s[i] != sep
    ensures Split(s, sep) == [s]
    decreases |s|
  {
    if |s| > 0 {
      SplitNoSep(s[1..], sep);
      assert [s[0]] + s[1..] == s;
    }
  }

  /** A separator-free head is split off as the first part. */
  lemma {:induction false} SplitHead(x: string, sep: char, y: string)
    requires forall i :: 0 <= i < |x| ==> x[i] != sep
    ensures Split(x + [sep] + y, sep) == [x] + Split(y, sep)
    decreases |x|
  {
    var s := x + [sep] + y;
    if |x| == 0 {
      assert s[1..] == y;
    } else {
      assert s[1..] == x[1..] + [sep] + y;
      SplitHead(x[1..], sep, y);
      assert [x[0]] + x[1..] == x;
    }
  }

  /** `s.split("\n").length`: the number of lines of `s`. */
  function LineCount(s: string): (n: nat)
    ensures n == CountChar(s, '\n') + 1
  {
    SplitLength(s, '\n');
    |Split(s, '\n')|
  }

  /** Lines of a concatenation: the last line of `a` continues into `b`. */
  lemma LineCountAppend(a: string, b: string)
    ensures LineCount(a + b) == LineCount(a) + LineCount(b) - 1
  {
    CountCharAppend(a, b, '\n');
  }
}
