/** Character classes and the string operations of Python's `str` that the price tracker uses. */
module Text {
  import opened Seqs

  predicate IsAsciiDigit(c: char) { '0' <= c <= '9' }

  predicate IsAsciiAlpha(c: char) { 'a' <= c <= 'z' || 'A' <= c <= 'Z' }

  /** The regular-expression class `\w`, restricted to ASCII. */
  predicate IsWordChar(c: char) { IsAsciiAlpha(c) || IsAsciiDigit(c) || c == '_' }

  /** `str.isspace()`: the characters that `str.strip()` removes. */
  predicate IsSpace(c: char) {
    var n := c as int;
    || n == 0x20 || 0x09 <= n <= 0x0d || 0x1c <= n <= 0x1f || n == 0x85 || n == 0xa0
    || n == 0x1680 || 0x2000 <= n <= 0x200a || n == 0x2028 || n == 0x2029
    || n == 0x202f || n == 0x205f || n == 0x3000
  }

  predicate AllDigits(s: string) { forall i :: 0 <= i < |s| ==> IsAsciiDigit(s[i]) }

  predicate AllWordChars(s: string) { forall i :: 0 <= i < |s| ==> IsWordChar(s[i]) }

  /** Number of leading characters of `s` that satisfy `p`. */
  function LeadingWhile(s: string, p: char -> bool): (n: nat)
    ensures n <= |s|
  {
    if s == [] || !p(s[0]) then 0 else 1 + LeadingWhile(s[1..], p)
  }

  /** The leading run is maximal: every character in it satisfies `p`, the next does not. */
  lemma {:induction false} LeadingWhileSpec(s: string, p: char -> bool)
    ensures forall k :: 0 <= k < LeadingWhile(s, p) ==> p(s[k])
    ensures LeadingWhile(s, p) < |s| ==> !p(s[LeadingWhile(s, p)])
  {
    if s != [] && p(s[0]) {
      LeadingWhileSpec(s[1..], p);
      forall k | 1 <= k < LeadingWhile(s, p) ensures p(s[k]) {
        assert s[k] == s[1..][k - 1];
      }
    }
  }

  /** Number of trailing characters of `s` that satisfy `p`. */
  function TrailingWhile(s: string, p: char -> bool): (n: nat)
    ensures n <= |s|
  {
    if s == [] || !p(s[|s| - 1]) then 0 else 1 + TrailingWhile(s[..|s| - 1], p)
  }

  /** The trailing run is maximal. */
  lemma {:induction false} TrailingWhileSpec(s: string, p: char -> bool)
    ensures forall k :: |s| - TrailingWhile(s, p) <= k < |s| ==> p(s[k])
    ensures TrailingWhile(s, p) < |s| ==> !p(s[|s| - TrailingWhile(s, p) - 1])
  {
    if s != [] && p(s[|s| - 1]) {
      var init := s[..|s| - 1];
      TrailingWhileSpec(init, p);
      forall k | |s| - TrailingWhile(s, p) <= k < |s| - 1 ensures p(s[k]) {
        assert s[k] == init[k];
      }
    }
  }

  /** Drop the leading, then the trailing characters that satisfy `p`. */
  function Trim(s: string, p: char -> bool): (r: string)
    ensures |r| <= |s|
  {
    var t := s[LeadingWhile(s, p)..];
    t[..|t| - TrailingWhile(t, p)]
  }

  /** What trimming promises at the ends: no `p` character at either end, nothing left
      only when every character satisfied `p`, and text without such characters unchanged.
      `TrimSlice` says where the result comes from. */
  lemma TrimSpec(s: string, p: char -> bool)
    ensures Trim(s, p) != [] ==> !p(Trim(s, p)[0]) && !p(Trim(s, p)[|Trim(s, p)| - 1])
    ensures Trim(s, p) == [] <==> forall k :: 0 <= k < |s| ==> p(s[k])
    ensures (forall k :: 0 <= k < |s| ==> !p(s[k])) ==> Trim(s, p) == s
  {
    var a := LeadingWhile(s, p);
    var t := s[a..];
    LeadingWhileSpec(s, p);
    TrailingWhileSpec(t, p);
    var b := TrailingWhile(t, p);
    assert forall k :: 0 <= k < |t| ==> t[k] == s[a + k];
    if Trim(s, p) == [] {
      // the trailing run covers `t`, and `t` cannot start with a `p` character: `t` is empty
      assert a == |s|;
    }
    if forall k :: 0 <= k < |s| ==> !p(s[k]) {
      if s != [] { assert !p(s[0]); }
      assert a == 0 && t == s;
      if t != [] { assert !p(t[|t| - 1]); }
      assert b == 0;
    }
  }

  /** The slice `Trim` keeps, with only `p` characters outside it. */
  lemma TrimSlice(s: string, p: char -> bool)
    ensures exists i, j :: && 0 <= i <= j <= |s| && Trim(s, p) == s[i..j]
                           && (forall k :: 0 <= k < i ==> p(s[k]))
                           && (forall k :: j <= k < |s| ==> p(s[k]))
  {
    var a := LeadingWhile(s, p);
    var t := s[a..];
    LeadingWhileSpec(s, p);
    TrailingWhileSpec(t, p);
    var j := a + |t| - TrailingWhile(t, p);
    assert Trim(s, p) == s[a..j];
    assert forall k :: j <= k < |s| ==> p(s[k]) by {
      assert forall k :: j <= k < |s| ==> s[k] == t[k - a];
    }
  }

  /** Trimming text padded on both sides with `p` characters gives back the text, when the
      text itself starts and ends with a character outside `p`. */
  lemma TrimPadded(w1: string, s: string, w2: string, p: char -> bool)
    requires forall k :: 0 <= k < |w1| ==> p(w1[k])
    requires forall k :: 0 <= k < |w2| ==> p(w2[k])
    requires s != [] && !p(s[0]) && !p(s[|s| - 1])
    ensures Trim(w1 + s + w2, p) == s
  {
    var x := w1 + s + w2;
    LeadingWhileSpec(x, p);
    var a := LeadingWhile(x, p);
    assert x[|w1|] == s[0];
    assert a == |w1|;
    var t := x[a..];
    assert t == s + w2;
    TrailingWhileSpec(t, p);
    var b := TrailingWhile(t, p);
    assert t[|s| - 1] == s[|s| - 1];
    assert b == |w2|;
    assert t[..|t| - b] == s;
  }

  /** `str.strip()`: drop leading, then trailing whitespace. */
  function Strip(s: string): (r: string)
    ensures |r| <= |s|
  {
    Trim(s, IsSpace)
  }

  /** What `strip()` promises at the ends: no whitespace at either end, nothing left only
      when the text was all whitespace, and text without whitespace unchanged. */
  lemma StripSpec(s: string)
    ensures Strip(s) != [] ==> !IsSpace(Strip(s)[0]) && !IsSpace(Strip(s)[|Strip(s)| - 1])
    ensures Strip(s) == [] <==> forall k :: 0 <= k < |s| ==> IsSpace(s[k])
    ensures (forall k :: 0 <= k < |s| ==> !IsSpace(s[k])) ==> Strip(s) == s
  {
    TrimSpec(s, IsSpace);
  }

  /** `strip()` returns the text with only whitespace cut away before and after it. */
  lemma StripSlice(s: string)
    ensures exists i, j :: && 0 <= i <= j <= |s| && Strip(s) == s[i..j]
                           && (forall k :: 0 <= k < i ==> IsSpace(s[k]))
                           && (forall k :: j <= k < |s| ==> IsSpace(s[k]))
  {
    TrimSlice(s, IsSpace);
  }

  /** `s.replace(c, '')`. */
  function RemoveChar(s: string, c: char): (r: string)
    ensures c !in r
    ensures forall d :: d != c ==> multiset(r)[d] == multiset(s)[d]
  {
    var r := Filter(s, d => d != c);
    forall d | d != c ensures multiset(r)[d] == multiset(s)[d] {
      FilterCount(s, d => d != c, d);
    }
    r
  }

  /** Number of occurrences of `c` in `s`. */
  function Count(s: string, c: char): nat {
    multiset(s)[c]
  }

  /** Number of ASCII digits in `s`. */
  function CountDigits(s: string): nat {
    |Filter(s, IsAsciiDigit)|
  }

  /** ASCII lower-casing, as `str.lower()` does on ASCII letters. */
  function Lower(s: string): (r: string)
    ensures |r| == |s|
    ensures forall k :: 0 <= k < |s| ==> r[k] == LowerChar(s[k])
  {
    if s == [] then [] else [LowerChar(s[0])] + Lower(s[1..])
  }

  function LowerChar(c: char): char {
    if 'A' <= c <= 'Z' then (c as int - 'A' as int + 'a' as int) as char else c
  }

  /** Position of the first `x` in `s` at or after `from`, or `|s|` when there is none. */
  function FindFrom<T(==)>(s: seq<T>, x: T, from: nat): (i: nat)
    requires from <= |s|
    ensures from <= i <= |s|
    ensures i < |s| ==> s[i] == x
    ensures forall k :: from <= k < i ==> s[k] != x
    decreases |s| - from
  {
    if from == |s| || s[from] == x then from else FindFrom(s, x, from + 1)
  }

  function Find<T(==)>(s: seq<T>, x: T): (i: nat)
    ensures i <= |s|
    ensures i < |s| ==> s[i] == x
    ensures forall k :: 0 <= k < i ==> s[k] != x
  {
    FindFrom(s, x, 0)
  }

  /** `sep.join(parts)`. */
  function Join(parts: seq<string>, sep: char): string
    requires |parts| >= 1
  {
    if |parts| == 1 then parts[0] else parts[0] + [sep] + Join(parts[1..], sep)
  }

  /** `s.split(sep)`: the pieces between the separators, at least one, none holding `sep`,
      and joined by `sep` they give `s` back. */
  function Split(s: string, sep: char): (parts: seq<string>)
    ensures |parts| >= 1
    ensures forall i :: 0 <= i < |parts| ==> sep !in parts[i]
    ensures Join(parts, sep) == s
    decreases |s|
  {
    var i := Find(s, sep);
    if i == |s| then
      [s]
    else
      var rest := Split(s[i + 1..], sep);
      var parts := [s[..i]] + rest;
      assert parts[1..] == rest;
      assert s == s[..i] + [sep] + s[i + 1..];
      parts
  }

  /** Splitting what `Join` wrote gives the pieces back when none of them holds `sep`. */
  lemma {:induction false} SplitJoin(parts: seq<string>, sep: char)
    requires |parts| >= 1
    requires forall i :: 0 <= i < |parts| ==> sep !in parts[i]
    ensures Split(Join(parts, sep), sep) == parts
  {
    var s := Join(parts, sep);
    var head := parts[0];
    if |parts| == 1 {
      assert Find(s, sep) == |s|;
    } else {
      var tail := Join(parts[1..], sep);
      assert s == head + [sep] + tail;
      assert s[|head|] == sep;
      forall k | 0 <= k < |head| ensures s[k] != sep {
        assert s[k] == head[k];
      }
      assert s[..|head|] == head;
      assert s[|head| + 1..] == tail;
      SplitJoin(parts[1..], sep);
      assert parts == [head] + parts[1..];
    }
  }

  /** Every character `Join` writes is the separator or a character of one of the pieces. */
  lemma {:induction false} JoinChars(parts: seq<string>, sep: char, p: char -> bool)
    requires |parts| >= 1
    requires p(sep)
    requires forall i, k :: 0 <= i < |parts| && 0 <= k < |parts[i]| ==> p(parts[i][k])
    ensures forall k :: 0 <= k < |Join(parts, sep)| ==> p(Join(parts, sep)[k])
  {
    if |parts| > 1 {
      var rest := parts[1..];
      JoinChars(rest, sep, p);
      var tail := Join(rest, sep);
      var s := parts[0] + [sep] + tail;
      forall k | 0 <= k < |s| ensures p(s[k]) {
        if k < |parts[0]| { assert s[k] == parts[0][k]; }
        else if k > |parts[0]| { assert s[k] == tail[k - |parts[0]| - 1]; }
      }
    }
  }
}
