/** The .NET string operations the driver relies on (String.IndexOf, String.LastIndexOf,
    Char.IsWhiteSpace, String.Trim, ordinal case-insensitive comparison), stated over seq<char>. */
module Text {
  import opened Errors

  /** String.IndexOf(c, from): the first position at or after `from` holding `c`, or -1. */
  function IndexOf(s: string, c: char, from: nat): (r: int)
    requires from <= |s|
    ensures r == -1 || from <= r < |s|
    decreases |s| - from, 1
  {
    if from == |s| then -1 else IndexOfAt(s, c, from)
  }

  /** The search at a position `from` inside `s`: either `from` itself or further on. */
  function IndexOfAt(s: string, c: char, from: nat): (r: int)
    requires from < |s|
    ensures from <= r < |s| || r == -1
    decreases |s| - from, 0
  {
    if s[from] == c then from else IndexOf(s, c, from + 1)
  }

  /** The forward search steps over a position not holding `c`. */
  lemma IndexOfSkip(s: string, c: char, from: nat)
    requires from < |s| && s[from] != c
    ensures IndexOf(s, c, from) == IndexOf(s, c, from + 1)
  {
    assert IndexOf(s, c, from) == IndexOfAt(s, c, from);
  }

  /** A hit of the forward search holds `c`. */
  lemma {:induction false} IndexOfHit(s: string, c: char, from: nat)
    requires from <= |s|
    ensures IndexOf(s, c, from) != -1 ==> s[IndexOf(s, c, from)] == c
    decreases |s| - from
  {
    if from < |s| {
      assert IndexOf(s, c, from) == IndexOfAt(s, c, from);
      if s[from] != c {
        IndexOfHit(s, c, from + 1);
      }
    }
  }

  /** What the forward search finds: `c` itself, with no `c` between `from` and it, or no
      `c` at all from `from` on. */
  lemma {:induction false} IndexOfFinds(s: string, c: char, from: nat)
    requires from <= |s|
    ensures var r := IndexOf(s, c, from);
            && (r == -1 ==> forall k :: from <= k < |s| ==> s[k] != c)
            && (r != -1 ==> s[r] == c && forall k :: from <= k < r ==> s[k] != c)
    decreases |s| - from
  {
    if from < |s| {
      assert IndexOf(s, c, from) == IndexOfAt(s, c, from);
      if s[from] != c {
        IndexOfFinds(s, c, from + 1);
      }
    }
  }

  /** The last position before `end` holding `c`, or -1. */
  function LastIndexBefore(s: string, c: char, end: nat): (r: int)
    requires end <= |s|
    ensures -1 <= r < end
    decreases end, 1
  {
    if end == 0 then -1 else LastIndexAt(s, c, end)
  }

  /** The backward search at a position `end - 1` inside `s`. */
  function LastIndexAt(s: string, c: char, end: nat): (r: int)
    requires 0 < end <= |s|
    ensures -1 <= r < end
    decreases end, 0
  {
    if s[end - 1] == c then end - 1 else LastIndexBefore(s, c, end - 1)
  }

  /** What the backward search finds: `c` itself, with no `c` after it before `end`, or
      no `c` at all. */
  lemma {:induction false} LastIndexBeforeFinds(s: string, c: char, end: nat)
    requires end <= |s|
    ensures var r := LastIndexBefore(s, c, end);
            && (r == -1 ==> forall k :: 0 <= k < end ==> s[k] != c)
            && (r != -1 ==> s[r] == c && forall k :: r < k < end ==> s[k] != c)
    decreases end
  {
    if end > 0 {
      assert LastIndexBefore(s, c, end) == LastIndexAt(s, c, end);
      if s[end - 1] != c {
        LastIndexBeforeFinds(s, c, end - 1);
      }
    }
  }

  /** String.LastIndexOf(c): the last position holding `c`, or -1. */
  function LastIndexOf(s: string, c: char): (r: int)
    ensures -1 <= r < |s|
  {
    LastIndexBefore(s, c, |s|)
  }

  /** Char.IsWhiteSpace: the Unicode separators plus U+0009..U+000D, U+0085 and U+00A0. */
  predicate IsWhiteSpace(c: char) {
    || ('\U{0009}' <= c <= '\U{000D}')
    || c == '\U{0020}'
    || c == '\U{0085}'
    || c == '\U{00A0}'
    || c == '\U{1680}'
    || ('\U{2000}' <= c <= '\U{200A}')
    || c == '\U{2028}'
    || c == '\U{2029}'
    || c == '\U{202F}'
    || c == '\U{205F}'
    || c == '\U{3000}'
  }

  /** String.IsNullOrWhiteSpace; None stands for a null string. */
  predicate IsNullOrWhiteSpace(s: Option<string>) {
    s.None? || forall k :: 0 <= k < |s.value| ==> IsWhiteSpace(s.value[k])
  }

  /** String.TrimStart(): drops the leading white space. */
  function TrimStart(s: string): (r: string)
    ensures |r| <= |s| && r == s[|s| - |r|..]
    ensures forall k :: 0 <= k < |s| - |r| ==> IsWhiteSpace(s[k])
    ensures r == [] || !IsWhiteSpace(r[0])
  {
    if s != [] && IsWhiteSpace(s[0]) then TrimStart(s[1..]) else s
  }

  /** String.TrimEnd(): drops the trailing white space. */
  function TrimEnd(s: string): (r: string)
    ensures |r| <= |s| && r == s[..|r|]
    ensures forall k :: |r| <= k < |s| ==> IsWhiteSpace(s[k])
    ensures r == [] || !IsWhiteSpace(r[|r| - 1])
  {
    if s != [] && IsWhiteSpace(s[|s| - 1]) then TrimEnd(s[..|s| - 1]) else s
  }

  /** String.Trim(). */
  function Trim(s: string): string {
    TrimEnd(TrimStart(s))
  }

  /** Upper-casing of the ASCII letters, the part of ordinal case folding this model keeps. */
  function FoldCase(c: char): char {
    if 'a' <= c <= 'z' then (c as int - 32) as char else c
  }

  /** StringComparer.OrdinalIgnoreCase equality. */
  predicate EqualsIgnoreCase(a: string, b: string) {
    |a| == |b| && forall k :: 0 <= k < |a| ==> FoldCase(a[k]) == FoldCase(b[k])
  }

  /** The string with every character folded: two strings are equal ignoring case
      exactly when their foldings are equal. */
  function FoldString(s: string): (r: string)
    ensures |r| == |s|
  {
    if s == [] then [] else [FoldCase(s[0])] + FoldString(s[1..])
  }

  /** The folding holds the folded characters, position by position. */
  lemma {:induction false} FoldStringAt(s: string)
    ensures forall k :: 0 <= k < |s| ==> FoldString(s)[k] == FoldCase(s[k])
  {
    if s != [] {
      FoldStringAt(s[1..]);
    }
  }

  lemma EqualsIgnoreCaseFold(a: string, b: string)
    ensures EqualsIgnoreCase(a, b) <==> FoldString(a) == FoldString(b)
  {
    FoldStringAt(a);
    FoldStringAt(b);
    if EqualsIgnoreCase(a, b) {
      assert forall k :: 0 <= k < |a| ==> FoldString(a)[k] == FoldString(b)[k];
    }
  }

  /** The strings of `parts` with `sep` between consecutive ones (String.Join). */
  function JoinWith(parts: seq<string>, sep: char): string {
    if parts == [] then ""
    else if |parts| == 1 then parts[0]
    else parts[0] + [sep] + JoinWith(parts[1..], sep)
  }

  /** Joining one more part puts the separator before it. */
  lemma {:induction false} JoinWithSnoc(parts: seq<string>, p: string, sep: char)
    requires parts != []
    ensures JoinWith(parts + [p], sep) == JoinWith(parts, sep) + [sep] + p
  {
    if |parts| > 1 {
      assert (parts + [p])[1..] == parts[1..] + [p];
      JoinWithSnoc(parts[1..], p, sep);
    }
  }

  /** Extending the last part extends the joined text. */
  lemma JoinWithExtendLast(parts: seq<string>, x: string, sep: char)
    requires parts != []
    ensures JoinWith(parts[..|parts| - 1] + [parts[|parts| - 1] + x], sep) == JoinWith(parts, sep) + x
  {
    var init := parts[..|parts| - 1];
    var last := parts[|parts| - 1];
    if init == [] {
      assert parts == [last];
    } else {
      JoinWithSnoc(init, last + x, sep);
      JoinWithSnoc(init, last, sep);
      assert init + [last] == parts;
    }
  }

  /** String.Split(sep, StringSplitOptions.RemoveEmptyEntries): the maximal runs of characters
      other than `sep`, in order, with the empty ones dropped. */
  function SplitNonEmpty(s: string, sep: char): (parts: seq<string>)
    ensures forall k :: 0 <= k < |parts| ==> parts[k] != [] && sep !in parts[k]
    decreases |s|
  {
    if s == [] then []
    else
      var i := IndexOf(s, sep, 0);
      IndexOfFinds(s, sep, 0);
      if i == -1 then [s]
      else if i == 0 then SplitNonEmpty(s[1..], sep)
      else [s[..i]] + SplitNonEmpty(s[i + 1..], sep)
  }

  /** The parts that are not empty, in order. */
  function NonEmptyParts(parts: seq<string>): (r: seq<string>)
    ensures forall k :: 0 <= k < |r| ==> r[k] != [] && r[k] in parts
    ensures |r| <= |parts|
  {
    if parts == [] then []
    else (if parts[0] == [] then [] else [parts[0]]) + NonEmptyParts(parts[1..])
  }

  /** Splitting with empty entries removed undoes joining separator-free parts, except
      that the empty parts are gone: `a..b`, `.a.b` and `a.b.` all split into [a, b]. */
  lemma {:induction false} SplitJoin(parts: seq<string>, sep: char)
    requires forall k :: 0 <= k < |parts| ==> sep !in parts[k]
    ensures SplitNonEmpty(JoinWith(parts, sep), sep) == NonEmptyParts(parts)
  {
    if |parts| == 1 {
      IndexOfFinds(parts[0], sep, 0);
      assert NonEmptyParts(parts) == (if parts[0] == [] then [] else [parts[0]]) + NonEmptyParts([]);
    } else if |parts| > 1 {
      var s := JoinWith(parts, sep);
      var p := parts[0];
      assert s == p + [sep] + JoinWith(parts[1..], sep);
      assert s[|p|] == sep;
      assert forall k :: 0 <= k < |p| ==> s[k] == p[k];
      var i := IndexOf(s, sep, 0);
      IndexOfFinds(s, sep, 0);
      assert i == |p|;
      assert s[..i] == p;
      assert s[i + 1..] == JoinWith(parts[1..], sep);
      SplitJoin(parts[1..], sep);
    }
  }

  /** Dropping the empty parts leaves a list without empty parts as it is. */
  lemma {:induction false} NonEmptyPartsKeeps(parts: seq<string>)
    requires forall k :: 0 <= k < |parts| ==> parts[k] != []
    ensures NonEmptyParts(parts) == parts
  {
    if parts != [] {
      NonEmptyPartsKeeps(parts[1..]);
    }
  }
}
