/** ASCII text: case folding, splitting at delimiters, joining, suffixes.
    Names and header fields are ASCII; folding leaves every other character alone. */
module Ascii {

  function LowerChar(c: char): char {
    if 'A' <= c <= 'Z' then (c as int + 32) as char else c
  }

  /** strings.ToLower */
  function Lower(s: string): (r: string)
    ensures |r| == |s|
    ensures forall i :: 0 <= i < |s| ==> r[i] == LowerChar(s[i])
  {
    seq(|s|, i requires 0 <= i < |s| => LowerChar(s[i]))
  }

  /** strings.EqualFold */
  predicate EqualFold(a: string, b: string) {
    Lower(a) == Lower(b)
  }

  lemma LowerConcat(a: string, b: string)
    ensures Lower(a + b) == Lower(a) + Lower(b)
  {
  }

  lemma LowerIdempotent(s: string)
    ensures Lower(Lower(s)) == Lower(s)
  {
  }

  lemma FoldConcat(a: string, a': string, b: string, b': string)
    requires EqualFold(a, a') && EqualFold(b, b')
    ensures EqualFold(a + b, a' + b')
  {
    LowerConcat(a, b);
    LowerConcat(a', b');
  }

  predicate HasSuffix(s: string, suffix: string) {
    |suffix| <= |s| && s[|s| - |suffix|..] == suffix
  }

  /** strings.IndexByte: the position of the first c of s, or -1. */
  function IndexOf(s: string, c: char): (i: int)
    ensures -1 <= i < |s|
  {
    if s == "" then -1
    else if s[0] == c then 0
    else var r := IndexOf(s[1..], c); if r < 0 then -1 else r + 1
  }

  lemma {:induction false} IndexIs(s: string, c: char, t: string)
    requires c !in s
    ensures IndexOf(s + [c] + t, c) == |s|
  {
    if s == "" {
      assert s + [c] + t == [c] + t;
    } else {
      assert s[0] in s;
      assert (s + [c] + t)[1..] == s[1..] + [c] + t;
      IndexIs(s[1..], c, t);
    }
  }

  lemma {:induction false} IndexFacts(s: string, c: char)
    ensures var i := IndexOf(s, c);
            (i >= 0 ==> s[i] == c) && forall k :: 0 <= k < (if i < 0 then |s| else i) ==> s[k] != c
  {
    if s != "" && s[0] != c {
      IndexFacts(s[1..], c);
    }
  }

  /** strings.LastIndexByte: the position of the last c of s, or -1. */
  function LastIndex(s: string, c: char): (i: int)
    ensures -1 <= i < |s|
  {
    if s == "" then -1
    else if s[|s| - 1] == c then |s| - 1
    else LastIndex(s[..|s| - 1], c)
  }

  lemma {:induction false} LastIndexFacts(s: string, c: char)
    ensures LastIndex(s, c) >= 0 ==> s[LastIndex(s, c)] == c
    ensures forall k :: LastIndex(s, c) < k < |s| ==> s[k] != c
  {
    if s != "" && s[|s| - 1] != c {
      LastIndexFacts(s[..|s| - 1], c);
    }
  }

  lemma {:induction false} LastIndexIs(s: string, c: char, i: int)
    requires -1 <= i < |s| && (i >= 0 ==> s[i] == c) && forall k :: i < k < |s| ==> s[k] != c
    ensures LastIndex(s, c) == i
  {
    if s != "" && i < |s| - 1 {
      LastIndexIs(s[..|s| - 1], c, i);
    }
  }

  /** strings.Trim */
  function TrimSet(s: string, cutset: string): string {
    if s == "" then ""
    else if s[0] in cutset then TrimSet(s[1..], cutset)
    else if s[|s| - 1] in cutset then TrimSet(s[..|s| - 1], cutset)
    else s
  }

  /** strings.TrimSuffix(s, ".") */
  function TrimDot(s: string): (r: string)
    ensures |r| <= |s| && r == s[..|r|]
  {
    if s != "" && s[|s| - 1] == '.' then s[..|s| - 1] else s
  }

  lemma FoldTrimDot(a: string, b: string)
    requires EqualFold(a, b)
    ensures EqualFold(TrimDot(a), TrimDot(b))
  {
    assert |a| == |Lower(a)| == |b|;
    if a != "" {
      FoldAt(a, b, |a| - 1);
      assert Lower(a[..|a| - 1]) == Lower(a)[..|a| - 1];
      assert Lower(b[..|b| - 1]) == Lower(b)[..|b| - 1];
    }
  }

  /** Folding identifies letters only, so every other character is where it was. */
  lemma FoldAt(a: string, b: string, i: nat)
    requires EqualFold(a, b) && i < |a|
    ensures |a| == |b| && LowerChar(a[i]) == LowerChar(b[i])
    ensures !IsAlpha(a[i]) ==> a[i] == b[i]
    ensures IsAlpha(a[i]) == IsAlpha(b[i])
  {
    assert |a| == |Lower(a)| == |b|;
    assert Lower(a)[i] == LowerChar(a[i]);
    assert Lower(b)[i] == LowerChar(b[i]);
  }

  predicate IsAlpha(c: char) {
    'a' <= c <= 'z' || 'A' <= c <= 'Z'
  }

  predicate IsDigit(c: char) {
    '0' <= c <= '9'
  }

  /** The fields of s between characters of delims, empty fields included. */
  function Split(s: string, delims: string): (r: seq<string>)
    ensures |r| >= 1
  {
    if s == "" then [""]
    else
      var rest := Split(s[1..], delims);
      if s[0] in delims then [""] + rest else [[s[0]] + rest[0]] + rest[1..]
  }

  function Join(parts: seq<string>, sep: string): string {
    if parts == [] then ""
    else if |parts| == 1 then parts[0]
    else parts[0] + sep + Join(parts[1..], sep)
  }

  /** Two lists of strings that differ in letter case only. */
  ghost predicate FoldAll(a: seq<string>, b: seq<string>) {
    |a| == |b| && forall i :: 0 <= i < |a| ==> EqualFold(a[i], b[i])
  }

  lemma {:induction false} FoldSplit(a: string, b: string, delims: string)
    requires EqualFold(a, b)
    requires forall c :: c in delims ==> !IsAlpha(c)
    ensures FoldAll(Split(a, delims), Split(b, delims))
  {
    if a == "" {
      assert |b| == |Lower(b)| == 0;
    } else {
      FoldAt(a, b, 0);
      assert Lower(a[1..]) == Lower(a)[1..];
      assert Lower(b[1..]) == Lower(b)[1..];
      FoldSplit(a[1..], b[1..], delims);
      var ra, rb := Split(a[1..], delims), Split(b[1..], delims);
      FoldConcat([a[0]], [b[0]], ra[0], rb[0]);
    }
  }

  lemma {:induction false} FoldJoin(a: seq<string>, b: seq<string>, sep: string)
    requires FoldAll(a, b)
    ensures EqualFold(Join(a, sep), Join(b, sep))
  {
    if |a| > 1 {
      FoldJoin(a[1..], b[1..], sep);
      FoldConcat(a[0], b[0], sep, sep);
      FoldConcat(a[0] + sep, b[0] + sep, Join(a[1..], sep), Join(b[1..], sep));
    }
  }

  lemma {:induction false} SplitPrefix(head: string, delim: char, tail: string, delims: string)
    requires delim in delims
    requires forall i :: 0 <= i < |head| ==> head[i] !in delims
    ensures Split(head + [delim] + tail, delims) == [head] + Split(tail, delims)
  {
    var s := head + [delim] + tail;
    if head == "" {
      assert s[1..] == tail;
    } else {
      assert s[1..] == head[1..] + [delim] + tail;
      SplitPrefix(head[1..], delim, tail, delims);
      assert [head[0]] + head[1..] == head;
    }
  }

  lemma {:induction false} SplitPlain(s: string, delims: string)
    requires forall i :: 0 <= i < |s| ==> s[i] !in delims
    ensures Split(s, delims) == [s]
  {
    if s != "" {
      SplitPlain(s[1..], delims);
      assert [s[0]] + s[1..] == s;
    }
  }

  /** Splitting undoes joining when no part contains the separator. */
  lemma {:induction false} SplitJoin(parts: seq<string>, sep: char)
    requires parts != []
    requires forall k, i :: 0 <= k < |parts| && 0 <= i < |parts[k]| ==> parts[k][i] != sep
    ensures Split(Join(parts, [sep]), [sep]) == parts
  {
    if |parts| == 1 {
      SplitPlain(parts[0], [sep]);
    } else {
      SplitJoin(parts[1..], sep);
      SplitPrefix(parts[0], sep, Join(parts[1..], [sep]), [sep]);
      assert [parts[0]] + parts[1..] == parts;
    }
  }
}
