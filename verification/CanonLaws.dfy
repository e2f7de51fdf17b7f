/** The canonical forms on texts of known make: words with white space between them, fields
    of such words, and bodies of such lines (section 3.4 of RFC 6376). */
module CanonLaws {
  import opened Bytes
  import opened BodyCanon
  import opened BodyAlgebra
  import opened HeaderCanon

  // ---------------------------------------------------------------- lines of words

  ghost predicate AllWsp(s: Bytes) {
    forall k :: 0 <= k < |s| ==> s[k] == 32 || s[k] == 9
  }

  ghost predicate IsWord(w: Bytes) {
    w != [] && forall k :: 0 <= k < |w| ==> w[k] != 32 && w[k] != 9
  }

  /** White space and a word, again and again; only the first white space may be empty. */
  ghost predicate AreSpaced(gaps: seq<Bytes>, words: seq<Bytes>) {
    |gaps| == |words|
    && forall i :: 0 <= i < |words| ==> IsWord(words[i]) && AllWsp(gaps[i]) && (i > 0 ==> gaps[i] != [])
  }

  function Spaced(gaps: seq<Bytes>, words: seq<Bytes>): Bytes
    requires |gaps| == |words|
  {
    if words == [] then [] else gaps[0] + words[0] + Spaced(gaps[1..], words[1..])
  }

  /** The words with one space before each of them, the first excepted. */
  function Sentence(words: seq<Bytes>): Bytes {
    if words == [] then [] else if |words| == 1 then words[0] else words[0] + [32] + Sentence(words[1..])
  }

  lemma {:induction false} CollapseWord(word: Bytes, rest: Bytes)
    requires forall k :: 0 <= k < |word| ==> word[k] != 32 && word[k] != 9
    ensures Collapse(word + rest) == word + Collapse(rest)
  {
    if word == [] {
      assert word + rest == rest;
    } else {
      assert (word + rest)[1..] == word[1..] + rest;
      CollapseWord(word[1..], rest);
      CollapseHead(word + rest);
      assert [word[0]] + word[1..] == word;
    }
  }

  lemma TrimGap(gap: Bytes, rest: Bytes)
    requires AllWsp(gap)
    ensures TrimLeftWsp(gap + rest) == TrimLeftWsp(rest)
  {
    TrimLeftRun(gap + rest, |gap|);
    assert (gap + rest)[|gap|..] == rest;
  }

  lemma CollapseGap(gap: Bytes, rest: Bytes)
    requires AllWsp(gap) && gap != [] && (rest == [] || !IsWsp(rest[0]))
    ensures Collapse(gap + rest) == if rest == [] then [] else [32] + Collapse(rest)
  {
    TrimGap(gap, rest);
    CollapseAtWsp(gap + rest);
  }

  lemma SpacedStarts(gaps: seq<Bytes>, words: seq<Bytes>)
    requires AreSpaced(gaps, words) && words != []
    ensures AreSpaced(gaps[1..], words[1..])
    ensures !IsWsp(words[0][0])
    ensures |words| > 1 ==> gaps[1..][0] != []
  {
  }

  /** One line: inner white space becomes one space, white space at the end goes. */
  lemma {:induction false} CollapseIsExact(gaps: seq<Bytes>, words: seq<Bytes>, tail: Bytes)
    requires AreSpaced(gaps, words) && AllWsp(tail)
    ensures Collapse(Spaced(gaps, words) + tail)
         == if words == [] then [] else (if gaps[0] == [] then [] else [32]) + Sentence(words)
  {
    hide Collapse;
    if words == [] {
      assert Spaced(gaps, words) + tail == tail + [];
      CollapseNothing();
      if tail != [] {
        CollapseGap(tail, []);
      }
    } else {
      SpacedStarts(gaps, words);
      var rest := Spaced(gaps[1..], words[1..]) + tail;
      var text := words[0] + rest;
      assert Spaced(gaps, words) + tail == gaps[0] + text;
      CollapseWord(words[0], rest);
      CollapseIsExact(gaps[1..], words[1..], tail);
      if gaps[0] == [] {
        assert gaps[0] + text == text;
      } else {
        CollapseGap(gaps[0], text);
      }
      assert words[0] + [] == words[0];
      assert words[0] + ([32] + Sentence(words[1..])) == words[0] + [32] + Sentence(words[1..]);
    }
  }

  lemma CollapseNothing()
    ensures Collapse([]) == []
  {
  }

  // ---------------------------------------------------------------- fields

  lemma SpacedFirst(gaps: seq<Bytes>, words: seq<Bytes>, tail: Bytes)
    requires |gaps| == |words| > 0
    ensures Spaced(gaps, words) + tail == gaps[0] + (words[0] + (Spaced(gaps[1..], words[1..]) + tail))
  {
  }

  /** A value that is words once it is unfolded. */
  lemma RelaxedValueIsExact(value: Bytes, gaps: seq<Bytes>, words: seq<Bytes>, tail: Bytes)
    requires AreSpaced(gaps, words) && AllWsp(tail) && Unfolded(value) == Spaced(gaps, words) + tail
    ensures RelaxedValue(value) == Sentence(words)
  {
    hide Collapse, Unfolded;
    if words == [] {
      assert Spaced(gaps, words) + tail == tail + [];
      TrimGap(tail, []);
      CollapseNothing();
    } else {
      SpacedStarts(gaps, words);
      var rest := Spaced(gaps[1..], words[1..]) + tail;
      var bare := [[]] + gaps[1..];
      SpacedFirst(gaps, words, tail);
      SpacedFirst(bare, words, tail);
      assert bare[1..] == gaps[1..] && [] + (words[0] + rest) == words[0] + rest;
      hide Spaced, Sentence;
      TrimGap(gaps[0], words[0] + rest);
      CollapseIsExact(bare, words, tail);
    }
  }

  /** The name of a field, with white space behind it. */
  ghost predicate IsFieldName(name: Bytes) {
    name != [] && forall k :: 0 <= k < |name| ==> 33 <= name[k] <= 126 && name[k] != 58
  }

  /** A relaxed field: the name in lower case, a colon, the words of the value with single
      spaces, and a line break. */
  lemma RelaxedFieldIsExact(
      name: Bytes, space: Bytes, value: Bytes, gaps: seq<Bytes>, words: seq<Bytes>, tail: Bytes)
    requires IsFieldName(name) && AllWsp(space)
    requires AreSpaced(gaps, words) && AllWsp(tail) && Unfolded(value) == Spaced(gaps, words) + tail
    ensures CanonHeader(name + space + [58] + value, true) == LowerCase(name) + [58] + Sentence(words) + [13, 10]
  {
    RelaxedValueIsExact(value, gaps, words, tail);
    NameTrimmed(name, space);
    assert COLON !in name + space;
    hide RelaxedValue, CanonHeader, TrimRightWsp, Normalized, Unfolded;
    RelaxedField(name + space, value);
  }

  /** Capital letters become small ones. */
  function LowerCase(s: Bytes): Bytes {
    if s == [] then [] else [if 65 <= s[0] <= 90 then s[0] + 32 else s[0]] + LowerCase(s[1..])
  }

  lemma {:induction false} LowerIs(s: Bytes)
    ensures Lower(s) == LowerCase(s)
  {
    if s != [] {
      LowerIs(s[1..]);
      assert Lower(s) == [LowerByte(s[0])] + Lower(s[1..]);
    }
  }

  lemma {:induction false} NormalizedPlain(afterCr: bool, s: Bytes)
    requires CR !in s && LF !in s
    ensures Normalized(afterCr, s) == s
    decreases |s|
  {
    if s != [] {
      NormalizedPlain(s[0] == CR, s[1..]);
    }
  }

  lemma NameTrimmed(name: Bytes, space: Bytes)
    requires IsFieldName(name) && AllWsp(space)
    ensures Lower(TrimRightWsp(NormalizeEol(name + space))) == LowerCase(name)
  {
    NormalizedPlain(false, name + space);
    TrimRightSpace(name, space);
    TrimRightDone(name);
    LowerIs(name);
  }

  lemma {:induction false} TrimRightSpace(name: Bytes, space: Bytes)
    requires AllWsp(space)
    ensures TrimRightWsp(name + space) == TrimRightWsp(name)
  {
    if space == [] {
      assert name + space == name;
    } else {
      var n := |space| - 1;
      assert (name + space)[..|name| + n] == name + space[..n];
      TrimRightSpace(name, space[..n]);
    }
  }

  /** A simple field: any whose line breaks are CRLF, and which ends in one, stays as it is. */
  lemma SimpleFieldIsExact(raw: Bytes)
    requires forall i :: 0 <= i < |raw| && raw[i] == 10 ==> i > 0 && raw[i - 1] == 13
    ensures CanonHeader(raw, false) == if |raw| >= 2 && raw[|raw| - 2] == 13 && raw[|raw| - 1] == 10 then raw else raw + [13, 10]
  {
    forall k: nat | k < |raw|
      ensures LfFollowsCr(false, raw, k)
    {
    }
    CrlfedIsNormal(false, raw);
    hide Normalized;
    if |raw| >= 2 {
      assert raw[|raw| - 2..] == [raw[|raw| - 2], raw[|raw| - 1]];
    }
  }

  // ---------------------------------------------------------------- bodies

  /** Something other than white space is in the line. */
  ghost predicate Visible(line: Bytes) {
    exists k :: 0 <= k < |line| && line[k] != 32 && line[k] != 9
  }

  /** Lines that are not broken anywhere. */
  ghost predicate AreLines(lines: seq<Bytes>) {
    forall k :: 0 <= k < |lines| ==> 10 !in lines[k]
  }

  lemma {:induction false} VisibleStays(line: Bytes)
    requires Visible(line)
    ensures Collapse(line) != []
  {
    CollapseNonWsp(line);
    CountsVisible(line);
  }

  lemma {:induction false} CountsVisible(line: Bytes)
    requires Visible(line)
    ensures NonWsp(line) > 0
  {
    var k :| 0 <= k < |line| && line[k] != 32 && line[k] != 9;
    if k > 0 {
      assert line[1..][k - 1] == line[k];
      CountsVisible(line[1..]);
    }
  }

  lemma {:induction false} BlankCollapses(line: Bytes)
    requires AllWsp(line)
    ensures Collapse(line) == []
  {
    hide Collapse;
    assert line + [] == line;
    CollapseNothing();
    if line != [] {
      CollapseGap(line, []);
    }
  }

  /** Lines of white space only are empty to the relaxed form; to the simple one just those
      that are empty. */
  ghost predicate AreBlank(lines: seq<Bytes>, relaxed: bool) {
    forall k :: 0 <= k < |lines| ==> if relaxed then AllWsp(lines[k]) else lines[k] == []
  }

  /** A body of blank lines only: nothing under relaxed, one line break under simple. */
  lemma BlankBodyIsExact(lines: seq<Bytes>, relaxed: bool)
    requires AreBlank(lines, relaxed)
    ensures CanonBody(Unlines(lines), relaxed) == if relaxed then [] else [13, 10]
  {
    forall k | 0 <= k < |lines|
      ensures LF !in lines[k] && (relaxed ==> Collapse(lines[k]) == [])
    {
      if relaxed {
        BlankCollapses(lines[k]);
      }
    }
    hide Collapse;
    LinesOfUnlines(lines, relaxed);
    var canon := CanonLines(Unlines(lines), relaxed);
    assert forall k :: 0 <= k < |canon| ==> canon[k] == [];
    AllDropped(canon);
    NoLines();
    hide CanonLines, DropEmptyTail, Unlines;
  }

  lemma NoLines()
    ensures Unlines([]) == []
  {
  }

  lemma {:induction false} AllDropped(lines: seq<Bytes>)
    requires forall k :: 0 <= k < |lines| ==> lines[k] == []
    ensures DropEmptyTail(lines) == []
  {
    if lines != [] {
      AllDropped(lines[..|lines| - 1]);
    }
  }

  /** The lines of a body that ends in a visible one, and any number of blank lines behind it:
      each line in its form, nothing behind the last. */
  lemma BodyIsExact(lines: seq<Bytes>, blank: seq<Bytes>, relaxed: bool)
    requires AreLines(lines) && lines != [] && Visible(lines[|lines| - 1]) && AreBlank(blank, relaxed)
    ensures CanonBody(Unlines(lines + blank), relaxed) == Unlines(if relaxed then MapCollapse(lines) else lines)
  {
    BlankHasNoBreak(blank, relaxed);
    VisibleStays(lines[|lines| - 1]);
    hide Collapse;
    LinesOfUnlines(lines + blank, relaxed);
    BlankForms(blank, relaxed);
    var forms, canon := if relaxed then MapCollapse(lines) else lines, CanonLines(Unlines(lines + blank), relaxed);
    var tail := if relaxed then MapCollapse(blank) else blank;
    assert canon == forms + tail;
    DropTailAfter(forms, tail);
    hide CanonLines, Unlines, MapCollapse;
  }

  lemma BlankHasNoBreak(blank: seq<Bytes>, relaxed: bool)
    requires AreBlank(blank, relaxed)
    ensures AreLines(blank)
  {
  }

  lemma BlankForms(blank: seq<Bytes>, relaxed: bool)
    requires AreBlank(blank, relaxed)
    ensures var tail := if relaxed then MapCollapse(blank) else blank; forall k :: 0 <= k < |tail| ==> tail[k] == []
  {
    if relaxed {
      forall k | 0 <= k < |blank|
        ensures Collapse(blank[k]) == []
      {
        BlankCollapses(blank[k]);
      }
    }
  }

  lemma {:induction false} DropTailAfter(forms: seq<Bytes>, tail: seq<Bytes>)
    requires forms != [] && forms[|forms| - 1] != [] && forall k :: 0 <= k < |tail| ==> tail[k] == []
    ensures DropEmptyTail(forms + tail) == forms
  {
    if tail == [] {
      assert forms + tail == forms;
    } else {
      assert (forms + tail)[..|forms + tail| - 1] == forms + tail[..|tail| - 1];
      DropTailAfter(forms, tail[..|tail| - 1]);
    }
  }

  // ---------------------------------------------------------------- the example of section 3.4.5

  const C_LINE: Bytes := [32, 67, 32]
  const D_LINE: Bytes := [68, 32, 9, 69]

  /** The body " C ", "D", a run of white space, "E" and two empty lines. */
  lemma ExampleBody()
    ensures CanonBody(Unlines([C_LINE, D_LINE, [], []]), true) == Unlines([[32, 67], [68, 32, 69]])
    ensures CanonBody(Unlines([C_LINE, D_LINE, [], []]), false) == Unlines([C_LINE, D_LINE])
  {
    var lines := [C_LINE, D_LINE];
    assert lines + [[], []] == [C_LINE, D_LINE, [], []];
    assert lines[1][0] == 68;
    ExampleLines();
    hide Collapse, Unlines, CanonBody;
    BodyIsExact(lines, [[], []], true);
    BodyIsExact(lines, [[], []], false);
    assert MapCollapse(lines) == [[32, 67], [68, 32, 69]];
  }

  lemma ExampleLines()
    ensures Collapse(C_LINE) == [32, 67] && Collapse(D_LINE) == [68, 32, 69]
  {
    hide Collapse;
    OneWord([32], [67], [32]);
    TwoWords([], [68], [32, 9], [69], []);
    assert [32] + [67] + [32] == C_LINE && [] + [68] + [32, 9] + [69] + [] == D_LINE;
  }

  lemma OneWord(g: Bytes, w: Bytes, tail: Bytes)
    requires AllWsp(g) && IsWord(w) && AllWsp(tail)
    ensures Collapse(g + w + tail) == (if g == [] then [] else [32]) + w
  {
    hide Collapse;
    SpacedOne(g, w);
    CollapseIsExact([g], [w], tail);
  }

  lemma SpacedOne(g: Bytes, w: Bytes)
    ensures Spaced([g], [w]) == g + w && Sentence([w]) == w
  {
    assert [g][1..] == [] && [w][1..] == [];
    assert g + w + [] == g + w;
  }

  lemma SpacedTwo(g: Bytes, w: Bytes, h: Bytes, x: Bytes)
    ensures Spaced([g, h], [w, x]) == g + w + (h + x) && Sentence([w, x]) == w + [32] + x
  {
    SpacedOne(h, x);
    assert [g, h][1..] == [h] && [w, x][1..] == [x];
  }

  lemma TwoWords(g: Bytes, w: Bytes, h: Bytes, x: Bytes, tail: Bytes)
    requires AllWsp(g) && IsWord(w) && AllWsp(h) && h != [] && IsWord(x) && AllWsp(tail)
    ensures Collapse(g + w + h + x + tail) == (if g == [] then [] else [32]) + (w + [32] + x)
  {
    hide Collapse;
    SpacedTwo(g, w, h, x);
    assert g + w + (h + x) + tail == g + w + h + x + tail;
    CollapseIsExact([g, h], [w, x], tail);
  }

  ghost predicate Unbroken(s: Bytes) {
    13 !in s && 10 !in s
  }

  /** A field of two words with a fold between them. */
  lemma FoldedField(name: Bytes, space: Bytes, g: Bytes, w: Bytes, h: Bytes, i: Bytes, x: Bytes, tail: Bytes)
    requires IsFieldName(name) && AllWsp(space) && AllWsp(g) && AllWsp(h) && AllWsp(i) && i != [] && AllWsp(tail)
    requires IsWord(w) && IsWord(x) && Unbroken(w) && Unbroken(x)
    ensures CanonHeader(name + space + [58] + (g + w + h + [13, 10] + (i + x + tail) + [13, 10]), true)
         == LowerCase(name) + [58] + (w + [32] + x) + [13, 10]
  {
    var front, back := g + w + h, i + x + tail;
    FoldUnfolded(front, back);
    SpacedTwo(g, w, h + i, x);
    hide CanonHeader, Unfolded;
    assert g + w + (h + i + x) + tail == front + back;
    RelaxedFieldIsExact(name, space, front + [13, 10] + back + [13, 10], [g, h + i], [w, x], tail);
  }

  lemma FoldUnfolded(front: Bytes, back: Bytes)
    requires Unbroken(front) && Unbroken(back)
    ensures Unfolded(front + [13, 10] + back + [13, 10]) == front + back
    ensures Unfolded(front + [13, 10]) == front
  {
    UnfoldedPlain(front);
    UnfoldedPlain(back);
    UnfoldedCrlf();
    UnfoldedConcat(front + CRLF + back, CRLF);
    UnfoldedConcat(front + CRLF, back);
    UnfoldedConcat(front, CRLF);
    hide Unfolded;
    assert front + [] == front && front + back + [] == front + back;
  }

  /** A field of one word. */
  lemma PlainField(name: Bytes, space: Bytes, g: Bytes, w: Bytes, tail: Bytes)
    requires IsFieldName(name) && AllWsp(space) && AllWsp(g) && AllWsp(tail) && IsWord(w) && Unbroken(w)
    ensures CanonHeader(name + space + [58] + (g + w + tail + [13, 10]), true) == LowerCase(name) + [58] + w + [13, 10]
  {
    FoldUnfolded(g + w + tail, []);
    SpacedOne(g, w);
    hide CanonHeader, Unfolded;
    RelaxedFieldIsExact(name, space, g + w + tail + [13, 10], [g], [w], tail);
  }

  /** "A: X", and "B : Y" with a tab, a fold and " Z" behind it. */
  lemma ExampleFields()
    ensures CanonHeader([65, 58, 32, 88, 13, 10], true) == [97, 58, 88, 13, 10]
    ensures CanonHeader([66, 32, 58, 32, 89, 9, 13, 10, 9, 90, 32, 32, 13, 10], true) == [98, 58, 89, 32, 90, 13, 10]
  {
    ExampleA();
    ExampleB();
  }

  lemma ExampleA()
    ensures CanonHeader([65, 58, 32, 88, 13, 10], true) == [97, 58, 88, 13, 10]
  {
    hide CanonHeader;
    PlainField([65], [], [32], [88], []);
    assert [65] + [] + [58] + ([32] + [88] + [] + [13, 10]) == [65, 58, 32, 88, 13, 10];
    SmallLetter(65);
  }

  lemma ExampleB()
    ensures CanonHeader([66, 32, 58, 32, 89, 9, 13, 10, 9, 90, 32, 32, 13, 10], true) == [98, 58, 89, 32, 90, 13, 10]
  {
    hide CanonHeader;
    FoldedField([66], [32], [32], [89], [9], [9], [90], [32, 32]);
    assert [66] + [32] + [58] + ([32] + [89] + [9] + [13, 10] + ([9] + [90] + [32, 32]) + [13, 10])
        == [66, 32, 58, 32, 89, 9, 13, 10, 9, 90, 32, 32, 13, 10];
    SmallLetter(66);
  }

  lemma SmallLetter(b: byte)
    requires 65 <= b <= 90
    ensures LowerCase([b]) == [b + 32]
  {
    assert [b][1..] == [];
  }
}
