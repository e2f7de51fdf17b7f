/** Laws of body canonicalization: idempotence, relaxed after simple, line endings. */
module BodyAlgebra {
  import opened Bytes
  import opened BodyCanon

  // ---------------------------------------------------------------- collapsing

  lemma CollapseHead(word: Bytes)
    requires word != [] && !IsWsp(word[0])
    ensures Collapse(word) == [word[0]] + Collapse(word[1..])
  {
  }

  lemma CollapseAfterSpace(word: Bytes)
    requires word != [] && !IsWsp(word[0])
    ensures Collapse([SP] + word) == [SP, word[0]] + Collapse(word[1..])
  {
    assert ([SP] + word)[1..] == word;
    assert TrimLeftWsp([SP] + word) == word;
  }

  /** A run of white space before a word collapses to one space. */
  lemma CollapseSpace(word: Bytes)
    requires word != [] && !IsWsp(word[0])
    ensures Collapse([SP] + word) == [SP] + Collapse(word)
  {
    CollapseHead(word);
    CollapseAfterSpace(word);
    SplitTwo(SP, word[0], Collapse(word[1..]));
  }

  lemma SplitTwo(a: byte, b: byte, s: Bytes)
    ensures [a, b] + s == [a] + ([b] + s)
  {
  }

  lemma CollapseAtWsp(s: Bytes)
    requires s != [] && IsWsp(s[0])
    ensures var rest := TrimLeftWsp(s);
            Collapse(s) == if rest == [] then [] else [SP] + Collapse(rest)
  {
    var rest := TrimLeftWsp(s);
    if rest != [] {
      CollapseSpace(rest);
    }
  }

  lemma {:induction false} CollapseTwice(s: Bytes)
    ensures Collapse(Collapse(s)) == Collapse(s)
    decreases |s|
  {
    if s != [] {
      if IsWsp(s[0]) {
        CollapseAtWsp(s);
        var rest := TrimLeftWsp(s);
        if rest != [] {
          CollapseTwice(rest);
          CollapseSpace(rest);
          CollapseSpace(Collapse(rest));
        }
      } else {
        CollapseTwice(s[1..]);
        var c := [s[0]] + Collapse(s[1..]);
        assert c[1..] == Collapse(s[1..]);
      }
    }
  }

  lemma {:induction false} CollapseNoLf(s: Bytes)
    requires LF !in s
    ensures LF !in Collapse(s)
    decreases |s|
  {
    if s != [] {
      if IsWsp(s[0]) {
        CollapseAtWsp(s);
        TrimLeftFacts(s);
        if TrimLeftWsp(s) != [] {
          CollapseNoLf(TrimLeftWsp(s));
        }
      } else {
        CollapseNoLf(s[1..]);
      }
    }
  }

  lemma {:induction false} CollapseNonWsp(s: Bytes)
    ensures NonWsp(Collapse(s)) == NonWsp(s)
    decreases |s|
  {
    if s != [] {
      if IsWsp(s[0]) {
        CollapseAtWsp(s);
        NonWspTrimmed(s);
        var rest := TrimLeftWsp(s);
        if rest != [] {
          CollapseNonWsp(rest);
          NonWspConcat([SP], Collapse(rest));
        }
      } else {
        CollapseNonWsp(s[1..]);
        NonWspConcat([s[0]], Collapse(s[1..]));
      }
    }
  }

  /** How many bytes are not white space. */
  function NonWsp(s: Bytes): nat {
    if s == [] then 0 else (if IsWsp(s[0]) then 0 else 1) + NonWsp(s[1..])
  }

  lemma {:induction false} NonWspTrimmed(s: Bytes)
    ensures NonWsp(TrimLeftWsp(s)) == NonWsp(s)
  {
    if s != [] && IsWsp(s[0]) {
      NonWspTrimmed(s[1..]);
    }
  }

  lemma {:induction false} NonWspConcat(a: Bytes, b: Bytes)
    ensures NonWsp(a + b) == NonWsp(a) + NonWsp(b)
  {
    if a == [] {
      assert a + b == b;
    } else {
      assert (a + b)[1..] == a[1..] + b;
      NonWspConcat(a[1..], b);
    }
  }

  // ---------------------------------------------------------------- canonical lines

  ghost predicate NoLf(lines: seq<Bytes>) {
    forall k :: 0 <= k < |lines| ==> LF !in lines[k]
  }

  function MapCollapse(lines: seq<Bytes>): (r: seq<Bytes>)
    ensures |r| == |lines| && forall k :: 0 <= k < |lines| ==> r[k] == Collapse(lines[k])
  {
    seq(|lines|, k requires 0 <= k < |lines| => Collapse(lines[k]))
  }

  lemma {:induction false} SimpleLinesNoLf(body: Bytes)
    ensures NoLf(CanonLines(body, false))
    decreases |body|
  {
    if body != [] {
      var i := IndexOf(body, LF);
      IndexFacts(body, LF);
      if i >= 0 {
        SimpleLinesNoLf(body[i + 1..]);
      }
    }
  }

  lemma {:induction false} RelaxedLinesMapped(body: Bytes)
    ensures CanonLines(body, true) == MapCollapse(CanonLines(body, false))
    decreases |body|
  {
    if body != [] {
      var i := IndexOf(body, LF);
      var line, rest := if i < 0 then body else body[..i], if i < 0 then [] else body[i + 1..];
      RelaxedLinesMapped(rest);
      MapCollapseCons(Chomp(line), CanonLines(rest, false));
      assert CanonLines(body, false) == [Chomp(line)] + CanonLines(rest, false);
    }
  }

  lemma MapCollapseCons(line: Bytes, rest: seq<Bytes>)
    ensures MapCollapse([line] + rest) == [Collapse(line)] + MapCollapse(rest)
  {
  }

  lemma RelaxedLines(body: Bytes)
    ensures CanonLines(body, true) == MapCollapse(CanonLines(body, false))
    ensures NoLf(CanonLines(body, false)) && NoLf(CanonLines(body, true))
  {
    SimpleLinesNoLf(body);
    RelaxedLinesMapped(body);
    var lines := CanonLines(body, false);
    forall k | 0 <= k < |lines|
      ensures LF !in Collapse(lines[k])
    {
      CollapseNoLf(lines[k]);
    }
  }

  /** One written line and what follows it. */
  lemma LinesOfLine(head: Bytes, rest: Bytes, relaxed: bool)
    requires LF !in head
    ensures CanonLines(head + CRLF + rest, relaxed)
         == [if relaxed then Collapse(head) else head] + CanonLines(rest, relaxed)
  {
    hide CanonLines, Collapse;
    CanonLinesOfLine(head + [CR], rest, relaxed);
    assert head + CRLF + rest == (head + [CR]) + [LF] + rest;
    assert Chomp(head + [CR]) == head;
  }

  /** Writing canonical lines out and splitting them again gives them back. */
  lemma {:induction false} LinesOfUnlines(lines: seq<Bytes>, relaxed: bool)
    requires NoLf(lines)
    ensures CanonLines(Unlines(lines), relaxed) == if relaxed then MapCollapse(lines) else lines
  {
    if lines != [] {
      LinesOfLine(lines[0], Unlines(lines[1..]), relaxed);
      LinesOfUnlines(lines[1..], relaxed);
      hide CanonLines, Collapse;
      assert lines == [lines[0]] + lines[1..];
    }
  }

  lemma DropLastLine(lines: seq<Bytes>)
    requires lines != []
    ensures DropEmptyTail(lines) == if lines[|lines| - 1] == [] then DropEmptyTail(lines[..|lines| - 1]) else lines
  {
  }

  lemma CollapsedLast(lines: seq<Bytes>)
    requires lines != [] && lines[|lines| - 1] == []
    ensures MapCollapse(lines) != [] && MapCollapse(lines)[|lines| - 1] == []
    ensures MapCollapse(lines)[..|lines| - 1] == MapCollapse(lines[..|lines| - 1])
  {
    assert Collapse([]) == [];
  }

  lemma {:induction false} DropTailCollapsed(lines: seq<Bytes>)
    ensures DropEmptyTail(MapCollapse(DropEmptyTail(lines))) == DropEmptyTail(MapCollapse(lines))
  {
    if lines != [] && lines[|lines| - 1] == [] {
      var init := lines[..|lines| - 1];
      hide DropEmptyTail, Collapse;
      DropTailCollapsed(init);
      DropLastLine(lines);
      CollapsedLast(lines);
      DropLastLine(MapCollapse(lines));
    }
  }

  lemma DropTailTwice(lines: seq<Bytes>)
    ensures DropEmptyTail(DropEmptyTail(lines)) == DropEmptyTail(lines)
  {
  }

  /** The lines of a canonical body. */
  lemma LinesOfCanon(body: Bytes, form: bool, relaxed: bool)
    ensures var lines := DropEmptyTail(CanonLines(body, form));
            DropEmptyTail(CanonLines(CanonBody(body, form), relaxed))
              == DropEmptyTail(if relaxed then MapCollapse(lines) else lines)
  {
    var lines := DropEmptyTail(CanonLines(body, form));
    RelaxedLines(body);
    assert NoLf(lines);
    if lines == [] && !form {
      var blank: seq<Bytes> := [[]];
      assert blank[1..] == [];
      assert Unlines(blank) == CRLF;
      LinesOfUnlines(blank, relaxed);
      assert MapCollapse(blank) == blank;
      assert DropEmptyTail(blank) == [];
    } else {
      LinesOfUnlines(lines, relaxed);
    }
  }

  lemma SimpleBodyTwice(body: Bytes)
    ensures CanonBody(CanonBody(body, false), false) == CanonBody(body, false)
  {
    hide CanonLines, Unlines;
    LinesOfCanon(body, false, false);
    DropTailTwice(CanonLines(body, false));
  }

  lemma RelaxedLinesDone(body: Bytes)
    ensures var lines := DropEmptyTail(CanonLines(body, true)); MapCollapse(lines) == lines
  {
    hide CanonLines, Collapse;
    RelaxedLines(body);
    var simple, lines := CanonLines(body, false), DropEmptyTail(CanonLines(body, true));
    forall k | 0 <= k < |lines|
      ensures Collapse(lines[k]) == lines[k]
    {
      CollapseTwice(simple[k]);
    }
  }

  lemma RelaxedBodyTwice(body: Bytes)
    ensures CanonBody(CanonBody(body, true), true) == CanonBody(body, true)
  {
    hide CanonLines, Unlines, MapCollapse;
    LinesOfCanon(body, true, true);
    RelaxedLinesDone(body);
    DropTailTwice(CanonLines(body, true));
  }

  lemma RelaxedAfterSimple(body: Bytes)
    ensures CanonBody(CanonBody(body, false), true) == CanonBody(body, true)
  {
    hide CanonLines, Unlines, MapCollapse;
    LinesOfCanon(body, false, true);
    RelaxedLines(body);
    DropTailCollapsed(CanonLines(body, false));
  }

  /** Canonicalizing twice is canonicalizing once, and relaxed undoes nothing of simple:
      the relaxed form of the simple form is the relaxed form. */
  lemma CanonBodyLaws(body: Bytes)
    ensures CanonBody(CanonBody(body, false), false) == CanonBody(body, false)
    ensures CanonBody(CanonBody(body, true), true) == CanonBody(body, true)
    ensures CanonBody(CanonBody(body, false), true) == CanonBody(body, true)
  {
    hide CanonBody;
    SimpleBodyTwice(body);
    RelaxedBodyTwice(body);
    RelaxedAfterSimple(body);
  }

  /** Bodies a simple signature cannot tell apart, a relaxed one cannot either. */
  lemma EqualSimpleEqualRelaxed(a: Bytes, b: Bytes)
    requires CanonBody(a, false) == CanonBody(b, false)
    ensures CanonBody(a, true) == CanonBody(b, true)
  {
    CanonBodyLaws(a);
    CanonBodyLaws(b);
  }

  // ---------------------------------------------------------------- line endings

  /** bytes.ReplaceAll(s, CRLF, LF) */
  function ToLf(s: Bytes): Bytes {
    if s == [] then []
    else if |s| >= 2 && s[0] == CR && s[1] == LF then [LF] + ToLf(s[2..])
    else [s[0]] + ToLf(s[1..])
  }

  lemma {:induction false} ToLfNone(s: Bytes)
    requires LF !in s
    ensures ToLf(s) == s
  {
    if s != [] {
      ToLfNone(s[1..]);
    }
  }

  lemma {:induction false} ToLfLine(line: Bytes, rest: Bytes)
    requires LF !in line
    ensures ToLf(line + [LF] + rest) == Chomp(line) + [LF] + ToLf(rest)
  {
    var s := line + [LF] + rest;
    if line == [] {
      assert s[1..] == rest;
    } else if line == [CR] {
      assert s[2..] == rest;
    } else {
      assert s[1..] == line[1..] + [LF] + rest;
      assert s[1] == if |line| == 1 then LF else line[1];
      ToLfLine(line[1..], rest);
      if |line| == 1 {
        assert line[1..] == [];
      } else {
        assert [line[0]] + Chomp(line[1..]) == Chomp(line);
      }
    }
  }

  predicate DoubleCr(line: Bytes) {
    |line| >= 2 && line[|line| - 1] == CR && line[|line| - 2] == CR
  }

  /** Somewhere a CR directly precedes a CRLF. */
  predicate CrBeforeCrlf(s: Bytes) {
    exists i :: 0 <= i < |s| - 2 && s[i] == CR && s[i + 1] == CR && s[i + 2] == LF
  }

  lemma CrBeforeCrlfLine(line: Bytes, rest: Bytes)
    requires LF !in line
    ensures CrBeforeCrlf(line + [LF] + rest) <==> DoubleCr(line) || CrBeforeCrlf(rest)
  {
    var s := line + [LF] + rest;
    if DoubleCr(line) {
      var i := |line| - 2;
      assert s[i] == CR && s[i + 1] == CR && s[i + 2] == LF;
    }
    if CrBeforeCrlf(rest) {
      var i :| 0 <= i < |rest| - 2 && rest[i] == CR && rest[i + 1] == CR && rest[i + 2] == LF;
      var j := |line| + 1 + i;
      assert s[j] == CR && s[j + 1] == CR && s[j + 2] == LF;
    }
    if CrBeforeCrlf(s) {
      var i :| 0 <= i < |s| - 2 && s[i] == CR && s[i + 1] == CR && s[i + 2] == LF;
      if i + 2 == |line| {
        assert line[i] == CR && line[i + 1] == CR;
      } else {
        assert i > |line|;
        var j := i - |line| - 1;
        assert rest[j] == CR && rest[j + 1] == CR && rest[j + 2] == LF;
      }
    }
  }

  function Weight(lines: seq<Bytes>): nat {
    if lines == [] then 0 else NonWsp(lines[0]) + Weight(lines[1..])
  }

  lemma CanonLinesOfLine(line: Bytes, rest: Bytes, relaxed: bool)
    requires LF !in line
    ensures CanonLines(line + [LF] + rest, relaxed) == [CanonLine(line, relaxed)] + CanonLines(rest, relaxed)
  {
    var s := line + [LF] + rest;
    assert s[..|line|] == line && s[|line| + 1..] == rest;
    IndexIs(s, LF, |line|);
  }

  /** One line before and after its CRLF became LF. */
  lemma LineToLf(line: Bytes, relaxed: bool)
    ensures var a, b := CanonLine(line, relaxed), CanonLine(Chomp(line), relaxed);
            && (a == [] ==> b == [])
            && NonWsp(a) == NonWsp(b) + (if DoubleCr(line) then 1 else 0)
            && (!DoubleCr(line) ==> a == b)
  {
    var once, twice := Chomp(line), Chomp(Chomp(line));
    CollapseNonWsp(once);
    CollapseNonWsp(twice);
    if DoubleCr(line) {
      assert once == twice + [CR];
      NonWspConcat(twice, [CR]);
      assert NonWsp([CR]) == 1;
    } else {
      assert twice == once;
    }
    assert CanonLine(line, relaxed) == if relaxed then Collapse(once) else once;
    assert CanonLine(Chomp(line), relaxed) == if relaxed then Collapse(twice) else twice;
  }

  /** Lines a before and b after CRLF became LF; strictly when some line lost a CR. */
  ghost predicate Lighter(a: seq<Bytes>, b: seq<Bytes>, strictly: bool) {
    && |a| == |b|
    && (forall k :: 0 <= k < |a| && a[k] == [] ==> b[k] == [])
    && (if strictly then Weight(b) < Weight(a) else a == b)
  }

  lemma LighterCons(x: Bytes, y: Bytes, lost: bool, a: seq<Bytes>, b: seq<Bytes>, strictly: bool)
    requires Lighter(a, b, strictly) && (x == [] ==> y == [])
    requires NonWsp(x) == NonWsp(y) + (if lost then 1 else 0) && (!lost ==> x == y)
    ensures Lighter([x] + a, [y] + b, lost || strictly)
  {
    WeightCons(x, a);
    WeightCons(y, b);
  }

  /** All lines before and after CRLF became LF. */
  lemma {:induction false} LinesToLf(body: Bytes, relaxed: bool)
    ensures Lighter(CanonLines(body, relaxed), CanonLines(ToLf(body), relaxed), CrBeforeCrlf(body))
    decreases |body|
  {
    var i := IndexOf(body, LF);
    if i < 0 {
      IndexFacts(body, LF);
      ToLfNone(body);
    } else {
      var line, rest := body[..i], body[i + 1..];
      SplitAtFirst(body, LF);
      LinesToLf(rest, relaxed);
      ToLfLine(line, rest);
      CrBeforeCrlfLine(line, rest);
      CanonLinesOfLine(line, rest, relaxed);
      CanonLinesOfLine(Chomp(line), ToLf(rest), relaxed);
      LineToLf(line, relaxed);
      LighterCons(CanonLine(line, relaxed), CanonLine(Chomp(line), relaxed), DoubleCr(line),
                  CanonLines(rest, relaxed), CanonLines(ToLf(rest), relaxed), CrBeforeCrlf(rest));
    }
  }

  lemma WeightCons(line: Bytes, rest: seq<Bytes>)
    ensures Weight([line] + rest) == NonWsp(line) + Weight(rest)
  {
    assert ([line] + rest)[1..] == rest;
  }

  lemma {:induction false} WeightDropped(lines: seq<Bytes>)
    ensures Weight(DropEmptyTail(lines)) == Weight(lines)
  {
    if lines != [] && lines[|lines| - 1] == [] {
      WeightDropped(lines[..|lines| - 1]);
      WeightSnoc(lines[..|lines| - 1], []);
      assert lines[..|lines| - 1] + [[]] == lines;
    }
  }

  lemma {:induction false} WeightSnoc(lines: seq<Bytes>, line: Bytes)
    ensures Weight(lines + [line]) == Weight(lines) + NonWsp(line)
  {
    if lines == [] {
      WeightCons(line, []);
      assert lines + [line] == [line] + [];
    } else {
      assert (lines + [line])[1..] == lines[1..] + [line];
      WeightSnoc(lines[1..], line);
    }
  }

  lemma {:induction false} NonWspUnlines(lines: seq<Bytes>)
    ensures NonWsp(Unlines(lines)) == Weight(lines) + 2 * |lines|
  {
    if lines != [] {
      NonWspUnlines(lines[1..]);
      NonWspConcat(lines[0] + CRLF, Unlines(lines[1..]));
      NonWspConcat(lines[0], CRLF);
      NonWspCrlf();
    }
  }

  lemma NonWspCrlf()
    ensures NonWsp(CRLF) == 2
  {
    NonWspConcat([CR], [LF]);
    assert [CR] + [LF] == CRLF;
    assert NonWsp([CR]) == 1 && NonWsp([LF]) == 1;
  }

  lemma DroppedNotShorter(a: seq<Bytes>, b: seq<Bytes>)
    requires |a| == |b| && forall k :: 0 <= k < |a| && a[k] == [] ==> b[k] == []
    ensures |DropEmptyTail(b)| <= |DropEmptyTail(a)|
  {
    var kept := DropEmptyTail(b);
    if kept != [] {
      assert kept[|kept| - 1] == b[|kept| - 1];
      assert a[|kept| - 1] != [];
    }
  }

  /** Storing a body with LF line endings leaves its canonical form alone exactly when no
      CR directly precedes a CRLF, under both forms. */
  lemma LfKeepsCanonBody(body: Bytes, relaxed: bool)
    ensures CanonBody(ToLf(body), relaxed) == CanonBody(body, relaxed) <==> !CrBeforeCrlf(body)
  {
    LinesToLf(body, relaxed);
    if CrBeforeCrlf(body) {
      var a, b := CanonLines(body, relaxed), CanonLines(ToLf(body), relaxed);
      DroppedNotShorter(a, b);
      WeightDropped(a);
      WeightDropped(b);
      NonWspUnlines(DropEmptyTail(a));
      NonWspUnlines(DropEmptyTail(b));
      NonWspCrlf();
      assert NonWsp(CanonBody(ToLf(body), relaxed)) < NonWsp(CanonBody(body, relaxed));
    }
  }

  // ---------------------------------------------------------------- bare LF

  /** normalizeEOL: a bare LF becomes CRLF. */
  function Normalized(afterCr: bool, s: Bytes): Bytes
    decreases |s|
  {
    if s == [] then []
    else (if s[0] == LF && !afterCr then [CR, LF] else [s[0]]) + Normalized(s[0] == CR, s[1..])
  }

  function NormalizeEol(s: Bytes): Bytes {
    Normalized(false, s)
  }

  method NormalizeLineEndings(b: Bytes) returns (out: Bytes)
    ensures out == NormalizeEol(b)
  {
    out := [];
    if LF !in b {
      NormalizedNone(false, b);
      return b;
    }
    assert b[0..] == b && b[|b|..] == [] && Normalized(b[|b| - 1] == CR, []) == [];
    hide Normalized;
    for i := 0 to |b|
      invariant out + Normalized(i > 0 && b[i - 1] == CR, b[i..]) == NormalizeEol(b)
    {
      NormalizedStep(i > 0 && b[i - 1] == CR, b, i, out);
      if b[i] == LF && (i == 0 || b[i - 1] != CR) {
        out := out + [CR];
      }
      out := out + [b[i]];
    }
  }

  lemma NormalizedStep(afterCr: bool, b: Bytes, i: nat, out: Bytes)
    requires i < |b|
    ensures out + Normalized(afterCr, b[i..])
         == (if b[i] == LF && !afterCr then out + [CR] else out) + [b[i]] + Normalized(b[i] == CR, b[i + 1..])
  {
    assert b[i..][1..] == b[i + 1..];
    var rest := Normalized(b[i] == CR, b[i + 1..]);
    hide Normalized;
    assert out + ([CR, LF] + rest) == out + [CR] + [LF] + rest;
    assert out + ([b[i]] + rest) == out + [b[i]] + rest;
  }

  lemma {:induction false} NormalizedNone(afterCr: bool, s: Bytes)
    requires LF !in s
    ensures Normalized(afterCr, s) == s
    decreases |s|
  {
    if s != [] {
      NormalizedNone(s[0] == CR, s[1..]);
    }
  }

  lemma {:induction false} NormalizedLine(afterCr: bool, line: Bytes, rest: Bytes)
    requires LF !in line
    ensures var ended := if line == [] then afterCr else line[|line| - 1] == CR;
            Normalized(afterCr, line + [LF] + rest) == line + (if ended then [] else [CR]) + [LF] + Normalized(false, rest)
    decreases |line|
  {
    var s := line + [LF] + rest;
    if line == [] {
      assert s[1..] == rest;
    } else {
      assert s[1..] == line[1..] + [LF] + rest;
      NormalizedLine(line[0] == CR, line[1..], rest);
      assert [line[0]] + line[1..] == line;
    }
  }

  /** Bare line feeds never matter to a body hash. */
  lemma {:induction false} NormalizingKeepsLines(body: Bytes, relaxed: bool)
    ensures CanonLines(NormalizeEol(body), relaxed) == CanonLines(body, relaxed)
    decreases |body|
  {
    var i := IndexOf(body, LF);
    if i < 0 {
      IndexFacts(body, LF);
      NormalizedNone(false, body);
    } else {
      var line, rest := body[..i], body[i + 1..];
      SplitAtFirst(body, LF);
      NormalizedLine(false, line, rest);
      NormalizingKeepsLines(rest, relaxed);
      var ended := line != [] && line[|line| - 1] == CR;
      var line' := line + (if ended then [] else [CR]);
      assert Chomp(line') == Chomp(line);
      assert LF !in line';
      CanonLinesOfLine(line', NormalizeEol(rest), relaxed);
      CanonLinesOfLine(line, rest, relaxed);
    }
  }

  lemma NormalizingKeepsCanonBody(body: Bytes, relaxed: bool)
    ensures CanonBody(NormalizeEol(body), relaxed) == CanonBody(body, relaxed)
  {
    NormalizingKeepsLines(body, relaxed);
  }
}
