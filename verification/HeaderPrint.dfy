/** Header fields, written out, are parsed back; and which lines begin a field at all
    (internal/mailparser/message.go; section 2.2 of RFC 5322). */
module HeaderPrint {
  import opened Bytes
  import opened HeaderCanon
  import opened HeaderSection
  import opened HeaderLaws
  import opened CanonLaws

  // ---------------------------------------------------------------- lines

  /** A line begins a field when it has a valid name, perhaps white space, and a colon. */
  ghost predicate BeginsField(content: Bytes, name: Bytes) {
    IsFieldName(name) && exists space, rest :: AllWsp(space) && content == name + space + [58] + rest
  }

  lemma {:induction false} TrimRightSplit(s: Bytes) returns (space: Bytes)
    ensures s == TrimRightWsp(s) + space && AllWsp(space)
  {
    if s != [] && IsWsp(s[|s| - 1]) {
      var init := s[..|s| - 1];
      space := TrimRightSplit(init);
      space := space + [s[|s| - 1]];
      assert s == init + [s[|s| - 1]];
    } else {
      space := [];
    }
  }

  lemma FieldNameIs(name: Bytes, space: Bytes, rest: Bytes)
    requires IsFieldName(name) && AllWsp(space)
    ensures FieldName(name + space + [58] + rest) == name
  {
    assert COLON !in name + space;
    SplitAtColon(name + space, rest);
    TrimRightSpace(name, space);
    TrimRightDone(name);
  }

  /** The four kinds of line. A line break is CRLF or LF, and does not belong to the content. */
  lemma ClassesAreExact(line: Bytes, name: Bytes)
    ensures var content := TrimEol(line);
            && (Classify(line).Blank? <==> content == [])
            && (Classify(line).Continuation? <==> content != [] && (content[0] == 32 || content[0] == 9))
            && (Classify(line) == Start(name) <==> BeginsField(content, name))
  {
    var content := TrimEol(line);
    hide TrimEol, FieldName;
    forall space, rest | IsFieldName(name) && AllWsp(space) && content == name + space + [58] + rest
      ensures FieldName(content) == name && content[0] == name[0]
    {
      FieldNameIs(name, space, rest);
    }
    if FieldName(content) == name && name != [] {
      NameFound(content);
    }
  }

  lemma NameFound(content: Bytes)
    requires FieldName(content) != []
    ensures BeginsField(content, FieldName(content))
  {
    var colon := IndexOf(content, COLON);
    SplitAtFirst(content, COLON);
    var space := TrimRightSplit(content[..colon]);
    var name := FieldName(content);
    assert content[..colon] == name + space;
    assert forall k :: 0 <= k < |name| ==> content[..colon][k] == name[k];
    assert content == name + space + [58] + content[colon + 1..];
  }

  lemma ContentIs(content: Bytes)
    requires content == [] || content[|content| - 1] != 13
    ensures TrimEol(content + [13, 10]) == content && TrimEol(content + [10]) == content
  {
    assert (content + [13, 10])[..|content| + 1] == content + [13];
    assert (content + [13])[..|content|] == content;
    assert (content + [10])[..|content|] == content;
  }

  // ---------------------------------------------------------------- fields

  /** A field: its name, white space before the colon, and what follows it on the first and on
      the continuation lines. */
  datatype Written = Written(name: Bytes, space: Bytes, first: Bytes, more: seq<Bytes>)

  ghost predicate IsContinuation(line: Bytes) {
    line != [] && (line[0] == 32 || line[0] == 9) && 10 !in line
  }

  ghost predicate GoodField(w: Written) {
    && IsFieldName(w.name) && AllWsp(w.space) && 10 !in w.first && 13 !in w.first
    && forall k :: 0 <= k < |w.more| ==> IsContinuation(w.more[k])
  }

  function FirstLine(w: Written): Bytes {
    w.name + w.space + [58] + w.first
  }

  /** Lines with their line breaks. */
  function Lines(lines: seq<Bytes>): Bytes {
    if lines == [] then [] else lines[0] + [13, 10] + Lines(lines[1..])
  }

  function RawOfField(w: Written): Bytes {
    FirstLine(w) + [13, 10] + Lines(w.more)
  }

  lemma LineEnds(line: Bytes, rest: Bytes)
    requires 10 !in line
    ensures LineLength(line + [13, 10] + rest) == |line| + 2
    ensures (line + [13, 10] + rest)[|line| + 2..] == rest && (line + [13, 10] + rest)[..|line| + 2] == line + [13, 10]
  {
    var s := line + [13, 10] + rest;
    assert s[..|line| + 1] == line + [13];
    IndexIs(s, LF, |line| + 1);
  }

  lemma {:induction false} MoreLines(lines: seq<Bytes>)
    requires forall k :: 0 <= k < |lines| ==> IsContinuation(lines[k])
    ensures ContinuationLines(Lines(lines))
    ensures lines != [] ==> EndsInLf(Lines(lines))
  {
    hide LineLength;
    if lines != [] {
      MoreLines(lines[1..]);
      LineEnds(lines[0], Lines(lines[1..]));
      var s := Lines(lines);
      assert s[0] == lines[0][0];
      assert lines[1..] != [] ==> s[|s| - 1] == Lines(lines[1..])[|Lines(lines[1..])| - 1];
      assert |lines| == 1 ==> Lines(lines[1..]) == [];
    }
  }

  lemma FieldIsShaped(w: Written)
    requires GoodField(w)
    ensures Shaped(w.name, RawOfField(w)) && EndsInLf(RawOfField(w))
  {
    var line, raw := FirstLine(w), RawOfField(w);
    MoreLines(w.more);
    LineEnds(line, Lines(w.more));
    ContentIs(line);
    assert BeginsField(line, w.name);
    ClassesAreExact(line + [13, 10], w.name);
    hide Classify, LineLength, ContinuationLines, Lines;
    assert w.more != [] ==> raw[|raw| - 1] == Lines(w.more)[|Lines(w.more)| - 1];
    NoMoreLines();
  }

  lemma NoMoreLines()
    ensures Lines([]) == []
  {
  }

  function HeaderOf(w: Written): Header {
    var raw := RawOfField(w);
    Header(w.name, FieldValue(raw), raw)
  }

  function HeadersOf(ws: seq<Written>): (r: seq<Header>)
    ensures |r| == |ws| && forall k :: 0 <= k < |ws| ==> r[k] == HeaderOf(ws[k])
  {
    seq(|ws|, k requires 0 <= k < |ws| => HeaderOf(ws[k]))
  }

  /** Fields, a blank line and a body: the parser gives back the names, the exact bytes of the
      fields, and the body, within the limits. */
  lemma WrittenFieldsAreParsed(ws: seq<Written>, body: Bytes, lim: Limits)
    requires forall k :: 0 <= k < |ws| ==> GoodField(ws[k])
    requires var raws := Raws(HeadersOf(ws));
             |raws| <= lim.maxHeaderBytes && |ws| <= lim.maxHeaders && |raws| + 2 + |body| <= lim.maxMessageBytes
    ensures var raws := Raws(HeadersOf(ws));
            ParseMessage(raws + [13, 10] + body, lim) == Message(HeadersOf(ws), |raws| + 2, body)
  {
    var hs := HeadersOf(ws);
    AllWritten(ws);
    hide ParseMessage, Raws, AllShaped, EndsInLf;
    ShapedFieldsAreParsed(hs, body, lim);
  }

  lemma AllWritten(ws: seq<Written>)
    requires forall k :: 0 <= k < |ws| ==> GoodField(ws[k])
    ensures AllShaped(HeadersOf(ws)) && forall k :: 0 <= k < |ws| ==> EndsInLf(HeadersOf(ws)[k].raw)
  {
    hide Shaped, EndsInLf, FieldValue, GoodField, RawOfField;
    forall k | 0 <= k < |ws|
      ensures Shaped(ws[k].name, RawOfField(ws[k])) && EndsInLf(RawOfField(ws[k]))
    {
      FieldIsShaped(ws[k]);
    }
  }

  // ---------------------------------------------------------------- values

  /** What stands between white space at either end. */
  lemma {:induction false} StripIsExact(front: Bytes, core: Bytes, back: Bytes)
    requires AllWsp(front) && AllWsp(back) && (core != [] ==> !IsWsp(core[0]) && !IsWsp(core[|core| - 1]))
    ensures TrimRightWsp(TrimLeftWsp(front + core + back)) == core
  {
    assert front + core + back == front + (core + back);
    TrimGap(front, core + back);
    if core == [] {
      assert core + back == back + [];
      TrimGap(back, []);
    } else {
      assert TrimLeftWsp(core + back) == core + back;
      TrimRightSpace(core, back);
      TrimRightDone(core);
    }
  }

  /** The value of a field: the text behind the colon without its line breaks, and without
      the white space around it. */
  lemma ValueIsExact(w: Written, front: Bytes, core: Bytes, back: Bytes)
    requires GoodField(w) && AllWsp(front) && AllWsp(back)
    requires core != [] ==> !IsWsp(core[0]) && !IsWsp(core[|core| - 1])
    requires Unfolded(w.first + [13, 10] + Lines(w.more)) == front + core + back
    ensures FieldValue(RawOfField(w)) == core
  {
    var text := w.first + [13, 10] + Lines(w.more);
    hide Unfolded, Lines, IndexOf, TrimLeftWsp, TrimRightWsp;
    assert COLON !in w.name + w.space;
    assert RawOfField(w) == w.name + w.space + [COLON] + text;
    SplitAtColon(w.name + w.space, text);
    StripIsExact(front, core, back);
  }

  /** Taking out line breaks. */
  lemma {:induction false} UnfoldedLines(lines: seq<Bytes>)
    requires forall k :: 0 <= k < |lines| ==> Unbroken(lines[k])
    ensures Unfolded(Lines(lines)) == Flat(lines)
  {
    if lines != [] {
      UnfoldedLines(lines[1..]);
      UnfoldedConcat(lines[0] + [13, 10], Lines(lines[1..]));
      FoldUnfolded(lines[0], []);
    }
  }

  function Flat(lines: seq<Bytes>): Bytes {
    if lines == [] then [] else lines[0] + Flat(lines[1..])
  }
}
