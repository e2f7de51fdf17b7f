/** Header parsing loses nothing, keeps its limits and can be repeated. */
module HeaderLaws {
  import opened Bytes
  import opened HeaderSection

  function Raws(hs: seq<Header>): Bytes {
    if hs == [] then [] else hs[0].raw + Raws(hs[1..])
  }

  lemma {:induction false} RawsConcat(a: seq<Header>, b: seq<Header>)
    ensures Raws(a + b) == Raws(a) + Raws(b)
  {
    if a == [] {
      assert a + b == b;
    } else {
      assert (a + b)[1..] == a[1..] + b;
      RawsConcat(a[1..], b);
    }
  }

  /** What may stand between the last field and the body. */
  predicate IsSeparator(s: Bytes) {
    s == [] || s == [LF] || s == CRLF || s == [CR]
  }

  /** Lines that all start with white space. */
  predicate ContinuationLines(s: Bytes)
    decreases |s|
  {
    s == [] || (IsWsp(s[0]) && ContinuationLines(s[LineLength(s)..]))
  }

  predicate EndsInLf(s: Bytes) {
    s != [] && s[|s| - 1] == LF
  }

  /** raw is a line that starts the field name, followed by continuation lines. */
  predicate Shaped(name: Bytes, raw: Bytes) {
    && raw != [] && name != []
    && Classify(raw[..LineLength(raw)]) == Start(name)
    && ContinuationLines(raw[LineLength(raw)..])
  }

  // ---------------------------------------------------------------- lines

  lemma LineLengthPrefix(s: Bytes, t: Bytes)
    requires EndsInLf(s)
    ensures LineLength(s + t) == LineLength(s)
  {
    IndexFacts(s, LF);
    var i := IndexOf(s, LF);
    assert s[|s| - 1] in s;
    assert (s + t)[..i] == s[..i];
    IndexIs(s + t, LF, i);
  }

  lemma {:induction false} ContinuationAppend(s: Bytes, t: Bytes)
    requires ContinuationLines(s) && ContinuationLines(t) && (s == [] || EndsInLf(s))
    ensures ContinuationLines(s + t)
    decreases |s|
  {
    if s == [] {
      assert s + t == t;
    } else {
      var n := LineLength(s);
      LineLengthPrefix(s, t);
      assert (s + t)[n..] == s[n..] + t;
      assert s[n..] != [] ==> s[n..][|s[n..]| - 1] == LF;
      ContinuationAppend(s[n..], t);
    }
  }

  lemma ShapedAppend(name: Bytes, raw: Bytes, t: Bytes)
    requires Shaped(name, raw) && EndsInLf(raw) && ContinuationLines(t)
    ensures Shaped(name, raw + t)
  {
    hide Classify, LineLength;
    var n := LineLength(raw);
    LineLengthPrefix(raw, t);
    assert (raw + t)[..n] == raw[..n] && (raw + t)[n..] == raw[n..] + t;
    assert raw[n..] != [] ==> raw[n..][|raw[n..]| - 1] == LF;
    ContinuationAppend(raw[n..], t);
  }

  /** The first line of s, taken by itself. */
  lemma FirstLine(s: Bytes)
    requires s != []
    ensures var line := s[..LineLength(s)];
            LineLength(line) == |line| && (LineLength(s) < |s| ==> EndsInLf(line))
            && (ContinuationLines(line) <==> IsWsp(s[0]))
  {
    var n := LineLength(s);
    var line := s[..n];
    var i := IndexOf(s, LF);
    IndexFacts(s, LF);
    if i < 0 {
      assert line == s;
    } else {
      assert line[..i] == s[..i];
      IndexIs(line, LF, i);
    }
    assert line[|line|..] == [];
  }

  lemma TrimEolBlank(line: Bytes)
    requires line != [] && TrimEol(line) == []
    requires LF !in line || (line[|line| - 1] == LF && LF !in line[..|line| - 1])
    ensures IsSeparator(line)
  {
  }

  // ---------------------------------------------------------------- nothing is lost

  ghost predicate CurrentShaped(cur: Current, rest: Bytes) {
    cur.Field? ==> Shaped(cur.name, cur.raw) && (rest != [] ==> EndsInLf(cur.raw))
  }

  function RawOf(cur: Current): Bytes {
    if cur.NoField? then [] else cur.raw
  }

  ghost predicate AllShaped(hs: seq<Header>) {
    && (forall k :: 0 <= k < |hs| ==> Shaped(hs[k].name, hs[k].raw) && hs[k].value == FieldValue(hs[k].raw))
    && (forall k :: 0 <= k < |hs| - 1 ==> EndsInLf(hs[k].raw))
  }

  /** What a successful scan gives back: the finished fields first, then the fields of
      rest, then a separator, then the body. */
  ghost predicate Lossless(rest: Bytes, off: nat, cur: Current, done: seq<Header>, lim: Limits, lead: Bytes, sep: Bytes) {
    var s := Scan(rest, off, cur, done, lim);
    && s.Section?
    && |done| <= |s.headers| && s.headers[..|done|] == done
    && RawOf(cur) + rest == lead + Raws(s.headers[|done|..]) + sep + s.body
    && ContinuationLines(lead) && IsSeparator(sep)
    && (cur.Field? ==> lead == [] && |done| < |s.headers|
                       && cur.raw <= s.headers[|done|].raw && cur.name == s.headers[|done|].name)
    && AllShaped(s.headers[|done|..])
    && s.size + |s.body| == off + |rest|
    && s.size <= lim.maxHeaderBytes + |sep|
    && (sep == [CR] ==> s.body == [])
    && (s.headers[|done|..] != [] && !EndsInLf(s.headers[|s.headers| - 1].raw) ==> sep == [] && s.body == [])
  }

  lemma FlushLossless(cur: Current, done: seq<Header>)
    requires cur.Field? ==> Shaped(cur.name, cur.raw)
    ensures var all := done + Flush(cur);
            all[..|done|] == done && all[|done|..] == Flush(cur) && Raws(Flush(cur)) == RawOf(cur) && AllShaped(Flush(cur))
  {
    if cur.Field? {
      assert Flush(cur)[1..] == [];
    }
  }

  /** What can be said of a line of a given class. */
  lemma LineFacts(rest: Bytes)
    requires rest != []
    ensures var line := rest[..LineLength(rest)];
            match Classify(line)
            case Blank => IsSeparator(line) && (line == [CR] ==> LineLength(rest) == |rest|)
            case Continuation => ContinuationLines(line)
            case Start(name) => Shaped(name, line)
            case NotAField => true
    ensures LineLength(rest) < |rest| ==> EndsInLf(rest[..LineLength(rest)])
  {
    hide FieldValue;
    FirstLine(rest);
    IndexFacts(rest, LF);
    var line := rest[..LineLength(rest)];
    var content := TrimEol(line);
    if content == [] {
      TrimEolBlank(line);
    } else {
      assert content[0] == line[0];
      assert line[..LineLength(line)] == line && line[LineLength(line)..] == [];
      StartHasName(line);
    }
  }

  lemma StartHasName(line: Bytes)
    ensures Classify(line).Start? ==> Classify(line).name != []
  {
    hide FieldName, TrimEol;
  }

  lemma {:induction false} ScanLossless(rest: Bytes, off: nat, cur: Current, done: seq<Header>, lim: Limits)
      returns (lead: Bytes, sep: Bytes)
    requires CurrentShaped(cur, rest) && Scan(rest, off, cur, done, lim).Section?
    ensures Lossless(rest, off, cur, done, lim, lead, sep)
    decreases |rest|
  {
    hide Classify, FieldValue, LineLength, ContinuationLines, Lossless, Shaped;
    lead, sep := [], [];
    FlushLossless(cur, done);
    if rest == [] {
      LosslessEnd(rest, off, cur, done, lim);
    } else {
      var n := LineLength(rest);
      match Classify(rest[..n]) {
        case Blank =>
          sep := rest[..n];
          LosslessBlank(rest, off, cur, done, lim);
        case NotAField => LosslessEnd(rest, off, cur, done, lim);
        case Continuation =>
          LineFacts(rest);
          if cur.Field? {
            ShapedAppend(cur.name, cur.raw, rest[..n]);
          }
          lead, sep := ScanLossless(rest[n..], off + n, Extend(cur, rest[..n]), done, lim);
          lead := LosslessContinuation(rest, off, cur, done, lim, lead, sep);
        case Start(name) =>
          LineFacts(rest);
          var next := Field(name, rest[..n]);
          lead, sep := ScanLossless(rest[n..], off + n, next, done + Flush(cur), lim);
          JoinFields(rest, off, cur, done, lim, next, rest[..n], rest[n..], lead, sep);
      }
    }
  }

  lemma LosslessEnd(rest: Bytes, off: nat, cur: Current, done: seq<Header>, lim: Limits)
    requires CurrentShaped(cur, rest)
    requires Scan(rest, off, cur, done, lim) == Section(done + Flush(cur), off, rest) && off <= lim.maxHeaderBytes
    ensures Lossless(rest, off, cur, done, lim, [], [])
  {
    hide Scan, FieldValue, Shaped;
    FlushLossless(cur, done);
    assert RawOf(cur) + rest == [] + RawOf(cur) + [] + rest;
  }

  lemma LosslessBlank(rest: Bytes, off: nat, cur: Current, done: seq<Header>, lim: Limits)
    requires CurrentShaped(cur, rest) && rest != [] && off <= lim.maxHeaderBytes
    requires Classify(rest[..LineLength(rest)]).Blank?
    ensures Lossless(rest, off, cur, done, lim, [], rest[..LineLength(rest)])
  {
    hide FieldValue, Shaped, LineLength, Classify;
    LineFacts(rest);
    FlushLossless(cur, done);
    var n := LineLength(rest);
    assert Scan(rest, off, cur, done, lim) == Section(done + Flush(cur), off + n, rest[n..]);
    hide Scan, RawOf, AllShaped, Raws;
    assert RawOf(cur) + rest == [] + RawOf(cur) + rest[..n] + rest[n..];
  }

  lemma LosslessContinuation(
      rest: Bytes, off: nat, cur: Current, done: seq<Header>, lim: Limits, below: Bytes, sep: Bytes) returns (lead: Bytes)
    requires CurrentShaped(cur, rest) && rest != []
    requires var n := LineLength(rest);
             ContinuationLines(rest[..n])
             && Lossless(rest[n..], off + n, Extend(cur, rest[..n]), done, lim, below, sep)
             && Scan(rest, off, cur, done, lim) == Scan(rest[n..], off + n, Extend(cur, rest[..n]), done, lim)
    ensures Lossless(rest, off, cur, done, lim, lead, sep)
  {
    hide Scan, FieldValue, LineLength, AllShaped, Raws, IsSeparator, EndsInLf, Shaped, ContinuationLines;
    var n := LineLength(rest);
    var line, after := rest[..n], rest[n..];
    assert rest == line + after;
    var s := Scan(rest, off, cur, done, lim);
    match cur {
      case Field(name, raw) =>
        lead := below;
        JoinLine(raw, line, after, Raws(s.headers[|done|..]), sep, s.body);
        PrefixOfLonger(raw, line, s.headers[|done|].raw);
      case NoField =>
        lead := line + below;
        JoinLead(line, after, below, Raws(s.headers[|done|..]), sep, s.body);
        if below != [] {
          LineFacts(rest);
          EmptyIsNothing(after, below, Raws(s.headers[|done|..]), sep, s.body);
        }
        ContinuationLead(line, below, rest);
    }
  }

  lemma JoinLine(raw: Bytes, line: Bytes, after: Bytes, fields: Bytes, sep: Bytes, body: Bytes)
    requires (raw + line) + after == [] + fields + sep + body
    ensures raw + (line + after) == [] + fields + sep + body
  {
    assert raw + (line + after) == (raw + line) + after;
  }

  lemma JoinLead(line: Bytes, after: Bytes, below: Bytes, fields: Bytes, sep: Bytes, body: Bytes)
    requires [] + after == below + fields + sep + body
    ensures [] + (line + after) == (line + below) + fields + sep + body
  {
    assert [] + after == after;
  }

  lemma EmptyIsNothing(after: Bytes, below: Bytes, fields: Bytes, sep: Bytes, body: Bytes)
    requires [] + after == below + fields + sep + body && below != []
    ensures after != []
  {
    assert |[] + after| >= |below|;
  }

  lemma PrefixOfLonger(a: Bytes, b: Bytes, c: Bytes)
    requires a + b <= c
    ensures a <= c
  {
    assert (a + b)[..|a|] == a;
    assert c[..|a + b|][..|a|] == c[..|a|];
  }

  lemma {:induction false} ScanCount(rest: Bytes, off: nat, cur: Current, done: seq<Header>, lim: Limits)
    requires Scan(rest, off, cur, done, lim).Section? && |done + Flush(cur)| <= lim.maxHeaders
    ensures |Scan(rest, off, cur, done, lim).headers| <= lim.maxHeaders
    decreases |rest|
  {
    hide Classify, FieldValue, LineLength;
    if rest != [] {
      var n := LineLength(rest);
      match Classify(rest[..n]) {
        case Continuation => ScanCount(rest[n..], off + n, Extend(cur, rest[..n]), done, lim);
        case Start(name) => ScanCount(rest[n..], off + n, Field(name, rest[..n]), done + Flush(cur), lim);
        case _ =>
      }
    }
  }

  lemma ContinuationLead(line: Bytes, lead: Bytes, rest: Bytes)
    requires rest != [] && line == rest[..LineLength(rest)] && ContinuationLines(line) && ContinuationLines(lead)
    requires lead != [] ==> EndsInLf(line)
    ensures ContinuationLines(line + lead)
  {
    if lead == [] {
      assert line + lead == line;
    } else {
      ContinuationAppend(line, lead);
    }
  }

  /** The field under way, put before the fields found after it. */
  lemma JoinFields(
      rest: Bytes, off: nat, cur: Current, done: seq<Header>, lim: Limits,
      next: Current, line: Bytes, after: Bytes, lead: Bytes, sep: Bytes)
    requires CurrentShaped(cur, rest) && rest != [] && line + after == rest && next.Field? && next.raw == line
    requires var flushed := done + Flush(cur);
             Lossless(after, off + |line|, next, flushed, lim, lead, sep) && (cur.Field? ==> EndsInLf(cur.raw))
             && Scan(rest, off, cur, done, lim) == Scan(after, off + |line|, next, flushed, lim)
    ensures Lossless(rest, off, cur, done, lim, lead, sep)
  {
    hide Scan, FieldValue, Shaped, ContinuationLines, AllShaped, IsSeparator, Raws;
    var flushed := done + Flush(cur);
    var s := Scan(rest, off, cur, done, lim);
    FlushLossless(cur, done);
    var tail := s.headers[|flushed|..];
    assert s.headers[..|flushed|] == flushed;
    assert s.headers[|done|..] == Flush(cur) + tail;
    assert s.headers[..|done|] == done;
    RawsConcat(Flush(cur), tail);
    ShapedConcat(Flush(cur), tail);
    JoinBytes(RawOf(cur), rest, Raws(tail), sep, s.body);
  }

  lemma JoinBytes(a: Bytes, rest: Bytes, fields: Bytes, sep: Bytes, body: Bytes)
    requires rest == [] + fields + sep + body
    ensures a + rest == [] + (a + fields) + sep + body
  {
  }

  lemma ShapedConcat(a: seq<Header>, b: seq<Header>)
    requires AllShaped(a) && AllShaped(b) && (a != [] ==> EndsInLf(a[|a| - 1].raw))
    ensures AllShaped(a + b)
  {
    hide Shaped, FieldValue;
  }

  /** On success the message is its leading continuation lines, the exact bytes of its
      fields, a separator and its body; all three limits hold. */
  lemma ParsingIsLossless(data: Bytes, lim: Limits) returns (lead: Bytes, sep: Bytes)
    requires ParseMessage(data, lim).Message?
    ensures var m := ParseMessage(data, lim);
            && data == lead + Raws(m.headers) + sep + m.body
            && ContinuationLines(lead) && IsSeparator(sep)
            && m.headerSize == |data| - |m.body| <= lim.maxHeaderBytes + 2 && |data| <= lim.maxMessageBytes
            && |m.headers| <= lim.maxHeaders
            && AllShaped(m.headers)
  {
    hide Scan, AllShaped, ContinuationLines;
    lead, sep := ScanLossless(data, 0, NoField, [], lim);
    ScanCount(data, 0, NoField, [], lim);
    var s := Scan(data, 0, NoField, [], lim);
    assert s.headers[0..] == s.headers;
    assert [] + data == data;
  }

  // ---------------------------------------------------------------- parsing again

  /** White space at the start is what makes a continuation line. */
  lemma ClassOfWsp(line: Bytes)
    requires line != []
    ensures Classify(line).Continuation? <==> IsWsp(line[0])
  {
    hide FieldName;
    var content := TrimEol(line);
    assert content != [] ==> content[0] == line[0];
  }

  /** Continuation lines go to the field under way, whatever the limits say. */
  lemma {:induction false} ScanContinuation(
      s: Bytes, rest: Bytes, off: nat, name: Bytes, raw: Bytes, done: seq<Header>, lim: Limits)
    requires ContinuationLines(s) && (s == [] || EndsInLf(s))
    ensures Scan(s + rest, off, Field(name, raw), done, lim) == Scan(rest, off + |s|, Field(name, raw + s), done, lim)
    decreases |s|
  {
    hide Classify, FieldValue, LineLength;
    if s == [] {
      assert s + rest == rest && raw + s == raw;
    } else if off <= lim.maxHeaderBytes {
      var n := LineLength(s);
      LineLengthPrefix(s, rest);
      assert (s + rest)[..n] == s[..n] && (s + rest)[n..] == s[n..] + rest;
      assert s[n..] != [] ==> s[n..][|s[n..]| - 1] == LF;
      ClassOfWsp(s[..n]);
      ScanContinuation(s[n..], rest, off + n, name, raw + s[..n], done, lim);
      assert raw + s[..n] + s[n..] == raw + s;
    }
  }

  /** A well-shaped field at the front is taken as a whole. */
  lemma ScanField(name: Bytes, raw: Bytes, rest: Bytes, off: nat, cur: Current, done: seq<Header>, lim: Limits)
    requires Shaped(name, raw) && EndsInLf(raw)
    ensures Scan(raw + rest, off, cur, done, lim) ==
              if off > lim.maxHeaderBytes then Failed(HeaderSize)
              else if |done + Flush(cur)| >= lim.maxHeaders then Failed(HeaderCount)
              else Scan(rest, off + |raw|, Field(name, raw), done + Flush(cur), lim)
  {
    hide Classify, FieldValue, LineLength;
    var n := LineLength(raw);
    LineLengthPrefix(raw, rest);
    assert (raw + rest)[..n] == raw[..n] && (raw + rest)[n..] == raw[n..] + rest;
    assert raw[n..] != [] ==> raw[n..][|raw[n..]| - 1] == LF;
    ScanContinuation(raw[n..], rest, off + n, name, raw[..n], done + Flush(cur), lim);
    assert raw[..n] + raw[n..] == raw;
  }

  lemma {:induction false} ScanFields(hs: seq<Header>, body: Bytes, off: nat, cur: Current, done: seq<Header>, lim: Limits)
    requires AllShaped(hs) && (hs != [] ==> EndsInLf(hs[|hs| - 1].raw))
    requires off + |Raws(hs)| <= lim.maxHeaderBytes && |done + Flush(cur)| + |hs| <= lim.maxHeaders
    ensures Scan(Raws(hs) + (CRLF + body), off, cur, done, lim)
         == Section(done + Flush(cur) + hs, off + |Raws(hs)| + 2, body)
  {
    hide Scan, FieldValue, Shaped;
    if hs == [] {
      ScanBlank(body, off, cur, done, lim);
      assert Raws(hs) + (CRLF + body) == CRLF + body;
    } else {
      var h, tail := hs[0], hs[1..];
      assert EndsInLf(h.raw) && AllShaped(tail);
      assert Raws(hs) + (CRLF + body) == h.raw + (Raws(tail) + (CRLF + body));
      ScanField(h.name, h.raw, Raws(tail) + (CRLF + body), off, cur, done, lim);
      var flushed := done + Flush(cur);
      assert Flush(Field(h.name, h.raw)) == [h];
      ScanFields(tail, body, off + |h.raw|, Field(h.name, h.raw), flushed, lim);
      assert flushed + [h] + tail == flushed + hs;
    }
  }

  lemma ScanBlank(body: Bytes, off: nat, cur: Current, done: seq<Header>, lim: Limits)
    requires off <= lim.maxHeaderBytes
    ensures Scan(CRLF + body, off, cur, done, lim) == Section(done + Flush(cur), off + 2, body)
  {
    hide FieldName, FieldValue;
    var s := CRLF + body;
    assert s[..1] == [CR];
    IndexIs(s, LF, 1);
    assert LineLength(s) == 2;
    assert s[..2] == CRLF && s[2..] == body;
    assert CRLF[..1] == [CR];
    assert TrimEol(CRLF) == [];
    assert Classify(CRLF) == Blank;
  }

  lemma ParsedFits(data: Bytes, lim: Limits)
    requires ParseMessage(data, lim).Message?
    ensures var m := ParseMessage(data, lim);
            AllShaped(m.headers) && |Raws(m.headers)| <= lim.maxHeaderBytes && |m.headers| <= lim.maxHeaders
  {
    hide Scan, FieldValue, Shaped, ContinuationLines;
    var lead, sep := ScanLossless(data, 0, NoField, [], lim);
    ScanCount(data, 0, NoField, [], lim);
    var s := Scan(data, 0, NoField, [], lim);
    assert s.headers[0..] == s.headers && [] + data == data;
  }

  /** Well-shaped fields, a blank line and a body are parsed back. */
  lemma ShapedFieldsAreParsed(hs: seq<Header>, body: Bytes, lim: Limits)
    requires AllShaped(hs) && (hs != [] ==> EndsInLf(hs[|hs| - 1].raw))
    requires |Raws(hs)| <= lim.maxHeaderBytes && |hs| <= lim.maxHeaders && |Raws(hs)| + 2 + |body| <= lim.maxMessageBytes
    ensures ParseMessage(Raws(hs) + CRLF + body, lim) == Message(hs, |Raws(hs)| + 2, body)
  {
    hide Scan, Raws, AllShaped, EndsInLf;
    ScanFields(hs, body, 0, NoField, [], lim);
    assert [] + Flush(NoField) + hs == hs;
    assert Raws(hs) + CRLF + body == Raws(hs) + (CRLF + body);
  }

  /** Writing the fields, a blank line and the body gives a message that parses to the same
      fields and body, whenever the last field is terminated. */
  lemma ReparsingIsStable(data: Bytes, lim: Limits)
    requires ParseMessage(data, lim).Message?
    requires var m := ParseMessage(data, lim);
             (m.headers != [] ==> EndsInLf(m.headers[|m.headers| - 1].raw))
             && |Raws(m.headers)| + 2 + |m.body| <= lim.maxMessageBytes
    ensures var m := ParseMessage(data, lim);
            ParseMessage(Raws(m.headers) + CRLF + m.body, lim)
              == Message(m.headers, |Raws(m.headers)| + 2, m.body)
  {
    hide Scan, Raws, AllShaped, EndsInLf;
    var m := ParseMessage(data, lim);
    ParsedFits(data, lim);
    ShapedFieldsAreParsed(m.headers, m.body, lim);
  }

  // ---------------------------------------------------------------- a field put in front

  /** Fields before and bytes before shift the result, if the limits shift too. */
  lemma {:induction false} ScanShift(
      rest: Bytes, off: nat, cur: Current, done: seq<Header>, lim: Limits, k: nat, pre: seq<Header>)
    ensures var lim' := lim.(maxHeaderBytes := lim.maxHeaderBytes + k, maxHeaders := lim.maxHeaders + |pre|);
            var s := Scan(rest, off, cur, done, lim);
            Scan(rest, off + k, cur, pre + done, lim')
              == if s.Failed? then s else Section(pre + s.headers, s.size + k, s.body)
    decreases |rest|
  {
    hide Classify, FieldValue, LineLength;
    assert pre + done + Flush(cur) == pre + (done + Flush(cur));
    if off <= lim.maxHeaderBytes && rest != [] {
      var n := LineLength(rest);
      match Classify(rest[..n]) {
        case Continuation => ScanShift(rest[n..], off + n, Extend(cur, rest[..n]), done, lim, k, pre);
        case Start(name) => ScanShift(rest[n..], off + n, Field(name, rest[..n]), done + Flush(cur), lim, k, pre);
        case _ =>
      }
    }
  }

  lemma {:induction false} ScanLarger(
      rest: Bytes, off: nat, cur: Current, done: seq<Header>, lim: Limits, lim': Limits)
    requires lim.maxHeaderBytes <= lim'.maxHeaderBytes && lim.maxHeaders <= lim'.maxHeaders
    requires Scan(rest, off, cur, done, lim).Section?
    ensures Scan(rest, off, cur, done, lim') == Scan(rest, off, cur, done, lim)
    decreases |rest|
  {
    hide Classify, FieldValue, LineLength;
    if rest != [] {
      var n := LineLength(rest);
      match Classify(rest[..n]) {
        case Continuation => ScanLarger(rest[n..], off + n, Extend(cur, rest[..n]), done, lim, lim');
        case Start(name) => ScanLarger(rest[n..], off + n, Field(name, rest[..n]), done + Flush(cur), lim, lim');
        case _ =>
      }
    }
  }

  predicate StartsWithWsp(s: Bytes) {
    s != [] && IsWsp(s[0])
  }

  /** A field under way is finished by anything that is not a continuation line. */
  lemma ScanFlushes(rest: Bytes, off: nat, name: Bytes, raw: Bytes, lim: Limits)
    requires !StartsWithWsp(rest)
    ensures var h := Header(name, FieldValue(raw), raw);
            Scan(rest, off, Field(name, raw), [], lim) == Scan(rest, off, NoField, [h], lim)
  {
    hide Classify, FieldValue, LineLength;
    var h := Header(name, FieldValue(raw), raw);
    assert [] + Flush(Field(name, raw)) == [h] && [h] + Flush(NoField) == [h];
    if rest != [] {
      ClassOfWsp(rest[..LineLength(rest)]);
    }
  }

  /** The continuation lines a message begins with; they belong to no field of its own. */
  function Lead(s: Bytes): (r: Bytes)
    ensures |r| <= |s|
    decreases |s|
  {
    if StartsWithWsp(s) then
      var n := LineLength(s);
      s[..n] + Lead(s[n..])
    else []
  }

  /** What comes after them. */
  function AfterLead(s: Bytes): Bytes {
    s[|Lead(s)|..]
  }

  lemma {:induction false} LeadSplits(s: Bytes)
    ensures s == Lead(s) + AfterLead(s) && !StartsWithWsp(AfterLead(s))
    ensures Lead(s) == [] <==> !StartsWithWsp(s)
    decreases |s|
  {
    if StartsWithWsp(s) {
      var n := LineLength(s);
      LeadSplits(s[n..]);
      assert s[n..][|Lead(s[n..])|..] == AfterLead(s);
      assert s == s[..n] + s[n..];
    }
  }

  /** Continuation lines at the front go to the field under way, or to none. */
  lemma {:induction false} ScanLead(s: Bytes, off: nat, cur: Current, done: seq<Header>, lim: Limits)
    ensures Scan(s, off, cur, done, lim) == Scan(AfterLead(s), off + |Lead(s)|, Extend(cur, Lead(s)), done, lim)
    decreases |s|
  {
    hide Classify, FieldValue, LineLength, Lead;
    LeadStep(s);
    if !StartsWithWsp(s) {
      assert Extend(cur, []) == cur;
    } else {
      var n := LineLength(s);
      ClassOfWsp(s[..n]);
      ScanLead(s[n..], off + n, Extend(cur, s[..n]), done, lim);
      assert Extend(Extend(cur, s[..n]), Lead(s[n..])) == Extend(cur, Lead(s)) by {
        if cur.Field? {
          assert cur.raw + s[..n] + Lead(s[n..]) == cur.raw + Lead(s);
        }
      }
    }
  }

  lemma LeadStep(s: Bytes)
    ensures if StartsWithWsp(s) then
              var n := LineLength(s);
              Lead(s) == s[..n] + Lead(s[n..]) && AfterLead(s[n..]) == AfterLead(s)
            else Lead(s) == [] && AfterLead(s) == s
  {
    if StartsWithWsp(s) {
      var n := LineLength(s);
      assert s[n..][|Lead(s[n..])|..] == s[n + |Lead(s[n..])|..];
    }
  }

  /** Parsing a message with a well-shaped field put in front gives that field, with the
      continuation lines the message begins with, and then the fields of the message, with
      the same body. The field keeps its own bytes exactly when the message does not begin
      with white space. */
  lemma PrependedField(name: Bytes, raw: Bytes, message: Bytes, lim: Limits)
    requires Shaped(name, raw) && EndsInLf(raw)
    requires ParseMessage(raw + message, lim).Message?
    ensures var m, m0 := ParseMessage(raw + message, lim), ParseMessage(message, lim);
            var h := Header(name, FieldValue(raw + Lead(message)), raw + Lead(message));
            && m0.Message? && m == Message([h] + m0.headers, |raw| + m0.headerSize, m0.body)
            && (m.headers[0].raw == raw <==> !StartsWithWsp(message))
  {
    hide Scan, FieldValue, Shaped, Lead;
    ScanField(name, raw, message, 0, NoField, [], lim);
    assert [] + Flush(NoField) == [];
    var lead, rest := Lead(message), AfterLead(message);
    LeadSplits(message);
    ScanLead(message, |raw|, Field(name, raw), [], lim);
    ScanLead(message, 0, NoField, [], lim);
    var h := Header(name, FieldValue(raw + lead), raw + lead);
    ScanFlushes(rest, |raw| + |lead|, name, raw + lead, lim);
    ShiftedScan(rest, |lead|, |raw|, h, lim);
  }

  lemma ShiftedScan(rest: Bytes, off: nat, k: nat, h: Header, lim: Limits)
    requires Scan(rest, k + off, NoField, [h], lim).Section?
    ensures var s := Scan(rest, off, NoField, [], lim);
            s.Section? && Scan(rest, k + off, NoField, [h], lim) == Section([h] + s.headers, s.size + k, s.body)
  {
    hide Scan;
    var wide := lim.(maxHeaderBytes := lim.maxHeaderBytes + k, maxHeaders := lim.maxHeaders + 1);
    ScanLarger(rest, k + off, NoField, [h], lim, wide);
    assert [h] + [] == [h];
    ScanShift(rest, off, NoField, [], lim, k, [h]);
  }
}
