/** Signer and verifier hash the same bytes. */
module SignVerify {
  import opened Bytes
  import opened BodyCanon
  import opened BodyAlgebra
  import opened HeaderCanon
  import opened HeaderSection
  import opened HeaderLaws
  import opened SelectHeaders
  import opened Signing

  // ---------------------------------------------------------------- clean values

  /** No tag separator and no line break. */
  predicate CleanValue(v: Bytes) {
    SEMI !in v && LF !in v
  }

  /** A tag name other than b, with nothing around or inside it to trim or to split at. */
  predicate GoodName(n: Bytes) {
    n != [] && n != B_TAG && CleanValue(n) && EQ !in n && !IsFws(n[0]) && !IsFws(n[|n| - 1])
  }

  predicate GoodTag(t: Tag) {
    (t.lead == [SP] || t.lead == NEW_LINE) && GoodName(t.name) && CleanValue(t.value)
  }

  predicate CleanOptions(o: Options) {
    && CleanValue(o.algorithm) && CleanValue(o.domain) && CleanValue(o.selector) && CleanValue(o.auid)
    && CleanValue(o.timestamp) && CleanValue(o.expire) && CleanValue(JoinNames(o.names))
    && forall k :: 0 <= k < |o.extra| ==> GoodName(o.extra[k].name) && CleanValue(o.extra[k].value)
  }

  /** Base64 texts contain neither a semicolon nor a line break. */
  ghost predicate CleanCrypto(c: Crypto) {
    forall x :: CleanValue(c.base64(x))
  }

  ghost predicate GoodTags(tags: seq<Tag>) {
    forall k :: 0 <= k < |tags| ==> GoodTag(tags[k])
  }

  /** Everything but the white space in front. */
  ghost predicate GoodBodies(tags: seq<Tag>) {
    forall k :: 0 <= k < |tags| ==> GoodName(tags[k].name) && CleanValue(tags[k].value)
  }

  lemma {:induction false} LinedGood(tags: seq<Tag>, lead: Bytes)
    requires GoodBodies(tags) && (lead == [SP] || lead == NEW_LINE)
    ensures GoodTags(Lined(tags, lead))
  {
    hide GoodName;
    if tags != [] {
      LinedGood(tags[1..], [SP]);
    }
  }

  lemma NameGood(s: string)
    requires s in {"v", "a", "c", "d", "s", "i", "t", "x", "l", "h", "bh"}
    ensures GoodName(B(s))
  {
    var n := B(s);
    assert forall k :: 0 <= k < |n| ==> n[k] as int == s[k] as int % 256;
    if s == "bh" {
      assert n == [98, 104];
    } else {
      assert |n| == 1 && n == [n[0]];
    }
  }

  lemma CanonNameClean(h: bool, b: bool)
    ensures CleanValue(CanonName(h) + B("/") + CanonName(b))
  {
    ClearText("relaxed");
    ClearText("simple");
    ClearText("/");
  }

  lemma ClearText(s: string)
    requires forall i :: 0 <= i < |s| ==> '/' <= s[i] <= 'z' && s[i] != ';'
    ensures CleanValue(B(s))
  {
  }

  lemma {:induction false} TwoGood(a: seq<Tag>, b: seq<Tag>)
    requires GoodTags(a) && GoodTags(b)
    ensures GoodTags(a + b)
  {
    hide GoodTag;
  }

  lemma BodiesConcat(a: seq<Tag>, b: seq<Tag>)
    requires GoodBodies(a) && GoodBodies(b)
    ensures GoodBodies(a + b)
  {
    hide GoodName, CleanValue;
  }

  lemma OneGood(name: string, value: Bytes)
    requires name in {"v", "a", "c", "d", "s", "i", "t", "x", "l", "h", "bh"} && CleanValue(value)
    ensures GoodBodies([Tag([], B(name), value)]) && GoodBodies(OptionalTag(name, value))
  {
    NameGood(name);
  }

  lemma FirstTagsGood(o: Options)
    requires CleanOptions(o)
    ensures GoodBodies(FirstTags(o))
  {
    NameGood("v");
    NameGood("a");
    NameGood("c");
    NameGood("d");
    NameGood("s");
    hide GoodName, CleanValue, CanonName;
    ClearText("1");
    CanonNameClean(o.headerRelaxed, o.bodyRelaxed);
  }

  lemma SecondTagsGood(o: Options, length: Bytes)
    requires CleanOptions(o) && CleanValue(length)
    ensures GoodBodies(SecondTags(o, length))
  {
    OneGood("i", o.auid);
    OneGood("t", o.timestamp);
    OneGood("x", o.expire);
    OneGood("l", length);
    OneGood("h", JoinNames(o.names));
    hide GoodName, CleanValue, OptionalTag, GoodBodies, JoinNames, CleanOptions;
    var i, t, x, l := OptionalTag("i", o.auid), OptionalTag("t", o.timestamp), OptionalTag("x", o.expire), OptionalTag("l", length);
    BodiesConcat(i, t);
    BodiesConcat(i + t, x);
    BodiesConcat(i + t + x, l);
    BodiesConcat(i + t + x + l, [Tag([], B("h"), JoinNames(o.names))]);
  }

  lemma TagsGood(o: Options, length: Bytes, bh: Bytes)
    requires CleanOptions(o) && CleanValue(length) && CleanValue(bh)
    ensures GoodTags(SignatureTags(o, length, bh))
  {
    FirstTagsGood(o);
    SecondTagsGood(o, length);
    OneGood("bh", bh);
    assert GoodBodies(o.extra);
    hide GoodTags, GoodBodies, Lined, FirstTags, SecondTags;
    var first, second := FirstTags(o), SecondTags(o, length);
    LinedGood(first, [SP]);
    LinedGood(second, NEW_LINE);
    LinedGood([Tag([], B("bh"), bh)], NEW_LINE);
    LinedGood(o.extra, NEW_LINE);
    TwoGood(Lined(first, [SP]), Lined(second, NEW_LINE));
    TwoGood(Lined(first, [SP]) + Lined(second, NEW_LINE), Lined([Tag([], B("bh"), bh)], NEW_LINE));
    TwoGood(Lined(first, [SP]) + Lined(second, NEW_LINE) + Lined([Tag([], B("bh"), bh)], NEW_LINE),
            Lined(o.extra, NEW_LINE));
  }

  // ---------------------------------------------------------------- stripping

  lemma {:induction false} TrimFront(lead: Bytes, name: Bytes)
    requires forall k :: 0 <= k < |lead| ==> IsFws(lead[k])
    requires name != [] && !IsFws(name[0]) && !IsFws(name[|name| - 1])
    ensures TrimFws(lead + name) == name
  {
    if lead == [] {
      assert lead + name == name;
    } else {
      assert (lead + name)[1..] == lead[1..] + name;
      TrimFront(lead[1..], name);
    }
  }

  lemma LeadIsFws(lead: Bytes)
    requires lead == [SP] || lead == NEW_LINE
    ensures forall k :: 0 <= k < |lead| ==> IsFws(lead[k])
    ensures SEMI !in lead && EQ !in lead
  {
  }

  lemma FirstEq(front: Bytes, rest: Bytes)
    requires EQ !in front
    ensures IndexOf(front + [EQ] + rest, EQ) == |front|
    ensures (front + [EQ] + rest)[..|front|] == front
    ensures (front + [EQ] + rest)[..|front| + 1] == front + [EQ]
  {
    var s := front + [EQ] + rest;
    assert s[..|front|] == front;
    IndexIs(s, EQ, |front|);
  }

  /** A tag other than b is kept. */
  lemma StripKeepsTag(t: Tag, rest: Bytes)
    requires GoodTag(t)
    ensures StripTags(TagText(t) + rest) == TagText(t) + StripTags(rest)
  {
    hide TrimFws, TrailingEol, IndexOf;
    LeadIsFws(t.lead);
    TrimFront(t.lead, t.name);
    var text := TagText(t);
    var front := t.lead + t.name;
    assert text == front + [EQ] + (t.value + [SEMI]);
    FirstEq(front, t.value + [SEMI]);
    assert StripTag(text, true) == text;
    var all := text + rest;
    assert all[..|text| - 1] == t.lead + t.name + [EQ] + t.value;
    IndexIs(all, SEMI, |text| - 1);
    assert all[..|text|] == text && all[|text|..] == rest;
    StripStep(all);
  }

  lemma {:induction false} StripKeepsTags(tags: seq<Tag>, rest: Bytes)
    requires GoodTags(tags)
    ensures StripTags(TagsText(tags) + rest) == TagsText(tags) + StripTags(rest)
  {
    hide GoodTag, TagText, StripTags;
    if tags == [] {
      assert TagsText(tags) + rest == rest;
    } else {
      assert TagsText(tags) + rest == TagText(tags[0]) + (TagsText(tags[1..]) + rest);
      StripKeepsTag(tags[0], TagsText(tags[1..]) + rest);
      StripKeepsTags(tags[1..], rest);
    }
  }

  /** The value of b= goes, the line break of the field stays. */
  lemma StripLast(lead: Bytes, v: Bytes)
    requires (lead == [SP] || lead == NEW_LINE) && SEMI !in v
    ensures StripTags(lead + B_TAG + [EQ] + v) == lead + B_TAG + [EQ] + TrailingEol(v)
  {
    hide TrimFws, IndexOf;
    LeadIsFws(lead);
    TrimFront(lead, B_TAG);
    var front := lead + B_TAG;
    var seg := front + [EQ] + v;
    FirstEq(front, v);
    assert SEMI !in seg;
    IndexNone(seg, SEMI);
    StripStep(seg);
    TrailingOf(front, v);
    assert StripTag(seg, false) == front + [EQ] + TrailingEol(v);
  }

  lemma EndsInCrlf(s: Bytes)
    ensures EndsWith(s, CRLF) <==> |s| >= 2 && s[|s| - 2] == CR && s[|s| - 1] == LF
    ensures EndsWith(s, [LF]) <==> |s| >= 1 && s[|s| - 1] == LF
  {
    if |s| >= 2 {
      assert s[|s| - 2..] == [s[|s| - 2], s[|s| - 1]];
    }
    if |s| >= 1 {
      assert s[|s| - 1..] == [s[|s| - 1]];
    }
  }

  lemma TrailingOf(front: Bytes, v: Bytes)
    ensures TrailingEol(front + [EQ] + v) == TrailingEol(v)
  {
    hide EndsWith;
    var seg := front + [EQ] + v;
    EndsInCrlf(seg);
    EndsInCrlf(v);
    assert |v| < 1 ==> seg[|seg| - 1] == EQ;
    assert |v| == 1 ==> seg[|seg| - 2] == EQ;
  }

  lemma TagEnded(lead: Bytes, v: Bytes)
    requires lead == [SP] || lead == NEW_LINE
    ensures StripTag(lead + B_TAG + [EQ] + (v + [SEMI]), true) == lead + B_TAG + [EQ] + [SEMI]
  {
    hide TrimFws, IndexOf, TrailingEol;
    LeadIsFws(lead);
    TrimFront(lead, B_TAG);
    FirstEq(lead + B_TAG, v + [SEMI]);
  }

  /** Tags are stripped one by one. */
  lemma StripSegment(text: Bytes, rest: Bytes)
    requires SEMI !in text
    ensures StripTags(text + [SEMI] + rest) == StripTag(text + [SEMI], true) + StripTags(rest)
  {
    hide IndexOf, StripTag, StripTags;
    var seg, all := text + [SEMI], text + [SEMI] + rest;
    assert all[..|text|] == text;
    IndexIs(all, SEMI, |text|);
    assert all[..|seg|] == seg && all[|seg|..] == rest;
    StripStep(all);
  }

  /** A semicolon ends the value of b=; what comes after it are further tags. */
  lemma StripLastEnded(lead: Bytes, v: Bytes, rest: Bytes)
    requires (lead == [SP] || lead == NEW_LINE) && SEMI !in v
    ensures StripTags(lead + B_TAG + [EQ] + (v + [SEMI] + rest)) == lead + B_TAG + [EQ] + ([SEMI] + StripTags(rest))
  {
    LeadIsFws(lead);
    TagEnded(lead, v);
    hide StripTag, StripTags, IsFws;
    var front := lead + B_TAG + [EQ];
    StripSegment(front + v, rest);
    Joined(front, v, [SEMI], rest);
    Joined(front, [], [SEMI], StripTags(rest));
  }

  lemma Joined(a: Bytes, b: Bytes, c: Bytes, d: Bytes)
    ensures a + (b + c + d) == a + b + c + d && a + (b + c) == a + b + c
    ensures b == [] ==> a + b == a && b + c == c
  {
  }

  lemma NameHasNoColon()
    ensures COLON !in SIGNATURE_NAME && ValidFieldName(SIGNATURE_NAME) && |SIGNATURE_NAME| == 14
    ensures !IsWsp(SIGNATURE_NAME[13]) && LF !in SIGNATURE_NAME
  {
    var s := "DKIM-Signature";
    assert s[0] == 'D' && s[1] == 'K' && s[2] == 'I' && s[3] == 'M' && s[4] == '-' && s[5] == 'S' && s[6] == 'i';
    assert s[7] == 'g' && s[8] == 'n' && s[9] == 'a' && s[10] == 't' && s[11] == 'u' && s[12] == 'r' && s[13] == 'e';
    forall i | 0 <= i < 14
      ensures SIGNATURE_NAME[i] as int == s[i] as int && '-' <= s[i] <= 'u' && s[i] != ':'
    {
    }
  }

  function LastLead(o: Options): Bytes {
    if o.extra == [] then NEW_LINE else [SP]
  }

  /** Only what follows "b=" is changed by stripping. */
  lemma StripFront(o: Options, length: Bytes, bh: Bytes, v: Bytes, w: Bytes)
    requires CleanOptions(o) && CleanValue(length) && CleanValue(bh)
    requires StripTags(LastLead(o) + B_TAG + [EQ] + v) == LastLead(o) + B_TAG + [EQ] + w
    ensures StripSignature(FieldFront(o, length, bh) + v) == FieldFront(o, length, bh) + w
  {
    hide StripTags, TagsText, CleanOptions, SignatureTags;
    TagsGood(o, length, bh);
    NameHasNoColon();
    var text, lead := TagsText(SignatureTags(o, length, bh)), LastLead(o);
    var tail := lead + B_TAG + [EQ] + v;
    var raw := FieldFront(o, length, bh) + v;
    assert raw == SIGNATURE_NAME + [COLON] + (text + tail);
    HeaderCanon.SplitAtColon(SIGNATURE_NAME, text + tail);
    assert raw[..|SIGNATURE_NAME| + 1] == SIGNATURE_NAME + [COLON];
    StripKeepsTags(SignatureTags(o, length, bh), tail);
    assert FieldFront(o, length, bh) + w == SIGNATURE_NAME + [COLON] + (text + (lead + B_TAG + [EQ] + w));
  }

  /** Stripping a field with any value that has no semicolon leaves the front of it and its
      last line break. */
  lemma StripRecoversFront(o: Options, length: Bytes, bh: Bytes, v: Bytes)
    requires CleanOptions(o) && CleanValue(length) && CleanValue(bh) && SEMI !in v
    ensures StripSignature(FieldFront(o, length, bh) + v) == FieldFront(o, length, bh) + TrailingEol(v)
  {
    hide CleanOptions, CleanValue, FieldFront, StripTags, StripSignature, TrailingEol;
    StripLast(LastLead(o), v);
    StripFront(o, length, bh, v, TrailingEol(v));
  }

  /** Stripping the signed field recovers exactly the field that was hashed. */
  lemma StripRecoversUnsigned(o: Options, length: Bytes, bh: Bytes, v: Bytes)
    requires CleanOptions(o) && CleanValue(length) && CleanValue(bh) && SEMI !in v
    ensures StripSignature(FieldFront(o, length, bh) + v + CRLF) == FieldFront(o, length, bh) + CRLF
  {
    hide CleanOptions, CleanValue, FieldFront, StripSignature;
    StripRecoversFront(o, length, bh, v + CRLF);
    assert (v + CRLF)[|v|..] == CRLF;
    assert FieldFront(o, length, bh) + v + CRLF == FieldFront(o, length, bh) + (v + CRLF);
  }

  // ---------------------------------------------------------------- the shape of the field

  /** Every LF of s is followed by white space within s. */
  ghost predicate Foldy(s: Bytes) {
    forall i :: 0 <= i < |s| && s[i] == LF ==> i + 1 < |s| && IsWsp(s[i + 1])
  }

  lemma FoldyConcat(a: Bytes, b: Bytes)
    requires Foldy(a) && Foldy(b)
    ensures Foldy(a + b)
  {
    var s := a + b;
    forall i | 0 <= i < |s| && s[i] == LF
      ensures i + 1 < |s| && IsWsp(s[i + 1])
    {
      if i < |a| {
        assert a[i] == LF;
      } else {
        assert b[i - |a|] == LF;
        assert s[i + 1] == b[i - |a| + 1];
      }
    }
  }

  lemma FoldyTag(t: Tag)
    requires GoodTag(t)
    ensures Foldy(TagText(t))
  {
    assert Foldy(t.lead);
    var body := t.name + [EQ] + t.value + [SEMI];
    assert LF !in body;
    FoldyConcat(t.lead, body);
    assert TagText(t) == t.lead + body;
  }

  lemma {:induction false} FoldyTags(tags: seq<Tag>)
    requires GoodTags(tags)
    ensures Foldy(TagsText(tags))
  {
    if tags != [] {
      FoldyTag(tags[0]);
      FoldyTags(tags[1..]);
      FoldyConcat(TagText(tags[0]), TagsText(tags[1..]));
    }
  }

  lemma {:induction false} FoldyFolded(s: Bytes)
    requires LF !in s
    ensures Foldy(Folded(s)) && (SEMI !in s ==> SEMI !in Folded(s))
  {
    if |s| > LINE_WIDTH {
      var line, rest := s[..LINE_WIDTH], s[LINE_WIDTH..];
      FoldyFolded(rest);
      assert Foldy(line) && Foldy(FOLD);
      FoldyConcat(line, FOLD);
      FoldyConcat(line + FOLD, Folded(rest));
    }
  }

  /** Folded text that starts with white space is a run of continuation lines. */
  lemma {:induction false} FoldyLines(t: Bytes)
    requires Foldy(t) && t != [] && IsWsp(t[0])
    ensures ContinuationLines(t + CRLF)
    decreases |t|
  {
    var s := t + CRLF;
    var i := IndexOf(t, LF);
    IndexFacts(t, LF);
    if i < 0 {
      assert s[..|t| + 1] == t + [CR];
      IndexIs(s, LF, |t| + 1);
      assert s[LineLength(s)..] == [];
    } else {
      assert s[..i] == t[..i];
      IndexIs(s, LF, i);
      var rest := t[i + 1..];
      assert s[LineLength(s)..] == rest + CRLF;
      FoldyTail(t, i + 1);
      FoldyLines(rest);
    }
  }

  lemma FoldyTail(t: Bytes, n: nat)
    requires Foldy(t) && n <= |t|
    ensures Foldy(t[n..])
  {
    var r := t[n..];
    forall i | 0 <= i < |r| && r[i] == LF
      ensures i + 1 < |r| && IsWsp(r[i + 1])
    {
      assert t[n + i] == LF;
      assert r[i + 1] == t[n + i + 1];
    }
  }

  lemma StartOfName(line: Bytes, after: Bytes)
    requires line == SIGNATURE_NAME + [COLON] + after + CRLF || line == SIGNATURE_NAME + [COLON] + after + [LF]
    requires LF !in after
    ensures Classify(line) == Start(SIGNATURE_NAME)
  {
    hide ValidFieldName;
    NameHasNoColon();
    var content := TrimEol(line);
    var text := SIGNATURE_NAME + [COLON] + after;
    assert content == text || content == Chomp(text) by {
      assert line[..|line| - 1] == text + [CR] || line[..|line| - 1] == text;
      assert Chomp(text + [CR]) == text;
    }
    assert SIGNATURE_NAME + [COLON] <= content;
    var tail := content[15..];
    assert content == SIGNATURE_NAME + [COLON] + tail;
    HeaderCanon.SplitAtColon(SIGNATURE_NAME, tail);
    HeaderCanon.TrimRightDone(SIGNATURE_NAME);
    FirstOfName();
  }

  lemma FirstOfName()
    ensures !IsWsp(SIGNATURE_NAME[0])
  {
    assert SIGNATURE_NAME[0] as int == "DKIM-Signature"[0] as int;
  }

  /** A folded signature field is one field to the parser. */
  lemma FieldShaped(t: Bytes)
    requires Foldy(t)
    ensures Shaped(SIGNATURE_NAME, SIGNATURE_NAME + [COLON] + t + CRLF)
    ensures EndsInLf(SIGNATURE_NAME + [COLON] + t + CRLF)
  {
    hide Classify, ContinuationLines;
    NameHasNoColon();
    var front := SIGNATURE_NAME + [COLON];
    var raw := front + t + CRLF;
    var i := IndexOf(t, LF);
    IndexFacts(t, LF);
    if i < 0 {
      assert raw[..|front| + |t| + 1] == front + t + [CR];
      IndexIs(raw, LF, |front| + |t| + 1);
      assert raw[..LineLength(raw)] == raw && raw[LineLength(raw)..] == [];
      StartOfName(raw, t);
      NoLines();
    } else {
      assert raw[..|front| + i] == front + t[..i];
      IndexIs(raw, LF, |front| + i);
      var rest := t[i + 1..];
      assert raw[..LineLength(raw)] == front + t[..i] + [LF];
      assert raw[LineLength(raw)..] == rest + CRLF;
      StartOfName(front + t[..i] + [LF], t[..i]);
      FoldyTail(t, i + 1);
      FoldyLines(rest);
    }
  }

  lemma NoLines()
    ensures ContinuationLines([])
  {
  }

  /** The signed field, as the parser sees it. */
  lemma SignedFieldShaped(o: Options, length: Bytes, bh: Bytes, sig: Bytes)
    requires CleanOptions(o) && CleanValue(length) && CleanValue(bh) && CleanValue(sig)
    ensures var field := FieldFront(o, length, bh) + Folded(sig) + CRLF;
            Shaped(SIGNATURE_NAME, field) && EndsInLf(field)
  {
    hide TagsText, Shaped, CleanOptions, SignatureTags, Folded;
    TagsGood(o, length, bh);
    FoldyTags(SignatureTags(o, length, bh));
    FoldyFolded(sig);
    var text, tail := TagsText(SignatureTags(o, length, bh)), LastLead(o) + B_TAG + [EQ];
    assert Foldy(tail);
    FoldyConcat(text, tail);
    FoldyConcat(text + tail, Folded(sig));
    FieldShaped(text + tail + Folded(sig));
    assert FieldFront(o, length, bh) + Folded(sig) + CRLF
        == SIGNATURE_NAME + [COLON] + (text + tail + Folded(sig)) + CRLF;
  }

  /** Fields put in front never take anything from the header input, and add to it when one
      of them is selected. */
  lemma {:induction false} InputGrows(pre: seq<Header>, hs: seq<Header>, names: seq<Bytes>, n: nat, relaxed: bool)
    requires n <= |names| && forall p :: p in pre ==> COLON in p.raw
    ensures var a, b := CanonAll(Selected(hs, names, n), relaxed), CanonAll(Selected(pre + hs, names, n), relaxed);
            Solid(a) <= Solid(b)
            && (|Selected(hs, names, n)| < |Selected(pre + hs, names, n)| ==> Solid(a) < Solid(b))
    ensures |Selected(hs, names, n)| <= |Selected(pre + hs, names, n)|
  {
    hide CanonHeader, FromBottom, CountFields, CountNames, CanonAll, Solid;
    if n > 0 {
      var j := n - 1;
      InputGrows(pre, hs, names, j, relaxed);
      ChoiceConcat(pre, hs, names, j);
      var i, i' := Choice(hs, names, j), Choice(pre + hs, names, j);
      var a, b := Selected(hs, names, j), Selected(pre + hs, names, j);
      if i >= 0 {
        OneMore(a, hs[i].raw, relaxed);
        OneMore(b, (pre + hs)[i'].raw, relaxed);
      } else if i' >= 0 {
        OneMore(b, (pre + hs)[i'].raw, relaxed);
        NewChoice(pre, hs, names, j);
        CanonHeaderKeepsSolid((pre + hs)[i'].raw, relaxed);
        assert a + [] == a;
      } else {
        assert a + [] == a && b + [] == b;
      }
    }
  }

  lemma OneMore(raws: seq<Bytes>, raw: Bytes, relaxed: bool)
    ensures Solid(CanonAll(raws + [raw], relaxed)) == Solid(CanonAll(raws, relaxed)) + Solid(CanonHeader(raw, relaxed))
  {
    hide CanonHeader, Solid;
    assert (raws + [raw])[..|raws|] == raws;
    SolidConcat(CanonAll(raws, relaxed), CanonHeader(raw, relaxed));
  }

  /** A choice that hs alone does not offer is one of the fields in front. */
  lemma NewChoice(pre: seq<Header>, hs: seq<Header>, names: seq<Bytes>, j: nat)
    requires j < |names| && Choice(hs, names, j) < 0 && Choice(pre + hs, names, j) >= 0
    ensures Choice(pre + hs, names, j) < |pre| && (pre + hs)[Choice(pre + hs, names, j)] in pre
  {
    var k := CountNames(names[..j], names[j]);
    FromBottomFacts(hs, names[j], k);
    FromBottomFacts(pre + hs, names[j], k);
    var i := Choice(pre + hs, names, j);
    if i >= |pre| {
      assert (pre + hs)[i + 1..] == hs[i - |pre| + 1..];
      CountFieldsAt(hs, i - |pre|, names[j]);
    }
  }

  // ---------------------------------------------------------------- how the field may end

  lemma NormalizedEol(eol: Bytes)
    requires eol == [] || eol == [LF] || eol == CRLF
    ensures Normalized(false, eol) == if eol == [] then [] else CRLF
  {
    assert [LF][1..] == [] && CRLF[1..] == [LF];
    assert Normalized(true, [LF]) == [LF];
  }

  lemma NormalizedEnd(front: Bytes, eol: Bytes)
    requires front != [] && !IsEol(front[|front| - 1]) && (eol == [] || eol == [LF] || eol == CRLF)
    ensures NormalizeEol(front + eol) == NormalizeEol(front) + (if eol == [] then [] else CRLF)
    ensures EndsWith(NormalizeEol(front + eol), CRLF) <==> eol != []
  {
    NormalizedConcat(false, front, eol);
    NormalizedEol(eol);
    NormalizedLast(false, front);
    hide Normalized, EndsWith;
    var n := NormalizeEol(front);
    EndsInCrlf(n);
    EndsInCrlf(n + CRLF);
    assert n + [] == n;
  }

  lemma {:induction false} NormalizedLast(afterCr: bool, s: Bytes)
    requires s != [] && !IsEol(s[|s| - 1])
    ensures var n := Normalized(afterCr, s); n != [] && n[|n| - 1] == s[|s| - 1]
    decreases |s|
  {
    if |s| > 1 {
      NormalizedLast(s[0] == CR, s[1..]);
    }
  }

  /** How a field is terminated does not matter to either form. */
  lemma CanonIgnoresEnd(head: Bytes, value: Bytes, eol: Bytes, relaxed: bool)
    requires COLON !in head && value != [] && !IsEol(value[|value| - 1])
    requires eol == [] || eol == [LF] || eol == CRLF
    ensures CanonHeader(head + [COLON] + value + eol, relaxed) == CanonHeader(head + [COLON] + value + CRLF, relaxed)
  {
    var front := head + [COLON] + value;
    if relaxed {
      UnfoldedEnd(value, eol);
      UnfoldedEnd(value, CRLF);
      hide CanonHeader, Unfolded;
      assert front + eol == head + [COLON] + (value + eol);
      assert front + CRLF == head + [COLON] + (value + CRLF);
      RelaxedIgnoresFolding(head, value + eol, value + CRLF);
    } else {
      NormalizedEnd(front, eol);
      NormalizedEnd(front, CRLF);
      hide Normalized, EndsWith;
    }
  }

  lemma UnfoldedEnd(value: Bytes, eol: Bytes)
    requires eol == [] || eol == [LF] || eol == CRLF
    ensures Unfolded(value + eol) == Unfolded(value)
  {
    UnfoldedConcat(value, eol);
    UnfoldedCrlf();
    assert [LF][1..] == [];
    assert Unfolded(eol) == [];
    hide Unfolded;
    assert Unfolded(value) + [] == Unfolded(value);
  }

  /** The field up to "b=", around its colon. */
  lemma FrontParts(o: Options, length: Bytes, bh: Bytes) returns (value: Bytes)
    ensures FieldFront(o, length, bh) == SIGNATURE_NAME + [COLON] + value
    ensures value != [] && value[|value| - 1] == EQ && COLON !in SIGNATURE_NAME
  {
    hide TagsText, SignatureTags;
    NameHasNoColon();
    value := TagsText(SignatureTags(o, length, bh)) + (LastLead(o) + B_TAG + [EQ]);
  }

  /** What the verifier hashes of the signature field. It is what the signer hashed, up to
      the line break at the end, if and only if no semicolon has come after the signature. */
  lemma StrippedField(o: Options, length: Bytes, bh: Bytes, v: Bytes, relaxed: bool)
    requires CleanOptions(o) && CleanValue(length) && CleanValue(bh)
    ensures var front := FieldFront(o, length, bh);
            var stripped, unsigned := StripSignature(front + v), front + CRLF;
            && COLON in unsigned && COLON in stripped
            && (CanonHeader(stripped, relaxed) == CanonHeader(unsigned, relaxed) <==> SEMI !in v)
            && (SEMI in v ==> Solid(stripped) > Solid(unsigned))
  {
    hide FieldFront, StripSignature, CleanOptions, CleanValue, CanonHeader, StripTags, TrailingEol, Solid;
    var front := FieldFront(o, length, bh);
    var value := FrontParts(o, length, bh);
    assert front[|SIGNATURE_NAME|] == COLON;
    if SEMI !in v {
      StripRecoversFront(o, length, bh, v);
      TrailingKinds(v);
      CanonIgnoresEnd(SIGNATURE_NAME, value, TrailingEol(v), relaxed);
    } else {
      MoreTags(o, length, bh, v);
      var stripped := StripSignature(front + v);
      assert stripped[|SIGNATURE_NAME|] == stripped[..|front|][|SIGNATURE_NAME|] == COLON;
      CanonHeaderKeepsSolid(stripped, relaxed);
      CanonHeaderKeepsSolid(front + CRLF, relaxed);
    }
  }

  lemma TrailingKinds(v: Bytes)
    ensures TrailingEol(v) == [] || TrailingEol(v) == [LF] || TrailingEol(v) == CRLF
  {
  }

  lemma MoreTags(o: Options, length: Bytes, bh: Bytes, v: Bytes)
    requires CleanOptions(o) && CleanValue(length) && CleanValue(bh) && SEMI in v
    ensures var front := FieldFront(o, length, bh);
            var stripped := StripSignature(front + v);
            |stripped| >= |front| && stripped[..|front|] == front && Solid(stripped) > Solid(front + CRLF)
  {
    hide FieldFront, StripSignature, CleanOptions, CleanValue, StripTags, Solid, IndexOf;
    var front := FieldFront(o, length, bh);
    IndexFacts(v, SEMI);
    var i := IndexOf(v, SEMI);
    var w := [SEMI] + StripTags(v[i + 1..]);
    assert v == v[..i] + [SEMI] + v[i + 1..];
    StripLastEnded(LastLead(o), v[..i], v[i + 1..]);
    StripFront(o, length, bh, v, w);
    SolidConcat(front, w);
    SolidConcat([SEMI], StripTags(v[i + 1..]));
    SolidOne(SEMI);
    SolidCrlf(front);
  }

  // ---------------------------------------------------------------- the agreement

  /** The signed message: its field is what was hashed of it, the folded signature and a
      line break. */
  lemma SignedParts(message: Bytes, o: Options, c: Crypto) returns (length: Bytes, bh: Bytes, sig: Bytes)
    requires Sign(message, o, c).Signed? && CleanCrypto(c)
    ensures ParseMessage(message, HeaderSection.DEFAULT_LIMITS).Message?
    ensures CleanValue(length) && CleanValue(bh) && CleanValue(sig)
    ensures var s := Sign(message, o, c);
            var m0 := ParseMessage(message, HeaderSection.DEFAULT_LIMITS);
            && s.unsigned == FieldFront(o, length, bh) + CRLF
            && s.field == FieldFront(o, length, bh) + Folded(sig) + CRLF
            && s.message == s.field + message
            && s.length == (if o.lengthSet then o.length else -1)
            && length == (if o.lengthSet then DecimalText(WrittenLimit(o, |CanonBody(m0.body, o.bodyRelaxed)|)) else [])
            && bh == c.base64(c.hash(BodyInput(m0.body, o.bodyRelaxed, s.length)))
            && sig == c.base64(c.sign(c.hash(HeaderInput(m0.headers, o.names, s.unsigned, o.headerRelaxed))))
  {
    hide ParseMessage, FieldFront, Folded, HeaderInput, BodyInput, CanonBody, DecimalText;
    var s := Sign(message, o, c);
    var m0 := ParseMessage(message, HeaderSection.DEFAULT_LIMITS);
    bh := c.base64(c.hash(BodyInput(m0.body, o.bodyRelaxed, s.length)));
    if o.lengthSet {
      DecimalIsClean(WrittenLimit(o, |CanonBody(m0.body, o.bodyRelaxed)|));
    }
    length := if o.lengthSet then DecimalText(WrittenLimit(o, |CanonBody(m0.body, o.bodyRelaxed)|)) else [];
    sig := c.base64(c.sign(c.hash(HeaderInput(m0.headers, o.names, s.unsigned, o.headerRelaxed))));
  }

  lemma DecimalIsClean(n: nat)
    ensures CleanValue(DecimalText(n)) && DecimalText(n) != []
  {
  }

  /** The limit the signer uses and the one it writes down give the same bytes. */
  lemma SameBodyInput(body: Bytes, o: Options)
    ensures BodyInput(body, o.bodyRelaxed, WrittenLimit(o, |CanonBody(body, o.bodyRelaxed)|))
         == BodyInput(body, o.bodyRelaxed, if o.lengthSet then o.length else -1)
  {
    hide CanonBody, NormalizeEol;
    NormalizingKeepsCanonBody(body, o.bodyRelaxed);
  }

  /** With the names, forms and limit of the signer, both hash the same bytes. For every
      message, parsing the signed message gives the signature field, together with the
      continuation lines the message begins with, on top of the fields that were signed, and
      the same body; under the limit written in l= the body bytes agree. The header bytes
      agree, under each form, exactly when those lines have no semicolon and h= does not list
      DKIM-Signature more often than the message has it. A message that does not begin with
      white space has no such lines, and stripping its signature field recovers exactly what
      was hashed of it. */
  lemma HashInputsAgree(message: Bytes, o: Options, c: Crypto)
    requires CleanOptions(o) && CleanCrypto(c)
    requires Sign(message, o, c).Signed?
    requires ParseMessage(Sign(message, o, c).message, HeaderSection.DEFAULT_LIMITS).Message?
    ensures ParseMessage(message, HeaderSection.DEFAULT_LIMITS).Message?
    ensures var s := Sign(message, o, c);
            var m0 := ParseMessage(message, HeaderSection.DEFAULT_LIMITS);
            var m := ParseMessage(s.message, HeaderSection.DEFAULT_LIMITS);
            var raw := s.field + Lead(message);
            && m.headers == [Header(SIGNATURE_NAME, FieldValue(raw), raw)] + m0.headers
            && m.body == m0.body
            && (!StartsWithWsp(message) ==> StripSignature(raw) == s.unsigned)
            && BodyInput(m.body, o.bodyRelaxed, WrittenLimit(o, |CanonBody(m.body, o.bodyRelaxed)|))
                 == BodyInput(m0.body, o.bodyRelaxed, s.length)
            && (HeaderInput(m.headers, o.names, StripSignature(raw), o.headerRelaxed)
                  == HeaderInput(m0.headers, o.names, s.unsigned, o.headerRelaxed)
                <==> SEMI !in Lead(message)
                     && CountNames(o.names, SIGNATURE_NAME) <= CountFields(m0.headers, SIGNATURE_NAME))
  {
    hide ParseMessage, StripSignature, Shaped, CanonHeader, Selected, FieldFront, Folded, CleanOptions, CleanValue,
         CountNames, CountFields, Lead, HeaderInput, BodyInput, CanonBody, Sign, Solid;
    var s := Sign(message, o, c);
    var m0 := ParseMessage(message, HeaderSection.DEFAULT_LIMITS);
    var length, bh, sig := SignedParts(message, o, c);
    SignedFieldShaped(o, length, bh, sig);
    PrependedField(SIGNATURE_NAME, s.field, message, HeaderSection.DEFAULT_LIMITS);
    LeadSplits(message);
    SameBodyInput(m0.body, o);
    var lead := Lead(message);
    var v := Folded(sig) + CRLF + lead;
    assert s.field + lead == FieldFront(o, length, bh) + v;
    SemicolonAfter(sig, lead);
    StrippedField(o, length, bh, v, o.headerRelaxed);
    UnledField(o, length, bh, sig, lead);
    var h := Header(SIGNATURE_NAME, FieldValue(s.field + lead), s.field + lead);
    FieldContainsColon(s.field);
    SameInput(h, m0.headers, o.names, s.unsigned, StripSignature(s.field + lead), o.headerRelaxed);
  }

  lemma SemicolonAfter(sig: Bytes, lead: Bytes)
    requires CleanValue(sig)
    ensures SEMI in Folded(sig) + CRLF + lead <==> SEMI in lead
  {
    FoldyFolded(sig);
  }

  lemma UnledField(o: Options, length: Bytes, bh: Bytes, sig: Bytes, lead: Bytes)
    requires CleanOptions(o) && CleanValue(length) && CleanValue(bh) && CleanValue(sig)
    ensures var front := FieldFront(o, length, bh);
            lead == [] ==> StripSignature(front + (Folded(sig) + CRLF + lead)) == front + CRLF
  {
    hide FieldFront, StripSignature, CleanOptions, Folded;
    FoldyFolded(sig);
    StripRecoversUnsigned(o, length, bh, Folded(sig));
    assert FieldFront(o, length, bh) + Folded(sig) + CRLF == FieldFront(o, length, bh) + (Folded(sig) + CRLF + []);
  }

  lemma FieldContainsColon(field: Bytes)
    requires Shaped(SIGNATURE_NAME, field)
    ensures COLON in field
  {
    var line := field[..LineLength(field)];
    var content := TrimEol(line);
    IndexFacts(content, COLON);
    NameHasNoColon();
  }

  lemma SolidInput(raws: seq<Bytes>, field: Bytes, relaxed: bool)
    requires COLON in field
    ensures Solid(CanonAll(raws, relaxed) + TrimCrlf(CanonHeader(field, relaxed)))
         == Solid(CanonAll(raws, relaxed)) + Solid(field)
  {
    hide CanonAll, CanonHeader, Solid;
    var form := CanonHeader(field, relaxed);
    SolidConcat(CanonAll(raws, relaxed), TrimCrlf(form));
    CanonHeaderKeepsSolid(field, relaxed);
    if EndsWith(form, CRLF) {
      assert form == TrimCrlf(form) + CRLF;
      SolidCrlf(TrimCrlf(form));
    }
  }

  lemma SameInput(h: Header, hs: seq<Header>, names: seq<Bytes>, unsigned: Bytes, stripped: Bytes, relaxed: bool)
    requires COLON in h.raw && COLON in unsigned && COLON in stripped
    requires CanonHeader(stripped, relaxed) == CanonHeader(unsigned, relaxed) || Solid(stripped) > Solid(unsigned)
    ensures HeaderInput([h] + hs, names, stripped, relaxed) == HeaderInput(hs, names, unsigned, relaxed)
       <==> CanonHeader(stripped, relaxed) == CanonHeader(unsigned, relaxed)
            && CountNames(names, h.name) <= CountFields(hs, h.name)
  {
    hide CanonHeader, CanonAll, CountNames, CountFields, Selected, Solid, TrimCrlf;
    PrependingKeepsSelection([h], hs, names);
    InputGrows([h], hs, names, |names|, relaxed);
    CanonHeaderKeepsSolid(stripped, relaxed);
    CanonHeaderKeepsSolid(unsigned, relaxed);
    SolidInput(Selected([h] + hs, names, |names|), stripped, relaxed);
    SolidInput(Selected(hs, names, |names|), unsigned, relaxed);
    if CountNames(names, h.name) > CountFields(hs, h.name) {
      assert h in [h];
      assert Oversigned([h], hs, names);
      MoreWhenOversigned(h, hs, names);
    } else {
      assert !Oversigned([h], hs, names);
    }
  }

  lemma MoreWhenOversigned(h: Header, hs: seq<Header>, names: seq<Bytes>)
    requires CountNames(names, h.name) > CountFields(hs, h.name)
    ensures |Selected(hs, names, |names|)| < |Selected([h] + hs, names, |names|)|
  {
    var j := OccurrenceAt(names, h.name, CountFields(hs, h.name));
    CountFold(hs, names[..j], names[j], h.name);
    ChoiceConcat([h], hs, names, j);
    CountFieldsConcat([h], hs, names[j]);
    assert [h][1..] == [];
    assert CountFields([h], names[j]) == 1;
    MoreSelected([h], hs, names, j, |names|);
  }

  // ---------------------------------------------------------------- reading the signature back

  lemma {:induction false} NoFwsConcat(a: Bytes, b: Bytes)
    ensures NoFws(a + b) == NoFws(a) + NoFws(b)
  {
    if a == [] {
      assert a + b == b;
    } else {
      assert (a + b)[1..] == a[1..] + b;
      NoFwsConcat(a[1..], b);
    }
  }

  lemma FoldIsFws()
    ensures NoFws(FOLD) == [] && NoFws(CRLF) == []
  {
    assert [SP][1..] == [] && [TAB, SP][1..] == [SP] && [LF, TAB, SP][1..] == [TAB, SP] && FOLD[1..] == [LF, TAB, SP];
    assert NoFws([TAB, SP]) == NoFws([SP]) == [];
    assert NoFws(FOLD) == NoFws([LF, TAB, SP]) == [];
    assert CRLF[1..] == [LF] && [LF][1..] == [];
    assert NoFws([LF]) == [];
  }

  lemma {:induction false} NoFwsFolded(sig: Bytes)
    ensures NoFws(Folded(sig)) == NoFws(sig)
  {
    if |sig| > LINE_WIDTH {
      var line, rest := sig[..LINE_WIDTH], sig[LINE_WIDTH..];
      NoFwsFolded(rest);
      FoldIsFws();
      NoFwsConcat(line + FOLD, Folded(rest));
      NoFwsConcat(line, FOLD);
      NoFwsConcat(line, rest);
      assert sig == line + rest;
      assert NoFws(line) + [] == NoFws(line);
    }
  }

  /** The value of a tag ends at its semicolon. */
  function UpToSemicolon(s: Bytes): Bytes {
    var i := IndexOf(s, SEMI);
    if i < 0 then s else s[..i]
  }

  lemma UpToConcat(a: Bytes, b: Bytes)
    requires SEMI !in a
    ensures UpToSemicolon(a + b) == a + UpToSemicolon(b)
  {
    IndexFacts(b, SEMI);
    var i := IndexOf(b, SEMI);
    if i < 0 {
      IndexNone(a + b, SEMI);
    } else {
      assert (a + b)[..|a| + i] == a + b[..i];
      IndexIs(a + b, SEMI, |a| + i);
    }
  }

  lemma {:induction false} SemicolonIsSolid(s: Bytes)
    requires SEMI in s
    ensures NoFws(s) != []
  {
    if s[0] != SEMI {
      SemicolonIsSolid(s[1..]);
    }
  }

  /** The b= tag takes in the continuation lines up to a semicolon. The signature is read back
      from it exactly when they are white space up to there. Together with header bytes that
      agree, these lines have to be white space throughout. */
  lemma SignatureReadBack(sig: Bytes, lead: Bytes)
    requires SEMI !in sig && LF !in sig
    ensures NoFws(UpToSemicolon(Folded(sig) + CRLF + lead)) == NoFws(sig) <==> NoFws(UpToSemicolon(lead)) == []
    ensures SEMI !in lead && NoFws(UpToSemicolon(lead)) == [] <==> NoFws(lead) == []
  {
    FoldyFolded(sig);
    UpToConcat(Folded(sig) + CRLF, lead);
    NoFwsFolded(sig);
    FoldIsFws();
    var rest := UpToSemicolon(lead);
    NoFwsConcat(Folded(sig) + CRLF, rest);
    NoFwsConcat(Folded(sig), CRLF);
    if SEMI in lead {
      SemicolonIsSolid(lead);
    } else {
      IndexNone(lead, SEMI);
    }
    hide NoFws, UpToSemicolon, Folded;
    assert NoFws(sig) + [] == NoFws(sig);
    assert |NoFws(sig) + NoFws(rest)| == |NoFws(sig)| + |NoFws(rest)|;
  }
}
