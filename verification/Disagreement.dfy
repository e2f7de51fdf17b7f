/** Options with which a verifier does not hash what the signer hashed, although the signed
    field is accepted. */
module Disagreement {
  import opened Bytes
  import opened BodyCanon
  import opened HeaderCanon
  import opened HeaderSection
  import opened HeaderLaws
  import opened SelectHeaders
  import opened Signing
  import opened SignatureReading
  import opened SignVerify
  import opened ReadBack
  import opened Agreement
  import opened Wrappers

  // ---------------------------------------------------------------- an extra l=

  lemma ExtraIsAcceptable(o: Options, n: nat)
    requires !o.lengthSet && o.extra == [Tag([], B("l"), DecimalText(n))] && n <= MAX_INT64
    ensures FreshExtra(o) && ReadableLength(o)
  {
    NameIsValid("l");
    RankOfL();
    LengthRead(n);
    PlainIsRead(DecimalText(n));
  }

  /** A verifier that checks no further tags. */
  predicate NoMoreChecks(tags: seq<Part>) {
    true
  }

  lemma ExtraIsRead(o: Options, bh: Bytes, v: Bytes, n: nat)
    requires !o.lengthSet && o.extra == [Tag([], B("l"), DecimalText(n))]
    requires Sound(FieldTags(o, [], bh, v, [])) && ReadTags(FieldTags(o, [], bh, v, []), NoMoreChecks).Some?
    ensures ReadTags(FieldTags(o, [], bh, v, []), NoMoreChecks).value.limit == n
  {
    LookupExtra(o, bh, v, 0);
    LengthRead(n);
    WrittenTags(o, [], bh, v, []);
    hide B, FieldTags, CanonName, JoinNames, TrimFws, Unfolded, ReadForms, ReadNames, ReadLength, Lookup, Sound,
         DecimalText, Plain, NoFws, UpToSemicolon, ReadTags;
    PlainIsRead(DecimalText(n));
    ReadTagsIs(FieldTags(o, [], bh, v, []), NoMoreChecks,
               TrimFws(Unfolded(CanonName(o.headerRelaxed) + B("/") + CanonName(o.bodyRelaxed))),
               TrimFws(Unfolded(JoinNames(o.names))), TrimFws(Unfolded(bh)), TrimFws(Unfolded(UpToSemicolon(v))));
  }

  lemma ExtraIsFound(message: Bytes, o: Options, c: Crypto, n: nat)
    requires CleanOptions(o) && CleanCrypto(c) && Sign(message, o, c).Signed? && SEMI !in Lead(message)
    requires !o.lengthSet && o.extra == [Tag([], B("l"), DecimalText(n))] && n <= MAX_INT64 && ReadableNames(o)
    ensures var rd := ReadSignature(FieldValue(FoundField(message, o, c)), NoMoreChecks); rd.Some? && rd.value.limit == n
  {
    ExtraIsAcceptable(o, n);
    SignedFieldIsAccepted(message, o, c, NoMoreChecks);
    hide Sign, ParseMessage, Lead, Folded, CleanOptions, FieldValue, DecimalText, CanonBody, BodyInput, HeaderInput, Sound,
         TagList, FieldTags, ReadTags, FoundField, ReadableNames, FreshExtra, ReadableLength;
    var length, bh, sig, more := FoundTags(message, o, c);
    ExtraIsRead(o, bh, Folded(sig) + CRLF + Lead(message), n);
  }

  /** An extra l=n on a signature that covers the whole body is accepted and obeyed: the bodies
      disagree whenever n is less than the length of the canonical body. */
  lemma ExtraLengthIsObeyed(message: Bytes, o: Options, c: Crypto, n: nat)
    requires Delivered(message, o, c) && SEMI !in Lead(message)
    requires !o.lengthSet && o.extra == [Tag([], B("l"), DecimalText(n))] && n <= MAX_INT64 && ReadableNames(o)
    ensures var rd := ReadFrom(message, o, c, NoMoreChecks);
            && rd.Some? && rd.value.limit == n
            && (BodiesAgree(rd.value, message, o, c) <==> n >= |CanonBody(Original(message).body, o.bodyRelaxed)|)
  {
    DeliveredIf(message, o, c);
    hide ParseMessage, CleanOptions, Lead, CanonBody, ReadSignature, FieldValue, Sign, ReadableNames, ValuesReadBack,
         BodiesAgree, HeadersAgree, PlainNames, CountNames, CountFields;
    ExtraIsFound(message, o, c, n);
    SignerAndVerifierAgree(message, o, c, NoMoreChecks);
  }

  // ---------------------------------------------------------------- a name with a colon

  /** x:y, written as one name, is read as two. */
  lemma ColonNameIsSplit(o: Options, x: Bytes, y: Bytes)
    requires o.names == [x + [COLON] + y] && PlainName(x) && PlainName(y) && IsFrom(x)
    ensures ReadableNames(o) && ReadNames(TrimFws(Unfolded(JoinNames(o.names)))) == Some([x, y])
  {
    hide TrimFws, Unfolded, Cut, IsFrom;
    PlainIsRead(x + [COLON] + y);
    CutPrefix(x, COLON, y);
    CutPlain(y, COLON);
    TrimAllPlain([x, y]);
    assert [x] + [y] == [x, y];
    assert [x, y][0] == x;
  }

  lemma NamesOfField(message: Bytes, o: Options, c: Crypto, others: seq<Part> -> bool)
    requires CleanOptions(o) && CleanCrypto(c) && Sign(message, o, c).Signed?
    requires ReadSignature(FieldValue(FoundField(message, o, c)), others).Some?
    ensures Some(ReadSignature(FieldValue(FoundField(message, o, c)), others).value.names)
         == ReadNames(TrimFws(Unfolded(JoinNames(o.names))))
  {
    hide Sign, ParseMessage, Lead, FieldFront, Folded, CleanOptions, FieldValue, DecimalText, WrittenLimit, CanonBody, BodyInput,
         HeaderInput, Sound, TagList, FieldTags, ReadTags, FoundField, JoinNames, CanonName, TrimFws, Unfolded, UpToSemicolon,
         B, ReadForms, ReadNames, ReadLength, Lookup;
    var length, bh, sig, more := FoundTags(message, o, c);
    var v := Folded(sig) + CRLF + Lead(message);
    WrittenTags(o, length, bh, v, more);
    ReadTagsIs(FieldTags(o, length, bh, v, more), others,
               TrimFws(Unfolded(CanonName(o.headerRelaxed) + B("/") + CanonName(o.bodyRelaxed))),
               TrimFws(Unfolded(JoinNames(o.names))), TrimFws(Unfolded(bh)), TrimFws(Unfolded(UpToSemicolon(v))));
  }

  lemma ShapedHasColon(name: Bytes, raw: Bytes)
    requires Shaped(name, raw)
    ensures COLON in raw && COLON !in name
  {
    hide ContinuationLines, ValidFieldName;
    var content := TrimEol(raw[..LineLength(raw)]);
    IndexFacts(content, COLON);
    TrimRightFacts(content[..IndexOf(content, COLON)]);
    assert FieldName(content) == name;
  }

  lemma HeadersHaveColons(message: Bytes)
    requires ParseMessage(message, HeaderSection.DEFAULT_LIMITS).Message?
    ensures var hs := ParseMessage(message, HeaderSection.DEFAULT_LIMITS).headers;
            forall i :: 0 <= i < |hs| ==> COLON in hs[i].raw && COLON !in hs[i].name
  {
    hide Shaped, ParseMessage, Raws, ContinuationLines;
    var hs := ParseMessage(message, HeaderSection.DEFAULT_LIMITS).headers;
    var _, _ := ParsingIsLossless(message, HeaderSection.DEFAULT_LIMITS);
    forall i | 0 <= i < |hs|
      ensures COLON in hs[i].raw && COLON !in hs[i].name
    {
      ShapedHasColon(hs[i].name, hs[i].raw);
    }
  }

  lemma ColonTellsApart(a: Bytes, b: Bytes)
    requires COLON !in a && COLON in b
    ensures !EqualFold(a, b)
  {
    var i :| 0 <= i < |b| && b[i] == COLON;
    assert Lower(b)[i] == COLON;
    if |a| == |b| {
      assert a[i] != COLON && Lower(a)[i] != COLON;
    }
  }

  lemma {:induction false} NoSuchField(hs: seq<Header>, name: Bytes)
    requires COLON in name && forall i :: 0 <= i < |hs| ==> COLON !in hs[i].name
    ensures CountFields(hs, name) == 0
  {
    if hs != [] {
      NoSuchField(hs[1..], name);
      ColonTellsApart(hs[0].name, name);
    }
  }

  /** Fields that are selected make the header bytes longer. */
  lemma SelectedIsHashed(hs: seq<Header>, x: Bytes, y: Bytes, relaxed: bool)
    requires (forall i :: 0 <= i < |hs| ==> COLON in hs[i].raw) && CountFields(hs, x) > 0
    ensures Solid(CanonAll(Selected(hs, [x, y], 2), relaxed)) > 0
  {
    hide CanonAll, CanonHeader, Selected, Solid, CountNames, CountFields, EqualFold;
    var names := [x, y];
    assert hs + [] == hs && names[..0] == [];
    NoFields(x);
    FromBottomFacts(hs, x, 0);
    FromBottomFacts([], x, 0);
    InputGrows(hs, [], names, 2, relaxed);
    MoreSelected(hs, [], names, 0, 2);
  }

  lemma NoFields(x: Bytes)
    ensures CountNames([], x) == 0 && CountFields([], x) == 0
  {
  }

  lemma NothingSelected(hs: seq<Header>, name: Bytes)
    requires CountFields(hs, name) == 0
    ensures Selected(hs, [name], 1) == []
  {
    FromBottomFacts(hs, name, CountNames([name][..0], name));
    assert [name][..0] == [];
    assert Selected(hs, [name], 0) == [];
  }

  /** Stripping the field that is found leaves at least what was hashed of it. */
  lemma StrippedSolid(message: Bytes, o: Options, c: Crypto)
    requires CleanOptions(o) && CleanCrypto(c) && Sign(message, o, c).Signed?
    ensures var stripped, unsigned := StripSignature(FoundField(message, o, c)), Sign(message, o, c).unsigned;
            COLON in stripped && COLON in unsigned && Solid(stripped) >= Solid(unsigned)
  {
    hide Sign, ParseMessage, StripSignature, CanonHeader, FieldFront, Folded, CleanOptions, CleanValue, Lead, HeaderInput,
         BodyInput, CanonBody, Solid;
    var length, bh, sig := SignedParts(message, o, c);
    var v := Folded(sig) + CRLF + Lead(message);
    assert FoundField(message, o, c) == FieldFront(o, length, bh) + v;
    StrippedField(o, length, bh, v, true);
    CanonHeaderKeepsSolid(StripSignature(FoundField(message, o, c)), true);
    CanonHeaderKeepsSolid(FieldFront(o, length, bh) + CRLF, true);
  }

  /** Names with a colon in them are read as two, and the header bytes then disagree for every
      message that has a field of the first name: the signer finds no field for x:y. */
  lemma ColonNameIsNotSigned(message: Bytes, o: Options, c: Crypto, x: Bytes, y: Bytes, others: seq<Part> -> bool)
    requires Delivered(message, o, c) && ReadFrom(message, o, c, others).Some?
    requires o.names == [x + [COLON] + y] && PlainName(x) && PlainName(y) && IsFrom(x)
    ensures var rd := ReadFrom(message, o, c, others).value;
            && rd.names == [x, y]
            && (CountFields(Original(message).headers, x) > 0 ==> !HeadersAgree(rd.names, rd.headerRelaxed, message, o, c))
  {
    DeliveredIf(message, o, c);
    ColonNameIsSplit(o, x, y);
    NamesOfField(message, o, c, others);
    SignedFieldReadBack(message, o, c, others);
    HashInputsAgree(message, o, c);
    hide Sign, ParseMessage, StripSignature, CleanOptions, CountNames, CountFields, CanonAll, CanonHeader, Lead,
         BodyInput, CanonBody, ReadSignature, FieldValue, Solid, Selected, TrimFws, Unfolded, JoinNames, ReadNames,
         PlainName, IsFrom, EqualFold, TrimCrlf, NoFws, UpToSemicolon;
    var hs, m := Original(message).headers, Received(message, o, c);
    if CountFields(hs, x) > 0 {
      HeadersHaveColons(Sign(message, o, c).message);
      HeadersHaveColons(message);
      SameCount(m.headers[0], hs, x);
      SelectedIsHashed(m.headers, x, y, o.headerRelaxed);
      NoSuchField(hs, o.names[0]);
      NothingSelected(hs, o.names[0]);
      StrippedSolid(message, o, c);
      SolidInput(Selected(m.headers, [x, y], 2), StripSignature(m.headers[0].raw), o.headerRelaxed);
      SolidInput([], Sign(message, o, c).unsigned, o.headerRelaxed);
    }
  }

  lemma SameCount(h: Header, hs: seq<Header>, name: Bytes)
    ensures CountFields([h] + hs, name) >= CountFields(hs, name)
  {
    CountFieldsConcat([h], hs, name);
  }

  // ---------------------------------------------------------------- messages that begin with white space

  /** A line that begins with a space and has a semicolon. */
  const SEMICOLON_LINE: Bytes := [SP, SEMI, CR, LF]

  lemma {:induction false} LeadKeepsLine(line: Bytes, rest: Bytes)
    requires |line| >= 2 && IsWsp(line[0]) && line[|line| - 1] == LF && LF !in line[..|line| - 1]
    ensures StartsWithWsp(line + rest) && line <= Lead(line + rest)
  {
    var s := line + rest;
    assert s[..|line| - 1] == line[..|line| - 1];
    IndexIs(s, LF, |line| - 1);
    assert s[..LineLength(s)] == line;
  }

  /** A message that begins with such a line is not hashed alike, whatever follows the line
      and however it is signed: neither by the signer's names nor, if they are plain, by what
      the verifier reads. */
  lemma SemicolonLineIsNotSigned(rest: Bytes, o: Options, c: Crypto, others: seq<Part> -> bool)
    requires Delivered(SEMICOLON_LINE + rest, o, c)
    ensures !HeadersAgree(o.names, o.headerRelaxed, SEMICOLON_LINE + rest, o, c)
    ensures var rd := ReadFrom(SEMICOLON_LINE + rest, o, c, others);
            rd.Some? && PlainNames(o.names) ==>
              !HeadersAgree(rd.value.names, rd.value.headerRelaxed, SEMICOLON_LINE + rest, o, c)
  {
    hide ParseMessage, StripSignature, HeaderInput, BodyInput, Sign, Lead, CleanOptions, ReadSignature, PlainNames, NoFws,
         UpToSemicolon, CountNames, CountFields;
    LeadKeepsLine(SEMICOLON_LINE, rest);
    assert Lead(SEMICOLON_LINE + rest)[1] == SEMI;
    HashInputsAgree(SEMICOLON_LINE + rest, o, c);
    if ReadFrom(SEMICOLON_LINE + rest, o, c, others).Some? {
      SignerAndVerifierAgree(SEMICOLON_LINE + rest, o, c, others);
    }
  }
}
