/** The verifier hashes what it reads from the signed field, and that is what the signer hashed. */
module Agreement {
  import opened Bytes
  import opened BodyCanon
  import opened BodyAlgebra
  import opened HeaderCanon
  import opened HeaderSection
  import opened HeaderLaws
  import opened SelectHeaders
  import opened Signing
  import opened SignatureReading
  import opened SignVerify
  import opened ReadBack
  import opened Wrappers

  // ---------------------------------------------------------------- the tags that are written

  lemma {:induction false} LinedSame(tags: seq<Tag>, lead: Bytes)
    ensures var lined := Lined(tags, lead);
            |lined| == |tags|
            && forall i :: 0 <= i < |tags| ==> lined[i].name == tags[i].name && lined[i].value == tags[i].value
  {
    if tags != [] {
      LinedSame(tags[1..], [SP]);
    }
  }

  /** The bare tags in their order. */
  function BareTags(o: Options, length: Bytes, bh: Bytes): seq<Tag> {
    FirstTags(o) + SecondTags(o, length) + [Tag([], B("bh"), bh)] + o.extra
  }

  lemma WrittenIsBare(o: Options, length: Bytes, bh: Bytes)
    ensures var bare, written := BareTags(o, length, bh), SignatureTags(o, length, bh);
            |written| == |bare| && PartsOf(written) == PartsOf(bare)
  {
    LinedSame(FirstTags(o), [SP]);
    LinedSame(SecondTags(o, length), NEW_LINE);
    LinedSame([Tag([], B("bh"), bh)], NEW_LINE);
    LinedSame(o.extra, NEW_LINE);
    hide Lined, FirstTags, SecondTags, PartOf;
    var bare, written := BareTags(o, length, bh), SignatureTags(o, length, bh);
    forall i | 0 <= i < |bare|
      ensures PartOf(written[i]) == PartOf(bare[i])
    {
      SameParts(written[i], bare[i]);
    }
  }

  lemma SameParts(t: Tag, u: Tag)
    requires t.name == u.name && t.value == u.value
    ensures PartOf(t) == PartOf(u)
  {
  }

  /** Where the tags stand that decide what is hashed. */
  lemma TagPlaces(o: Options, length: Bytes, bh: Bytes)
    ensures var bare, n := BareTags(o, length, bh), 5 + |SecondTags(o, length)|;
            && |bare| == n + 1 + |o.extra| && n >= 6
            && bare[0] == Tag([], B("v"), B("1")) && bare[1] == Tag([], B("a"), o.algorithm)
            && bare[3] == Tag([], B("d"), o.domain) && bare[4] == Tag([], B("s"), o.selector)
            && bare[2] == Tag([], B("c"), CanonName(o.headerRelaxed) + B("/") + CanonName(o.bodyRelaxed))
            && (length != [] ==> n >= 7 && bare[n - 2] == Tag([], B("l"), length))
            && bare[n - 1] == Tag([], B("h"), JoinNames(o.names))
            && bare[n] == Tag([], B("bh"), bh)
            && forall k :: 0 <= k < |o.extra| ==> bare[n + 1 + k] == o.extra[k]
  {
    hide B, CanonName, JoinNames;
  }

  // ---------------------------------------------------------------- values

  /** Nothing in it to unfold and nothing around it to trim. */
  predicate Plain(s: Bytes) {
    CR !in s && LF !in s && (s != [] ==> !IsFws(s[0]) && !IsFws(s[|s| - 1]))
  }

  lemma PlainIsRead(s: Bytes)
    requires Plain(s)
    ensures Unfolded(s) == s && TrimFws(Unfolded(s)) == s
  {
    UnfoldedPlain(s);
  }

  /** c= */
  lemma FormsRead(header: bool, body: bool)
    ensures var text := CanonName(header) + B("/") + CanonName(body);
            Plain(text) && ReadForms(Some(text)) == Some((header, body))
  {
    FormName(header);
    FormName(body);
    assert B("/") == [SLASH];
    hide CanonName, ReadForm, ReadForms, Plain, B;
    FormsAround(CanonName(header), CanonName(body));
  }

  lemma FormsAround(h: Bytes, b: Bytes)
    requires h != [] && b != []
    requires (forall c :: c in h ==> 97 <= c <= 122) && (forall c :: c in b ==> 97 <= c <= 122)
    requires ReadForm(h).Some? && ReadForm(b).Some?
    ensures var text := h + [SLASH] + b;
            Plain(text) && ReadForms(Some(text)) == Some((ReadForm(h).value, ReadForm(b).value))
  {
    hide ReadForm, IndexOf;
    var text := h + [SLASH] + b;
    LowerSame(text);
    assert text[0] in h && text[|text| - 1] in b;
    assert forall c :: c in text ==> c in h || c == SLASH || c in b;
    assert text[..|h|] == h && text[|h| + 1..] == b;
    IndexIs(text, SLASH, |h|);
  }

  lemma FormName(relaxed: bool)
    ensures var n := CanonName(relaxed); n != [] && ReadForm(n) == Some(relaxed) && forall b :: b in n ==> 97 <= b <= 122
  {
    LowerText("relaxed");
    LowerText("simple");
  }

  lemma LowerText(s: string)
    requires forall i :: 0 <= i < |s| ==> 'a' <= s[i] <= 'z'
    ensures forall b :: b in B(s) ==> 97 <= b <= 122
  {
  }

  lemma LowerSame(s: Bytes)
    requires forall b :: b in s ==> LowerByte(b) == b
    ensures Lower(s) == s
  {
  }

  /** h=: names that the list of them can be read back from. */
  predicate PlainName(n: Bytes) {
    n != [] && COLON !in n && Plain(n)
  }

  predicate PlainNames(names: seq<Bytes>) {
    names != [] && forall i :: 0 <= i < |names| ==> PlainName(names[i])
  }

  lemma {:induction false} JoinCut(names: seq<Bytes>)
    requires PlainNames(names)
    ensures Cut(JoinNames(names), COLON) == names
    ensures var text := JoinNames(names);
            Plain(text) && text != [] && text[0] == names[0][0]
  {
    hide Cut;
    if |names| == 1 {
      CutPlain(names[0], COLON);
    } else {
      var rest := names[1..];
      JoinCut(rest);
      CutPrefix(names[0], COLON, JoinNames(rest));
    }
  }

  lemma TrimAllPlain(names: seq<Bytes>)
    requires PlainNames(names)
    ensures TrimAll(names) == names
  {
    hide TrimFws;
    forall i | 0 <= i < |names|
      ensures TrimFws(names[i]) == names[i]
    {
      assert PlainName(names[i]);
      PlainIsRead(names[i]);
    }
  }

  /** Whatever names are read from h= are plain. */
  lemma ReadNamesArePlain(text: Bytes)
    requires ReadNames(TrimFws(Unfolded(text))).Some?
    ensures PlainNames(ReadNames(TrimFws(Unfolded(text))).value)
  {
    var h := TrimFws(Unfolded(text));
    TrimmedEnds(Unfolded(text));
    UnfoldedHasNoEol(text);
    CutParts(h, COLON);
    hide TrimFws, Unfolded, Cut;
    var names := ReadNames(h).value;
    forall i | 0 <= i < |names|
      ensures PlainName(names[i])
    {
      TrimmedEnds(Cut(h, COLON)[i]);
    }
  }

  /** The names are read back exactly when they are plain. */
  lemma NamesRead(names: seq<Bytes>)
    ensures var r := ReadNames(TrimFws(Unfolded(JoinNames(names))));
            && (r.Some? ==> (r.value == names <==> PlainNames(names)))
            && (PlainNames(names) ==> (r.Some? <==> exists i :: 0 <= i < |names| && IsFrom(names[i])))
  {
    hide TrimFws, Unfolded, Cut, Plain, IsFrom, TrimAll;
    var text := JoinNames(names);
    if ReadNames(TrimFws(Unfolded(text))).Some? {
      ReadNamesArePlain(text);
    }
    if PlainNames(names) {
      JoinCut(names);
      PlainIsRead(text);
      TrimAllPlain(names);
    }
  }

  /** l= */
  lemma DecimalStep(n: nat)
    ensures DecimalText(n) == (if n < 10 then [] else DecimalText(n / 10)) + [(48 + n % 10) as byte]
  {
    var text, digit := Names.Decimal(n), (48 + n % 10) as byte;
    assert B(text)[|text| - 1] == digit;
    if n >= 10 {
      assert text[..|text| - 1] == Names.Decimal(n / 10);
    }
  }

  lemma {:induction false} DigitsRead(n: nat)
    ensures Digits(DecimalText(n)) == Some(n)
  {
    DecimalStep(n);
    hide DecimalText;
    var digit := (48 + n % 10) as byte;
    if n < 10 {
      assert DecimalText(n) == [digit];
    } else {
      DigitsRead(n / 10);
      assert (DecimalText(n / 10) + [digit])[..|DecimalText(n / 10)|] == DecimalText(n / 10);
    }
  }

  lemma LengthRead(n: nat)
    ensures ReadLength(DecimalText(n)) == if n <= 0x7fff_ffff_ffff_ffff then Some(n) else None
    ensures Plain(DecimalText(n)) && DecimalText(n) != []
  {
    DigitsRead(n);
    hide Digits;
    var text := DecimalText(n);
    assert forall i :: 0 <= i < |text| ==> 48 <= text[i] <= 57;
  }

  /** A plus sign is passed over; with a minus sign only zero is a length. */
  lemma SignedLengthRead(n: nat)
    ensures ReadLength([43] + DecimalText(n)) == ReadLength(DecimalText(n))
    ensures ReadLength([45] + DecimalText(n)) == if n == 0 then Some(0) else None
  {
    DigitsRead(n);
    LengthRead(n);
    hide Digits;
    var text := DecimalText(n);
    assert ([43] + text)[1..] == text && ([45] + text)[1..] == text;
    assert 48 <= text[0] <= 57;
  }

  /** b= and bh= */
  lemma {:induction false} NoFwsTrimmed(s: Bytes)
    ensures NoFws(TrimFws(s)) == NoFws(s)
    decreases |s|
  {
    if s != [] {
      var n := |s| - 1;
      if IsFws(s[0]) {
        NoFwsTrimmed(s[1..]);
      } else if IsFws(s[n]) {
        NoFwsTrimmed(s[..n]);
        assert s == s[..n] + [s[n]];
        NoFwsConcat(s[..n], [s[n]]);
        assert [s[n]][1..] == [];
      }
    }
  }

  lemma {:induction false} NoFwsUnfolded(s: Bytes)
    ensures NoFws(Unfolded(s)) == NoFws(s)
  {
    if s != [] {
      NoFwsUnfolded(s[1..]);
      var rest := Unfolded(s[1..]);
      if IsEol(s[0]) {
        assert [] + rest == rest;
      } else {
        assert ([s[0]] + rest)[1..] == rest;
      }
    }
  }

  // ---------------------------------------------------------------- no name twice

  /** A number for every name that the signer writes: its letter, or 256 for bh. */
  function Rank(n: Bytes): int {
    if |n| == 1 then n[0] as int else if n == B("bh") then 256 else 257
  }

  const FIRST_RANKS: set<int> := {'v' as int, 'a' as int, 'c' as int, 'd' as int, 's' as int}

  function RankIf(name: string, value: Bytes): set<int>
    requires |name| == 1
  {
    if value == [] then {} else {name[0] as int}
  }

  function SecondRanks(o: Options): set<int> {
    RankIf("i", o.auid) + RankIf("t", o.timestamp) + RankIf("x", o.expire)
    + (if o.lengthSet then {'l' as int} else {}) + {'h' as int}
  }

  /** The tags of the signer, b= excepted. */
  function FrontRanks(o: Options): set<int> {
    FIRST_RANKS + SecondRanks(o) + {256}
  }

  /** Valid names of these ranks, no two the same. */
  ghost predicate Distinctly(tags: seq<Tag>, ranks: set<int>) {
    && (forall i :: 0 <= i < |tags| ==> ValidTagName(tags[i].name) && Rank(tags[i].name) in ranks)
    && (forall i, j :: 0 <= i < j < |tags| ==> tags[i].name != tags[j].name)
  }

  lemma DistinctConcat(a: seq<Tag>, p: set<int>, b: seq<Tag>, q: set<int>)
    requires Distinctly(a, p) && Distinctly(b, q) && p !! q
    ensures Distinctly(a + b, p + q)
  {
    hide ValidTagName, Rank;
  }

  lemma DistinctOne(name: string, value: Bytes)
    requires |name| == 1 && 'a' <= name[0] <= 'z'
    ensures Distinctly([Tag([], B(name), value)], {name[0] as int})
    ensures Distinctly(OptionalTag(name, value), RankIf(name, value))
  {
  }

  lemma DistinctFirst(o: Options)
    ensures Distinctly(FirstTags(o), FIRST_RANKS)
  {
    var c := CanonName(o.headerRelaxed) + B("/") + CanonName(o.bodyRelaxed);
    DistinctOne("v", B("1"));
    DistinctOne("a", o.algorithm);
    DistinctOne("c", c);
    DistinctOne("d", o.domain);
    DistinctOne("s", o.selector);
    hide Distinctly, B, CanonName;
    var v, a, d, s := Tag([], B("v"), B("1")), Tag([], B("a"), o.algorithm), Tag([], B("d"), o.domain), Tag([], B("s"), o.selector);
    DistinctConcat([v], {'v' as int}, [a], {'a' as int});
    DistinctConcat([v] + [a], {'v' as int, 'a' as int}, [Tag([], B("c"), c)], {'c' as int});
    DistinctConcat([v] + [a] + [Tag([], B("c"), c)], {'v' as int, 'a' as int, 'c' as int}, [d], {'d' as int});
    DistinctConcat([v] + [a] + [Tag([], B("c"), c)] + [d], {'v' as int, 'a' as int, 'c' as int, 'd' as int}, [s], {'s' as int});
  }

  lemma DistinctSecond(o: Options, length: Bytes)
    requires length == [] <==> !o.lengthSet
    ensures Distinctly(SecondTags(o, length), SecondRanks(o))
  {
    var h := Tag([], B("h"), JoinNames(o.names));
    DistinctOne("i", o.auid);
    DistinctOne("t", o.timestamp);
    DistinctOne("x", o.expire);
    DistinctOne("l", length);
    DistinctOne("h", h.value);
    hide Distinctly, B, JoinNames, OptionalTag;
    var i, t, x, l := OptionalTag("i", o.auid), OptionalTag("t", o.timestamp), OptionalTag("x", o.expire), OptionalTag("l", length);
    DistinctConcat(i, RankIf("i", o.auid), t, RankIf("t", o.timestamp));
    DistinctConcat(i + t, RankIf("i", o.auid) + RankIf("t", o.timestamp), x, RankIf("x", o.expire));
    DistinctConcat(i + t + x, RankIf("i", o.auid) + RankIf("t", o.timestamp) + RankIf("x", o.expire), l, RankIf("l", length));
    DistinctConcat(i + t + x + l, SecondRanks(o) - {'h' as int}, [h], {'h' as int});
  }

  lemma DistinctHash(bh: Bytes)
    ensures Distinctly([Tag([], B("bh"), bh)], {256})
  {
    NameIsValid("bh");
  }

  lemma DistinctFront(o: Options, length: Bytes, bh: Bytes)
    requires length == [] <==> !o.lengthSet
    ensures Distinctly(FirstTags(o) + SecondTags(o, length) + [Tag([], B("bh"), bh)], FrontRanks(o))
  {
    DistinctFirst(o);
    DistinctSecond(o, length);
    DistinctHash(bh);
    hide Distinctly, B, FirstTags, SecondTags;
    var t := Tag([], B("bh"), bh);
    DistinctConcat(FirstTags(o), FIRST_RANKS, SecondTags(o, length), SecondRanks(o));
    DistinctConcat(FirstTags(o) + SecondTags(o, length), FIRST_RANKS + SecondRanks(o), [t], {256});
  }

  /** Extra tags that are valid, of different names, and of none that the signer writes. */
  ghost predicate FreshExtra(o: Options) {
    && (forall k :: 0 <= k < |o.extra| ==> ValidTagName(o.extra[k].name) && o.extra[k].name != B_TAG
                                           && Rank(o.extra[k].name) !in FrontRanks(o))
    && (forall j, k :: 0 <= j < k < |o.extra| ==> o.extra[j].name != o.extra[k].name)
  }

  lemma {:induction false} SoundIf(tags: seq<Part>)
    requires forall i :: 0 <= i < |tags| ==> tags[i].Pair?
    requires forall i, j :: 0 <= i < j < |tags| ==> tags[i].name != tags[j].name
    ensures Sound(tags)
  {
    if tags != [] {
      SoundIf(tags[..|tags| - 1]);
    }
  }

  lemma PartOfValid(t: Tag)
    requires ValidTagName(t.name)
    ensures PartOf(t) == Pair(t.name, TrimFws(Unfolded(t.value)))
  {
    UnfoldedPlain(t.name);
  }

  lemma DistinctSound(tags: seq<Tag>, ranks: set<int>, v: Bytes)
    requires Distinctly(tags, ranks) && 'b' as int !in ranks
    ensures Sound(PartsOf(tags) + [SignaturePart(v)])
  {
    var parts := PartsOf(tags) + [SignaturePart(v)];
    RankOfB();
    hide ValidTagName, TrimFws, Unfolded, PartOf, Rank, Sound;
    forall i | 0 <= i < |tags|
      ensures parts[i].Pair? && parts[i].name == tags[i].name != B_TAG
    {
      PartOfValid(tags[i]);
    }
    SoundIf(parts);
  }

  lemma RankOfB()
    ensures Rank(B_TAG) == 'b' as int
  {
  }

  function ExtraRanks(o: Options): set<int> {
    set k | 0 <= k < |o.extra| :: Rank(o.extra[k].name)
  }

  lemma DistinctBare(o: Options, length: Bytes, bh: Bytes)
    requires (length == [] <==> !o.lengthSet) && FreshExtra(o)
    ensures Distinctly(BareTags(o, length, bh), FrontRanks(o) + ExtraRanks(o))
  {
    DistinctFront(o, length, bh);
    hide Rank, ValidTagName, B, FrontRanks, FirstTags, SecondTags;
    assert Distinctly(o.extra, ExtraRanks(o));
    DistinctConcat(FirstTags(o) + SecondTags(o, length) + [Tag([], B("bh"), bh)], FrontRanks(o), o.extra, ExtraRanks(o));
  }

  lemma RankOfOthers(n: Bytes)
    requires n != B_TAG
    ensures Rank(n) != 'b' as int
  {
    assert |n| == 1 ==> n == [n[0]];
  }

  /** With such extra tags the written list is well formed. */
  lemma SoundWhenFresh(o: Options, length: Bytes, bh: Bytes, v: Bytes)
    requires (length == [] <==> !o.lengthSet) && FreshExtra(o)
    ensures Sound(PartsOf(BareTags(o, length, bh)) + [SignaturePart(v)])
  {
    DistinctBare(o, length, bh);
    hide BareTags, Distinctly, PartsOf, SignaturePart, Sound, ValidTagName;
    forall k | 0 <= k < |o.extra|
      ensures Rank(o.extra[k].name) != 'b' as int
    {
      RankOfOthers(o.extra[k].name);
    }
    hide Rank;
    DistinctSound(BareTags(o, length, bh), FrontRanks(o) + ExtraRanks(o), v);
  }

  // ---------------------------------------------------------------- looking the tags up

  /** The tags of a signed field, more being those after a semicolon behind the signature. */
  function FieldTags(o: Options, length: Bytes, bh: Bytes, v: Bytes, more: seq<Part>): seq<Part> {
    PartsOf(BareTags(o, length, bh)) + [SignaturePart(v)] + more
  }

  lemma LookupTag(o: Options, length: Bytes, bh: Bytes, v: Bytes, more: seq<Part>, i: nat)
    requires Sound(FieldTags(o, length, bh, v, more))
    requires i < |BareTags(o, length, bh)| && ValidTagName(BareTags(o, length, bh)[i].name)
    ensures var t := BareTags(o, length, bh)[i];
            Lookup(FieldTags(o, length, bh, v, more), t.name) == Some(TrimFws(Unfolded(t.value)))
  {
    hide BareTags, ValidTagName, Unfolded, TrimFws, PartOf, Sound, Lookup, SignaturePart;
    var t := BareTags(o, length, bh)[i];
    PartOfValid(t);
    assert FieldTags(o, length, bh, v, more)[i] == PartOf(t);
    LookupAt(FieldTags(o, length, bh, v, more), i);
  }

  lemma LookupSignature(o: Options, length: Bytes, bh: Bytes, v: Bytes, more: seq<Part>)
    requires Sound(FieldTags(o, length, bh, v, more))
    ensures Lookup(FieldTags(o, length, bh, v, more), B_TAG) == Some(TrimFws(Unfolded(UpToSemicolon(v))))
  {
    hide BareTags, Unfolded, TrimFws, PartOf, Sound, Lookup, UpToSemicolon;
    var n := |BareTags(o, length, bh)|;
    assert FieldTags(o, length, bh, v, more)[n] == SignaturePart(v);
    LookupAt(FieldTags(o, length, bh, v, more), n);
  }

  lemma NameIsValid(name: string)
    requires name == "bh" || (|name| == 1 && 'a' <= name[0] <= 'z')
    ensures ValidTagName(B(name))
  {
  }

  lemma WrittenTags(o: Options, length: Bytes, bh: Bytes, v: Bytes, more: seq<Part>)
    requires Sound(FieldTags(o, length, bh, v, more))
    ensures var tags := FieldTags(o, length, bh, v, more);
            && Lookup(tags, B("c")) == Some(TrimFws(Unfolded(CanonName(o.headerRelaxed) + B("/") + CanonName(o.bodyRelaxed))))
            && Lookup(tags, B("h")) == Some(TrimFws(Unfolded(JoinNames(o.names))))
            && Lookup(tags, B("bh")) == Some(TrimFws(Unfolded(bh)))
            && (length != [] ==> Lookup(tags, B("l")) == Some(TrimFws(Unfolded(length))))
            && Lookup(tags, B_TAG) == Some(TrimFws(Unfolded(UpToSemicolon(v))))
  {
    TagPlaces(o, length, bh);
    NameIsValid("c");
    NameIsValid("h");
    NameIsValid("bh");
    NameIsValid("l");
    LookupSignature(o, length, bh, v, more);
    hide B, BareTags, FieldTags, SecondTags, CanonName, JoinNames, TrimFws, Unfolded, ValidTagName, Lookup, Sound, UpToSemicolon;
    var n := 5 + |SecondTags(o, length)|;
    LookupTag(o, length, bh, v, more, 2);
    LookupTag(o, length, bh, v, more, n - 1);
    LookupTag(o, length, bh, v, more, n);
    if length != [] {
      LookupTag(o, length, bh, v, more, n - 2);
    }
  }

  /** The extra tags have no l= among them. */
  predicate NoExtraLength(o: Options) {
    forall k :: 0 <= k < |o.extra| ==> o.extra[k].name != B("l")
  }

  lemma UnfoldedLong(n: Bytes)
    requires |n| >= 2 && !IsFws(n[0]) && !IsFws(n[|n| - 1])
    ensures |Unfolded(n)| >= 2
  {
    var rest := n[1..];
    UnfoldedOne(n[0]);
    UnfoldedConcat([n[0]], rest);
    UnfoldedKeeps(rest);
    hide Unfolded;
    assert n == [n[0]] + rest;
    assert rest[|rest| - 1] in Unfolded(rest);
  }

  lemma NamedConcat(a: seq<Tag>, b: seq<Tag>, v: Bytes, name: Bytes)
    ensures HasName(PartsOf(a + b) + [SignaturePart(v)] + [], name)
       <==> HasName(PartsOf(a), name) || HasName(PartsOf(b), name) || name == B_TAG
  {
    hide PartOf, TrimFws, Unfolded;
    var all := PartsOf(a + b) + [SignaturePart(v)] + [];
    if HasName(all, name) {
      var i :| 0 <= i < |all| && all[i].Pair? && all[i].name == name;
      assert i < |a| ==> PartsOf(a)[i] == all[i];
      assert |a| <= i < |a| + |b| ==> PartsOf(b)[i - |a|] == all[i];
    }
    if HasName(PartsOf(a), name) {
      var i :| 0 <= i < |a| && PartsOf(a)[i].Pair? && PartsOf(a)[i].name == name;
      assert all[i] == PartsOf(a)[i];
    }
    if HasName(PartsOf(b), name) {
      var i :| 0 <= i < |b| && PartsOf(b)[i].Pair? && PartsOf(b)[i].name == name;
      assert all[|a| + i] == PartsOf(b)[i];
    }
    assert all[|a| + |b|] == SignaturePart(v);
  }

  lemma NotInFront(tags: seq<Tag>, ranks: set<int>, name: Bytes)
    requires Distinctly(tags, ranks) && Rank(name) !in ranks
    ensures !HasName(PartsOf(tags), name)
  {
    hide Rank, ValidTagName, TrimFws, Unfolded, PartOf;
    forall i | 0 <= i < |tags|
      ensures PartsOf(tags)[i].Pair? && PartsOf(tags)[i].name != name
    {
      PartOfValid(tags[i]);
    }
  }

  lemma ExtraNamed(tags: seq<Tag>)
    requires forall k :: 0 <= k < |tags| ==> GoodName(tags[k].name)
    ensures HasName(PartsOf(tags), B("l")) <==> exists k :: 0 <= k < |tags| && tags[k].name == B("l")
  {
    NameIsValid("l");
    hide TrimFws, B;
    forall k | 0 <= k < |tags|
      ensures PartOf(tags[k]).Pair? && PartOf(tags[k]).name == B("l") <==> tags[k].name == B("l")
    {
      var n := tags[k].name;
      UnfoldedOne(n[0]);
      if |n| >= 2 {
        UnfoldedLong(n);
      } else {
        assert n == [n[0]];
      }
    }
    if k :| 0 <= k < |tags| && tags[k].name == B("l") {
      assert PartsOf(tags)[k].name == B("l");
    }
  }

  /** Without an l= of its own, a field has one exactly when an extra tag is called so. */
  lemma ExtraLength(o: Options, bh: Bytes, v: Bytes)
    requires CleanOptions(o) && !o.lengthSet
    ensures HasName(FieldTags(o, [], bh, v, []), B("l")) <==> !NoExtraLength(o)
  {
    DistinctFront(o, [], bh);
    RankOfL();
    ExtraNamed(o.extra);
    hide FirstTags, SecondTags, SignaturePart, Distinctly, Rank, B, HasName, PartsOf, GoodName;
    var front := FirstTags(o) + SecondTags(o, []) + [Tag([], B("bh"), bh)];
    NamedConcat(front, o.extra, v, B("l"));
    NotInFront(front, FrontRanks(o), B("l"));
  }

  lemma RankOfL()
    ensures Rank(B("l")) == 'l' as int && B("l") != B_TAG
  {
    assert B("l")[0] != B_TAG[0];
  }

  // ---------------------------------------------------------------- the reading

  /** An accepted list is read tag by tag. */
  lemma ReadTagsIs(tags: seq<Part>, others: seq<Part> -> bool, c: Bytes, h: Bytes, bh: Bytes, b: Bytes)
    requires ReadTags(tags, others).Some?
    requires Lookup(tags, B("c")) == Some(c) && Lookup(tags, B("h")) == Some(h)
    requires Lookup(tags, B("bh")) == Some(bh) && Lookup(tags, B_TAG) == Some(b)
    ensures ReadForms(Some(c)).Some? && ReadNames(h).Some?
    ensures var rd, l := ReadTags(tags, others).value, Lookup(tags, B("l"));
            && rd.headerRelaxed == ReadForms(Some(c)).value.0 && rd.bodyRelaxed == ReadForms(Some(c)).value.1
            && rd.names == ReadNames(h).value && rd.bodyHash == NoFws(bh) && rd.signature == NoFws(b)
            && if l.None? then rd.limit == -1 else ReadLength(l.value) == Some(rd.limit)
  {
    TagOfB();
    hide B, ReadForms, ReadNames, ReadLength, Lookup, HasName, NoFws;
  }

  lemma FormsOfField(o: Options, length: Bytes, bh: Bytes, v: Bytes, more: seq<Part>)
    requires Sound(FieldTags(o, length, bh, v, more))
    ensures var c := Lookup(FieldTags(o, length, bh, v, more), B("c"));
            c.Some? && ReadForms(c) == Some((o.headerRelaxed, o.bodyRelaxed))
  {
    WrittenTags(o, length, bh, v, more);
    FormsRead(o.headerRelaxed, o.bodyRelaxed);
    hide B, FieldTags, CanonName, JoinNames, TrimFws, Unfolded, ReadForms, Lookup, Sound, Plain, UpToSemicolon;
    PlainIsRead(CanonName(o.headerRelaxed) + B("/") + CanonName(o.bodyRelaxed));
  }

  lemma LimitOfField(o: Options, length: Bytes, n: nat, bh: Bytes, v: Bytes, more: seq<Part>)
    requires CleanOptions(o) && length == if o.lengthSet then DecimalText(n) else []
    requires Sound(FieldTags(o, length, bh, v, more))
    ensures var l := Lookup(FieldTags(o, length, bh, v, more), B("l"));
            if o.lengthSet then l.Some? && ReadLength(l.value) == if n <= MAX_INT64 then Some(n) else None
            else more == [] ==> (l.None? <==> NoExtraLength(o))
  {
    hide B, FieldTags, CanonName, JoinNames, TrimFws, Unfolded, ReadLength, Lookup, HasName, Sound, CleanOptions, DecimalText,
         NoExtraLength, Plain, UpToSemicolon;
    if o.lengthSet {
      LengthRead(n);
      PlainIsRead(length);
      WrittenTags(o, length, bh, v, more);
    } else if more == [] {
      LookupNone(FieldTags(o, length, bh, v, more), B("l"));
      ExtraLength(o, bh, v);
    }
  }

  /** What is read from a field that was signed with these options and is accepted. */
  lemma ReadAsWritten(o: Options, length: Bytes, n: nat, bh: Bytes, v: Bytes, more: seq<Part>, others: seq<Part> -> bool)
    requires CleanOptions(o) && length == if o.lengthSet then DecimalText(n) else []
    requires Sound(FieldTags(o, length, bh, v, more))
    requires ReadTags(FieldTags(o, length, bh, v, more), others).Some?
    ensures var rd := ReadTags(FieldTags(o, length, bh, v, more), others).value;
            && rd.headerRelaxed == o.headerRelaxed && rd.bodyRelaxed == o.bodyRelaxed
            && (rd.names == o.names <==> PlainNames(o.names))
            && (o.lengthSet ==> rd.limit == n)
            && (!o.lengthSet && more == [] ==> (rd.limit == -1 <==> NoExtraLength(o)))
            && rd.bodyHash == NoFws(bh)
            && rd.signature == NoFws(UpToSemicolon(v))
  {
    hide B, FieldTags, CanonName, JoinNames, TrimFws, Unfolded, ReadForms, ReadNames, ReadLength, Lookup, HasName, Sound,
         CleanOptions, DecimalText, NoExtraLength, PlainNames, Plain, NoFws, UpToSemicolon, ReadTags;
    WrittenTags(o, length, bh, v, more);
    FormsOfField(o, length, bh, v, more);
    LimitOfField(o, length, n, bh, v, more);
    NamesRead(o.names);
    NoFwsRead(bh);
    NoFwsRead(UpToSemicolon(v));
    var tags := FieldTags(o, length, bh, v, more);
    ReadTagsIs(tags, others, Lookup(tags, B("c")).value, TrimFws(Unfolded(JoinNames(o.names))), TrimFws(Unfolded(bh)),
               TrimFws(Unfolded(UpToSemicolon(v))));
  }

  lemma TagOfB()
    ensures B("b") == B_TAG
  {
  }

  lemma NoFwsRead(s: Bytes)
    ensures NoFws(TrimFws(Unfolded(s))) == NoFws(s)
  {
    NoFwsTrimmed(Unfolded(s));
    NoFwsUnfolded(s);
  }

  // ---------------------------------------------------------------- when a field is accepted

  /** Every extra l= has a length in it. */
  predicate ReadableLength(o: Options) {
    forall k :: 0 <= k < |o.extra| && o.extra[k].name == B("l") ==> ReadLength(TrimFws(Unfolded(o.extra[k].value))).Some?
  }

  lemma OneIsRead()
    ensures TrimFws(Unfolded(B("1"))) == B("1")
  {
    PlainIsRead(B("1"));
  }

  lemma VersionWritten(o: Options, length: Bytes, bh: Bytes, v: Bytes)
    requires Sound(FieldTags(o, length, bh, v, []))
    ensures Lookup(FieldTags(o, length, bh, v, []), B("v")) == Some(B("1"))
  {
    NameIsValid("v");
    OneIsRead();
    TagPlaces(o, length, bh);
    hide B, BareTags, SecondTags, FieldTags, CanonName, JoinNames, TrimFws, Unfolded, ValidTagName, Lookup, Sound;
    LookupTag(o, length, bh, v, [], 0);
  }

  lemma FirstWritten(o: Options, length: Bytes, bh: Bytes, v: Bytes)
    requires Sound(FieldTags(o, length, bh, v, []))
    ensures var tags := FieldTags(o, length, bh, v, []);
            Lookup(tags, B("a")).Some? && Lookup(tags, B("d")).Some? && Lookup(tags, B("s")).Some?
  {
    NameIsValid("a");
    NameIsValid("d");
    NameIsValid("s");
    TagPlaces(o, length, bh);
    hide B, BareTags, SecondTags, FieldTags, CanonName, JoinNames, TrimFws, Unfolded, ValidTagName, Lookup, Sound;
    LookupTag(o, length, bh, v, [], 1);
    LookupTag(o, length, bh, v, [], 3);
    LookupTag(o, length, bh, v, [], 4);
  }

  lemma ExtraPlace(o: Options, length: Bytes, bh: Bytes, k: nat) returns (i: nat)
    requires k < |o.extra|
    ensures i < |BareTags(o, length, bh)| && BareTags(o, length, bh)[i] == o.extra[k]
  {
    i := |FirstTags(o)| + |SecondTags(o, length)| + 1 + k;
  }

  lemma LookupExtra(o: Options, bh: Bytes, v: Bytes, k: nat)
    requires Sound(FieldTags(o, [], bh, v, [])) && k < |o.extra| && o.extra[k].name == B("l")
    ensures Lookup(FieldTags(o, [], bh, v, []), B("l")) == Some(TrimFws(Unfolded(o.extra[k].value)))
  {
    NameIsValid("l");
    hide B, TrimFws, Unfolded, ValidTagName, Lookup, Sound, BareTags, FieldTags;
    var i := ExtraPlace(o, [], bh, k);
    LookupTag(o, [], bh, v, [], i);
  }

  lemma LengthOfField(o: Options, length: Bytes, n: nat, bh: Bytes, v: Bytes)
    requires CleanOptions(o) && length == if o.lengthSet then DecimalText(n) else []
    requires Sound(FieldTags(o, length, bh, v, [])) && ReadableLength(o) && (o.lengthSet ==> n <= MAX_INT64)
    ensures var l := Lookup(FieldTags(o, length, bh, v, []), B("l")); l.Some? ==> ReadLength(l.value).Some?
  {
    hide B, TrimFws, Unfolded, Lookup, Sound, ReadLength, DecimalText, CleanOptions, FieldTags;
    LimitOfField(o, length, n, bh, v, []);
    if !o.lengthSet && !NoExtraLength(o) {
      var k :| 0 <= k < |o.extra| && o.extra[k].name == B("l");
      LookupExtra(o, bh, v, k);
    }
  }

  /** The names can be read from h=: none between two colons is empty, and From is among them. */
  predicate ReadableNames(o: Options) {
    ReadNames(TrimFws(Unfolded(JoinNames(o.names)))).Some?
  }

  /** A field with readable names and lengths and fresh extra tags passes when the other checks
      pass. */
  lemma FieldIsAccepted(o: Options, length: Bytes, n: nat, bh: Bytes, v: Bytes, others: seq<Part> -> bool)
    requires CleanOptions(o) && length == if o.lengthSet then DecimalText(n) else []
    requires FreshExtra(o) && ReadableLength(o) && (o.lengthSet ==> n <= MAX_INT64)
    requires ReadableNames(o)
    ensures var tags := FieldTags(o, length, bh, v, []); Sound(tags) && (ReadTags(tags, others).Some? <==> others(tags))
  {
    var tags := FieldTags(o, length, bh, v, []);
    LengthRead(n);
    SoundWhenFresh(o, length, bh, v);
    hide B, BareTags, PartsOf, SignaturePart, CanonName, JoinNames, TrimFws, Unfolded, ReadForms, ReadNames, ReadLength, Lookup,
         HasName, Sound, CleanOptions, DecimalText, Plain, NoFws, UpToSemicolon, FreshExtra, ReadableLength, ReadTags;
    assert tags == PartsOf(BareTags(o, length, bh)) + [SignaturePart(v)];
    WrittenTags(o, length, bh, v, []);
    VersionWritten(o, length, bh, v);
    FirstWritten(o, length, bh, v);
    LengthOfField(o, length, n, bh, v);
    FormsOfField(o, length, bh, v, []);
    Accepted(tags, others);
  }

  lemma Accepted(tags: seq<Part>, others: seq<Part> -> bool)
    requires Lookup(tags, B("v")) == Some(B("1")) && Lookup(tags, B("a")).Some? && Lookup(tags, B_TAG).Some?
    requires Lookup(tags, B("bh")).Some? && Lookup(tags, B("d")).Some? && Lookup(tags, B("h")).Some? && Lookup(tags, B("s")).Some?
    requires ReadForms(Lookup(tags, B("c"))).Some? && ReadNames(Lookup(tags, B("h")).value).Some?
    requires Lookup(tags, B("l")).Some? ==> ReadLength(Lookup(tags, B("l")).value).Some?
    ensures ReadTags(tags, others).Some? <==> others(tags)
  {
    TagOfB();
    hide B, ReadForms, ReadNames, ReadLength, Lookup, HasName, NoFws;
    forall i | 0 <= i < |REQUIRED|
      ensures HasName(tags, REQUIRED[i])
    {
      LookupNone(tags, REQUIRED[i]);
    }
  }

  // ---------------------------------------------------------------- the agreement

  /** The signature field as the verifier finds it in the signed message. */
  function FoundField(message: Bytes, o: Options, c: Crypto): Bytes
    requires Sign(message, o, c).Signed?
  {
    Sign(message, o, c).field + Lead(message)
  }

  /** The values read from the field are those the signer used: the forms always, the names
      exactly when they are plain, the limit when the signer writes one, and otherwise exactly
      when no extra tag is an l=, as long as no semicolon follows the signature. The body hash
      is read back, and the signature exactly when it is followed by white space. */
  ghost predicate ValuesReadBack(rd: Reading, message: Bytes, o: Options, c: Crypto)
    requires Sign(message, o, c).Signed?
  {
    var s := Sign(message, o, c);
    var m := ParseMessage(message, HeaderSection.DEFAULT_LIMITS);
    && m.Message?
    && rd.headerRelaxed == o.headerRelaxed && rd.bodyRelaxed == o.bodyRelaxed
    && (rd.names == o.names <==> PlainNames(o.names))
    && (o.lengthSet ==> rd.limit == WrittenLimit(o, |CanonBody(m.body, o.bodyRelaxed)|))
    && (!o.lengthSet && SEMI !in Lead(message) ==> (rd.limit == -1 <==> NoExtraLength(o)))
    && rd.bodyHash == NoFws(c.base64(c.hash(BodyInput(m.body, o.bodyRelaxed, s.length))))
    && (rd.signature == NoFws(c.base64(c.sign(c.hash(HeaderInput(m.headers, o.names, s.unsigned, o.headerRelaxed)))))
        <==> NoFws(UpToSemicolon(Lead(message))) == [])
  }

  lemma FoundTags(message: Bytes, o: Options, c: Crypto) returns (length: Bytes, bh: Bytes, sig: Bytes, more: seq<Part>)
    requires CleanOptions(o) && CleanCrypto(c) && Sign(message, o, c).Signed?
    ensures var m := ParseMessage(message, HeaderSection.DEFAULT_LIMITS);
            var s := Sign(message, o, c);
            && m.Message? && CleanValue(sig)
            && length == (if o.lengthSet then DecimalText(WrittenLimit(o, |CanonBody(m.body, o.bodyRelaxed)|)) else [])
            && bh == c.base64(c.hash(BodyInput(m.body, o.bodyRelaxed, s.length)))
            && sig == c.base64(c.sign(c.hash(HeaderInput(m.headers, o.names, s.unsigned, o.headerRelaxed))))
    ensures var tags := FieldTags(o, length, bh, Folded(sig) + CRLF + Lead(message), more);
            TagList(FieldValue(FoundField(message, o, c))) == if Sound(tags) then Some(tags) else None
    ensures SEMI !in Lead(message) ==> more == []
  {
    hide Sign, ParseMessage, Lead, FieldFront, Folded, CleanOptions, CleanValue, FieldValue, DecimalText, WrittenLimit,
         CanonBody, BodyInput, HeaderInput, Sound, TagList, BareTags, SignatureTags, PartsOf, SignaturePart;
    length, bh, sig := SignedParts(message, o, c);
    var v := Folded(sig) + CRLF + Lead(message);
    more := ReadField(o, length, bh, v);
    assert FoundField(message, o, c) == FieldFront(o, length, bh) + v;
    WrittenIsBare(o, length, bh);
    SemicolonAfter(sig, Lead(message));
  }

  /** What an accepted field is read as. */
  lemma SignedFieldReadBack(message: Bytes, o: Options, c: Crypto, others: seq<Part> -> bool)
    requires CleanOptions(o) && CleanCrypto(c) && Sign(message, o, c).Signed?
    ensures var rd := ReadSignature(FieldValue(FoundField(message, o, c)), others);
            rd.Some? ==> ValuesReadBack(rd.value, message, o, c)
  {
    hide Sign, ParseMessage, Lead, FieldFront, Folded, CleanOptions, FieldValue, DecimalText,
         CanonBody, BodyInput, HeaderInput, Sound, TagList, FieldTags, ReadTags, FoundField, NoFws, UpToSemicolon,
         PlainNames, NoExtraLength;
    var length, bh, sig, more := FoundTags(message, o, c);
    var v := Folded(sig) + CRLF + Lead(message);
    var m := ParseMessage(message, HeaderSection.DEFAULT_LIMITS);
    SignatureReadBack(sig, Lead(message));
    if ReadSignature(FieldValue(FoundField(message, o, c)), others).Some? {
      ReadAsWritten(o, length, if o.lengthSet then WrittenLimit(o, |CanonBody(m.body, o.bodyRelaxed)|) else 0, bh, v, more, others);
    }
  }

  /** Options whose field is accepted when the remaining checks pass: readable names, as plain
      names with From among them are, fresh extra tags, and lengths of 64 bits. */
  ghost predicate AcceptableOptions(o: Options, total: nat) {
    && ReadableNames(o) && FreshExtra(o) && ReadableLength(o) && WrittenLimit(o, total) <= MAX_INT64
  }

  lemma SignedFieldIsAccepted(message: Bytes, o: Options, c: Crypto, others: seq<Part> -> bool)
    requires CleanOptions(o) && CleanCrypto(c) && Sign(message, o, c).Signed? && SEMI !in Lead(message)
    ensures var m := ParseMessage(message, HeaderSection.DEFAULT_LIMITS);
            m.Message? && (AcceptableOptions(o, |CanonBody(m.body, o.bodyRelaxed)|) ==>
              var tags := TagList(FieldValue(FoundField(message, o, c)));
              tags.Some? && (ReadSignature(FieldValue(FoundField(message, o, c)), others).Some? <==> others(tags.value)))
  {
    hide Sign, ParseMessage, Lead, Folded, CleanOptions, FieldValue, DecimalText, CanonBody, BodyInput, HeaderInput, Sound,
         TagList, FieldTags, ReadTags, FoundField, ReadableNames, FreshExtra, ReadableLength;
    var length, bh, sig, more := FoundTags(message, o, c);
    var m := ParseMessage(message, HeaderSection.DEFAULT_LIMITS);
    var n := |CanonBody(m.body, o.bodyRelaxed)|;
    if AcceptableOptions(o, n) {
      FieldIsAccepted(o, length, if o.lengthSet then WrittenLimit(o, n) else 0, bh, Folded(sig) + CRLF + Lead(message), others);
    }
  }

  /** A message that is signed with such options, and parsed again once it is signed. */
  ghost predicate Delivered(message: Bytes, o: Options, c: Crypto) {
    && CleanOptions(o) && CleanCrypto(c) && Sign(message, o, c).Signed?
    && ParseMessage(message, HeaderSection.DEFAULT_LIMITS).Message?
    && var m := ParseMessage(Sign(message, o, c).message, HeaderSection.DEFAULT_LIMITS);
       m.Message? && m.headers != []
  }

  function Original(message: Bytes): Parsed {
    ParseMessage(message, HeaderSection.DEFAULT_LIMITS)
  }

  function Received(message: Bytes, o: Options, c: Crypto): Parsed
    requires Sign(message, o, c).Signed?
  {
    ParseMessage(Sign(message, o, c).message, HeaderSection.DEFAULT_LIMITS)
  }

  /** What the verifier reads from the first field. */
  function ReadFrom(message: Bytes, o: Options, c: Crypto, others: seq<Part> -> bool): Option<Reading>
    requires Delivered(message, o, c)
  {
    ReadSignature(Received(message, o, c).headers[0].value, others)
  }

  /** By the values read, the body bytes are those that were hashed. */
  ghost predicate BodiesAgree(rd: Reading, message: Bytes, o: Options, c: Crypto)
    requires Delivered(message, o, c)
  {
    BodyInput(Received(message, o, c).body, rd.bodyRelaxed, rd.limit)
      == BodyInput(Original(message).body, o.bodyRelaxed, Sign(message, o, c).length)
  }

  /** By these names and this form, the header bytes are those that were hashed. */
  ghost predicate HeadersAgree(names: seq<Bytes>, relaxed: bool, message: Bytes, o: Options, c: Crypto)
    requires Delivered(message, o, c)
  {
    var m := Received(message, o, c);
    HeaderInput(m.headers, names, StripSignature(m.headers[0].raw), relaxed)
      == HeaderInput(Original(message).headers, o.names, Sign(message, o, c).unsigned, o.headerRelaxed)
  }

  /** The signed message only has to be within the limits. */
  lemma DeliveredIf(message: Bytes, o: Options, c: Crypto)
    requires CleanOptions(o) && CleanCrypto(c) && Sign(message, o, c).Signed?
    requires Received(message, o, c).Message?
    ensures Delivered(message, o, c)
    ensures Received(message, o, c).headers[0].value == FieldValue(FoundField(message, o, c))
    ensures Received(message, o, c).headers[0].raw == FoundField(message, o, c)
    ensures Received(message, o, c).body == Original(message).body
  {
    hide ParseMessage, StripSignature, CleanOptions, CountNames, CountFields, Lead, HeaderInput, BodyInput, CanonBody, FieldValue,
         Sign;
    HashInputsAgree(message, o, c);
  }

  /** Signer and verifier hash the same bytes, the verifier by what it reads from the field of
      the signed message. The values are read back as ValuesReadBack says. The body bytes
      agree exactly when the signer writes an l= or none is read that cuts the canonical body
      short. With plain names the header bytes agree exactly when the lines a message begins
      with have no semicolon and h= does not list DKIM-Signature more often than the message
      has it. */
  lemma SignerAndVerifierAgree(message: Bytes, o: Options, c: Crypto, others: seq<Part> -> bool)
    requires Delivered(message, o, c) && ReadFrom(message, o, c, others).Some?
    ensures var rd := ReadFrom(message, o, c, others).value;
            && ValuesReadBack(rd, message, o, c)
            && (BodiesAgree(rd, message, o, c)
                <==> o.lengthSet || rd.limit < 0 || rd.limit >= |CanonBody(Original(message).body, o.bodyRelaxed)|)
            && (PlainNames(o.names) ==>
                  (HeadersAgree(rd.names, rd.headerRelaxed, message, o, c)
                   <==> SEMI !in Lead(message)
                        && CountNames(o.names, SIGNATURE_NAME) <= CountFields(Original(message).headers, SIGNATURE_NAME)))
  {
    DeliveredIf(message, o, c);
    hide ParseMessage, StripSignature, CleanOptions, CountNames, CountFields, Lead, HeaderInput, BodyInput, CanonBody,
         ReadSignature, FieldValue, PlainNames, NoExtraLength, NoFws, UpToSemicolon;
    SignedParsed(message, o, c);
    HashInputsAgree(message, o, c);
    SignedFieldReadBack(message, o, c, others);
    hide Sign;
    CutBodies(Original(message).body, o, ReadFrom(message, o, c, others).value.limit);
  }

  lemma SignedParsed(message: Bytes, o: Options, c: Crypto)
    requires Sign(message, o, c).Signed?
    ensures ParseMessage(message, HeaderSection.DEFAULT_LIMITS).Message?
    ensures Sign(message, o, c).length == if o.lengthSet then o.length else -1
  {
    hide ParseMessage, FieldFront, Folded, HeaderInput, BodyInput, CanonBody, DecimalText;
  }

  /** When the limit that is read gives the body bytes that were hashed. */
  lemma CutBodies(body: Bytes, o: Options, limit: int)
    requires o.lengthSet ==> limit == WrittenLimit(o, |CanonBody(body, o.bodyRelaxed)|)
    ensures BodyInput(body, o.bodyRelaxed, limit) == BodyInput(body, o.bodyRelaxed, if o.lengthSet then o.length else -1)
       <==> o.lengthSet || limit < 0 || limit >= |CanonBody(body, o.bodyRelaxed)|
  {
    hide CanonBody, NormalizeEol;
    NormalizingKeepsCanonBody(body, o.bodyRelaxed);
  }
}
