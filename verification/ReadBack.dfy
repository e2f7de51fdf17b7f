/** The tags that the verifier reads from a signed field are those the signer wrote. */
module ReadBack {
  import opened Bytes
  import opened HeaderCanon
  import opened HeaderSection
  import opened Signing
  import opened SignatureReading
  import opened SignVerify
  import opened Wrappers

  // ---------------------------------------------------------------- cutting

  lemma CutHead(b: byte, s: Bytes, c: byte)
    requires b != c
    ensures Cut([b] + s, c) == [[b] + Cut(s, c)[0]] + Cut(s, c)[1..]
  {
    assert ([b] + s)[1..] == s;
  }

  lemma {:induction false} CutPlain(s: Bytes, c: byte)
    requires c !in s
    ensures Cut(s, c) == [s]
  {
    if s != [] {
      CutPlain(s[1..], c);
      assert [s[0]] + s[1..] == s;
    }
  }

  lemma {:induction false} CutPrefix(head: Bytes, c: byte, tail: Bytes)
    requires c !in head
    ensures Cut(head + [c] + tail, c) == [head] + Cut(tail, c)
  {
    var s := head + [c] + tail;
    if head == [] {
      assert s[1..] == tail;
    } else {
      assert s[1..] == head[1..] + [c] + tail;
      CutPrefix(head[1..], c, tail);
      assert [head[0]] + head[1..] == head;
    }
  }

  lemma {:induction false} CutSnoc(s: Bytes, b: byte, c: byte)
    requires b != c
    ensures var parts := Cut(s, c);
            Cut(s + [b], c) == parts[..|parts| - 1] + [parts[|parts| - 1] + [b]]
  {
    var parts := Cut(s, c);
    if s == [] {
      CutPlain([b], c);
      assert [] + [b] == [b];
    } else {
      assert (s + [b])[1..] == s[1..] + [b];
      CutSnoc(s[1..], b, c);
      var rest := Cut(s[1..], c);
      if s[0] == c {
        assert ([[]] + rest)[..|rest|] == [[]] + rest[..|rest| - 1];
      } else if |rest| == 1 {
        assert [s[0]] + (rest[0] + [b]) == [s[0]] + rest[0] + [b];
      } else {
        assert parts[..|parts| - 1] == [[s[0]] + rest[0]] + rest[1..|rest| - 1];
      }
    }
  }

  /** No part contains the separator, and every byte of a part is one of s. */
  lemma {:induction false} CutParts(s: Bytes, c: byte)
    ensures forall i :: 0 <= i < |Cut(s, c)| ==> c !in Cut(s, c)[i] && forall b :: b in Cut(s, c)[i] ==> b in s
  {
    if s != [] {
      CutParts(s[1..], c);
      var rest := Cut(s[1..], c);
      assert s == [s[0]] + s[1..];
      forall i | 0 <= i < |Cut(s, c)|
        ensures c !in Cut(s, c)[i] && forall b :: b in Cut(s, c)[i] ==> b in s
      {
        if s[0] == c {
          assert i > 0 ==> Cut(s, c)[i] == rest[i - 1];
        } else if i > 0 {
          assert Cut(s, c)[i] == rest[i];
        }
      }
    }
  }

  // ---------------------------------------------------------------- white space around parts

  lemma {:induction false} TrimAround(s: Bytes, w: byte)
    requires IsFws(w)
    ensures TrimFws([w] + s) == TrimFws(s) == TrimFws(s + [w])
  {
    assert ([w] + s)[1..] == s;
    if s == [] {
      assert [] + [w] == [w] && [w][1..] == [];
    } else if IsFws(s[0]) {
      TrimAround(s[1..], w);
      assert (s + [w])[1..] == s[1..] + [w];
    } else {
      assert (s + [w])[..|s|] == s;
    }
  }

  lemma {:induction false} TrimKeeps(s: Bytes, c: byte)
    requires c in s && !IsFws(c)
    ensures c in TrimFws(s)
    decreases |s|
  {
    if IsFws(s[0]) {
      assert s == [s[0]] + s[1..];
      TrimKeeps(s[1..], c);
    } else if IsFws(s[|s| - 1]) {
      assert s == s[..|s| - 1] + [s[|s| - 1]];
      TrimKeeps(s[..|s| - 1], c);
    }
  }

  lemma {:induction false} TrimmedEnds(s: Bytes)
    ensures var t := TrimFws(s); t != [] ==> !IsFws(t[0]) && !IsFws(t[|t| - 1])
    ensures forall b :: b in TrimFws(s) ==> b in s
    decreases |s|
  {
    if s != [] {
      if IsFws(s[0]) {
        TrimmedEnds(s[1..]);
      } else if IsFws(s[|s| - 1]) {
        TrimmedEnds(s[..|s| - 1]);
      }
    }
  }

  lemma IndexAround(p: Bytes, w: byte)
    requires w != EQ
    ensures IndexOf(p + [w], EQ) == IndexOf(p, EQ)
    ensures IndexOf([w] + p, EQ) == if IndexOf(p, EQ) < 0 then -1 else IndexOf(p, EQ) + 1
  {
    IndexFacts(p, EQ);
    var i := IndexOf(p, EQ);
    if i < 0 {
      IndexNone(p + [w], EQ);
    } else {
      assert (p + [w])[..i] == p[..i];
      IndexIs(p + [w], EQ, i);
    }
    assert ([w] + p)[1..] == p;
  }

  /** A part is read from its trimmed text and from what its first EQ separates. */
  lemma ReadAlike(p: Bytes, q: Bytes)
    requires TrimFws(p) == TrimFws(q) && (IndexOf(p, EQ) < 0 <==> IndexOf(q, EQ) < 0)
    requires var i, j := IndexOf(p, EQ), IndexOf(q, EQ);
             i >= 0 ==> TrimFws(p[..i]) == TrimFws(q[..j]) && TrimFws(p[i + 1..]) == TrimFws(q[j + 1..])
    ensures ReadPart(p) == ReadPart(q)
  {
    hide TrimFws, IndexOf, ValidTagName;
  }

  lemma ReadBefore(p: Bytes, w: byte)
    requires IsFws(w)
    ensures ReadPart([w] + p) == ReadPart(p)
  {
    TrimAround(p, w);
    IndexAround(p, w);
    hide TrimFws, IndexOf, ReadPart, IsFws;
    var i := IndexOf(p, EQ);
    if i >= 0 {
      TrimAround(p[..i], w);
      assert ([w] + p)[..i + 1] == [w] + p[..i];
      assert ([w] + p)[i + 2..] == p[i + 1..];
    }
    ReadAlike([w] + p, p);
  }

  lemma ReadAfter(p: Bytes, w: byte)
    requires IsFws(w)
    ensures ReadPart(p + [w]) == ReadPart(p)
  {
    TrimAround(p, w);
    IndexAround(p, w);
    hide TrimFws, IndexOf, ReadPart, IsFws;
    var i := IndexOf(p, EQ);
    if i >= 0 {
      TrimAround(p[i + 1..], w);
      assert (p + [w])[..i] == p[..i];
      assert (p + [w])[i + 1..] == p[i + 1..] + [w];
    }
    ReadAlike(p + [w], p);
  }

  lemma {:induction false} ReadSame(a: seq<Bytes>, b: seq<Bytes>)
    requires |a| == |b| && forall i :: 0 <= i < |a| ==> ReadPart(a[i]) == ReadPart(b[i])
    ensures ReadParts(a) == ReadParts(b)
  {
    hide ReadPart;
    if a != [] {
      ReadSame(a[..|a| - 1], b[..|b| - 1]);
    }
  }

  /** White space at the ends of a tag list does not matter. */
  lemma ListAround(s: Bytes, w: byte)
    requires IsWsp(w)
    ensures TagList([w] + s) == TagList(s) == TagList(s + [w])
  {
    hide ReadPart, ReadParts, Cut, Sound;
    var parts := Cut(s, SEMI);
    CutHead(w, s, SEMI);
    CutSnoc(s, w, SEMI);
    ReadBefore(parts[0], w);
    ReadAfter(parts[|parts| - 1], w);
    ReadSame(Cut([w] + s, SEMI), parts);
    ReadSame(Cut(s + [w], SEMI), parts);
  }

  lemma {:induction false} ListTrimmedLeft(s: Bytes)
    ensures TagList(TrimLeftWsp(s)) == TagList(s)
  {
    hide TagList;
    if s != [] && IsWsp(s[0]) {
      ListTrimmedLeft(s[1..]);
      ListAround(s[1..], s[0]);
      assert [s[0]] + s[1..] == s;
    }
  }

  lemma {:induction false} ListTrimmedRight(s: Bytes)
    ensures TagList(TrimRightWsp(s)) == TagList(s)
  {
    hide TagList;
    if s != [] && IsWsp(s[|s| - 1]) {
      var init, last := s[..|s| - 1], s[|s| - 1];
      ListTrimmedRight(init);
      ListAround(init, last);
      assert init + [last] == s;
    }
  }

  lemma ListTrimmed(s: Bytes)
    ensures TagList(TrimRightWsp(TrimLeftWsp(s))) == TagList(s)
  {
    hide TagList, TrimLeftWsp, TrimRightWsp;
    ListTrimmedLeft(s);
    ListTrimmedRight(TrimLeftWsp(s));
  }

  /** The tag list of a field is that of the text after its colon, line breaks removed. */
  lemma ListOfField(raw: Bytes)
    ensures TagList(FieldValue(raw)) == TagList(Unfolded(raw[IndexOf(raw, COLON) + 1..]))
  {
    hide TagList, Unfolded, IndexOf, TrimLeftWsp, TrimRightWsp;
    ListTrimmed(Unfolded(raw[IndexOf(raw, COLON) + 1..]));
  }

  // ---------------------------------------------------------------- names of tags

  /** A letter, then letters, digits and underscores. */
  ghost predicate IsTagName(n: Bytes) {
    && n != [] && (97 <= n[0] <= 122 || 65 <= n[0] <= 90)
    && forall i :: 0 <= i < |n| ==> 97 <= n[i] <= 122 || 65 <= n[i] <= 90 || 48 <= n[i] <= 57 || n[i] == 95
  }

  /** The part around its first equals sign, the white space at the ends of both sides aside. */
  ghost predicate Reads(part: Bytes, front: Bytes, back: Bytes, name: Bytes, value: Bytes) {
    part == front + [61] + back && 61 !in front && TrimFws(front) == name && TrimFws(back) == value
  }

  lemma ReadsFirst(part: Bytes, front: Bytes, back: Bytes, name: Bytes, value: Bytes)
    requires Reads(part, front, back, name, value)
    ensures IndexOf(part, EQ) == |front| && part[..|front|] == front && part[|front| + 1..] == back && TrimFws(part) != []
  {
    assert part[..|front|] == front;
    IndexIs(part, EQ, |front|);
    TrimKeeps(part, EQ);
  }

  lemma PairReads(part: Bytes)
    requires ReadPart(part).Pair?
    ensures var i := IndexOf(part, EQ);
            i >= 0 && Reads(part, part[..i], part[i + 1..], ReadPart(part).name, ReadPart(part).value)
            && ValidTagName(ReadPart(part).name)
  {
    SplitAtFirst(part, EQ);
    hide TrimFws, ValidTagName;
  }

  /** A part is read as a name and a value exactly when there is such a name before its first
      equals sign, white space and line breaks aside. */
  lemma PartIsExact(part: Bytes, name: Bytes, value: Bytes)
    ensures ReadPart(part) == Pair(name, value) <==>
              IsTagName(name) && exists front, back :: Reads(part, front, back, name, value)
    ensures ReadPart(part).Blank? <==> TrimFws(part) == []
  {
    TagNameIs(name);
    hide TrimFws, IndexOf, Reads, IsTagName, ValidTagName;
    forall front, back | Reads(part, front, back, name, value) && IsTagName(name)
      ensures ReadPart(part) == Pair(name, value)
    {
      ReadsFirst(part, front, back, name, value);
      ReadsPair(part, front, back, name, value);
    }
    if ReadPart(part) == Pair(name, value) {
      PairReads(part);
    }
  }

  lemma ReadsPair(part: Bytes, front: Bytes, back: Bytes, name: Bytes, value: Bytes)
    requires Reads(part, front, back, name, value) && ValidTagName(name)
    ensures ReadPart(part) == Pair(name, value)
  {
    ReadsFirst(part, front, back, name, value);
    hide TrimFws, IndexOf, ValidTagName;
  }

  lemma TagNameIs(name: Bytes)
    ensures ValidTagName(name) <==> IsTagName(name)
  {
  }

  // ---------------------------------------------------------------- one written tag

  /** What a written tag is read as. */
  function PartOf(t: Tag): Part {
    var name := Unfolded(t.name);
    if ValidTagName(name) then Pair(name, TrimFws(Unfolded(t.value))) else Bad
  }

  function PartsOf(tags: seq<Tag>): (r: seq<Part>)
    ensures |r| == |tags|
    ensures forall i :: 0 <= i < |tags| ==> r[i] == PartOf(tags[i])
  {
    seq(|tags|, i requires 0 <= i < |tags| => PartOf(tags[i]))
  }

  lemma {:induction false} UnfoldedKeeps(s: Bytes)
    ensures forall b :: b in Unfolded(s) <==> b in s && !IsEol(b)
  {
    if s != [] {
      UnfoldedKeeps(s[1..]);
      assert s == [s[0]] + s[1..];
    }
  }

  lemma UnfoldedOne(b: byte)
    ensures Unfolded([b]) == if IsEol(b) then [] else [b]
  {
    assert [b][1..] == [];
  }

  /** Taking out line breaks leaves the ends that are not white space. */
  lemma UnfoldedEnds(s: Bytes)
    requires s != [] && !IsFws(s[0]) && !IsFws(s[|s| - 1])
    ensures var u := Unfolded(s); u != [] && u[0] == s[0] && u[|u| - 1] == s[|s| - 1]
  {
    var n := |s| - 1;
    UnfoldedOne(s[0]);
    UnfoldedOne(s[n]);
    UnfoldedConcat([s[0]], s[1..]);
    UnfoldedConcat(s[..n], [s[n]]);
    assert s == [s[0]] + s[1..] && s == s[..n] + [s[n]];
  }

  lemma UnfoldedLead(lead: Bytes)
    requires lead == [SP] || lead == NEW_LINE
    ensures var u := Unfolded(lead); forall k :: 0 <= k < |u| ==> IsFws(u[k])
    ensures EQ !in Unfolded(lead) && SEMI !in Unfolded(lead)
  {
    LeadIsFws(lead);
    UnfoldedKeeps(lead);
  }

  /** The text of a tag before its semicolon, line breaks removed. */
  function PlainText(lead: Bytes, name: Bytes, value: Bytes): Bytes {
    Unfolded(lead) + Unfolded(name) + [EQ] + Unfolded(value)
  }

  lemma UnfoldedText(lead: Bytes, name: Bytes, value: Bytes)
    ensures Unfolded(lead + name + [EQ] + value) == PlainText(lead, name, value)
  {
    UnfoldedConcat(lead + name + [EQ], value);
    UnfoldedConcat(lead + name, [EQ]);
    UnfoldedConcat(lead, name);
    UnfoldedOne(EQ);
  }

  lemma ReadText(lead: Bytes, name: Bytes, value: Bytes)
    requires (lead == [SP] || lead == NEW_LINE) && EQ !in name
    requires name != [] && !IsFws(name[0]) && !IsFws(name[|name| - 1])
    ensures ReadPart(PlainText(lead, name, value)) == PartOf(Tag(lead, name, value))
  {
    UnfoldedLead(lead);
    UnfoldedKeeps(name);
    UnfoldedEnds(name);
    hide Unfolded, TrimFws, ValidTagName, IndexOf;
    var front, n := Unfolded(lead) + Unfolded(name), Unfolded(name);
    TrimFront(Unfolded(lead), n);
    FirstEq(front, Unfolded(value));
    var text := PlainText(lead, name, value);
    TrimKeeps(text, EQ);
    assert text[|front| + 1..] == Unfolded(value);
  }

  lemma PlainTextHasNoSemicolon(lead: Bytes, name: Bytes, value: Bytes)
    requires (lead == [SP] || lead == NEW_LINE) && SEMI !in name && SEMI !in value
    ensures SEMI !in PlainText(lead, name, value)
  {
    UnfoldedLead(lead);
    UnfoldedKeeps(name);
    UnfoldedKeeps(value);
  }

  lemma ReadOne(part: Bytes)
    ensures ReadParts([part]) == if ReadPart(part).Blank? then [] else [ReadPart(part)]
  {
    assert [part][..0] == [];
  }

  /** One tag at the front of a text. */
  lemma ReadTag(t: Tag, rest: Bytes)
    requires GoodTag(t)
    ensures ReadParts(Cut(Unfolded(TagText(t)) + rest, SEMI)) == [PartOf(t)] + ReadParts(Cut(rest, SEMI))
  {
    UnfoldedText(t.lead, t.name, t.value);
    UnfoldedConcat(t.lead + t.name + [EQ] + t.value, [SEMI]);
    UnfoldedOne(SEMI);
    PlainTextHasNoSemicolon(t.lead, t.name, t.value);
    ReadText(t.lead, t.name, t.value);
    hide Unfolded, PlainText, Cut, ReadPart, ReadParts;
    var text := PlainText(t.lead, t.name, t.value);
    CutPrefix(text, SEMI, rest);
    ReadConcat([text], Cut(rest, SEMI));
    ReadOne(text);
  }

  lemma {:induction false} ReadAllTags(tags: seq<Tag>, rest: Bytes)
    requires GoodTags(tags)
    ensures ReadParts(Cut(Unfolded(TagsText(tags)) + rest, SEMI)) == PartsOf(tags) + ReadParts(Cut(rest, SEMI))
  {
    hide GoodTag, TagText, Cut, ReadParts, PartOf;
    if tags == [] {
      assert Unfolded(TagsText(tags)) + rest == rest;
    } else {
      var text, more := TagText(tags[0]), TagsText(tags[1..]);
      UnfoldedConcat(text, more);
      hide Unfolded;
      assert Unfolded(TagsText(tags)) + rest == Unfolded(text) + (Unfolded(more) + rest);
      ReadTag(tags[0], Unfolded(more) + rest);
      ReadAllTags(tags[1..], rest);
      assert PartsOf(tags) == [PartOf(tags[0])] + PartsOf(tags[1..]);
    }
  }

  /** What the b= tag is read as when v comes after it. */
  function SignaturePart(v: Bytes): Part {
    Pair(B_TAG, TrimFws(Unfolded(UpToSemicolon(v))))
  }

  lemma BTag()
    ensures Unfolded(B_TAG) == B_TAG && ValidTagName(B_TAG)
  {
    UnfoldedOne(98);
  }

  lemma ReadSignaturePart(lead: Bytes, v: Bytes)
    requires lead == [SP] || lead == NEW_LINE
    ensures var text := PlainText(lead, B_TAG, UpToSemicolon(v));
            ReadPart(text) == SignaturePart(v) && SEMI !in text
  {
    BTag();
    IndexFacts(v, SEMI);
    hide Unfolded, ReadPart, TrimFws, IndexOf, PlainText;
    PlainTextHasNoSemicolon(lead, B_TAG, UpToSemicolon(v));
    ReadText(lead, B_TAG, UpToSemicolon(v));
  }

  lemma TextWithSemicolon(lead: Bytes, w: Bytes, x: Bytes)
    ensures PlainText(lead, B_TAG, w + [SEMI] + x) == PlainText(lead, B_TAG, w) + [SEMI] + Unfolded(x)
  {
    UnfoldedConcat(w + [SEMI], x);
    UnfoldedConcat(w, [SEMI]);
    UnfoldedOne(SEMI);
    hide Unfolded;
    assert PlainText(lead, B_TAG, w + [SEMI] + x) == Unfolded(lead) + Unfolded(B_TAG) + [EQ] + (Unfolded(w) + [SEMI] + Unfolded(x));
  }

  /** The b= tag, and whatever tags a semicolon after it begins. */
  lemma ReadLast(lead: Bytes, v: Bytes) returns (more: seq<Part>)
    requires lead == [SP] || lead == NEW_LINE
    ensures ReadParts(Cut(Unfolded(lead + B_TAG + [EQ] + v), SEMI)) == [SignaturePart(v)] + more
    ensures SEMI !in v ==> more == []
  {
    hide Unfolded, PlainText, Cut, ReadPart, ReadParts, IndexOf;
    UnfoldedText(lead, B_TAG, v);
    ReadSignaturePart(lead, v);
    var w := UpToSemicolon(v);
    var text := PlainText(lead, B_TAG, w);
    ReadOne(text);
    IndexFacts(v, SEMI);
    if IndexOf(v, SEMI) < 0 {
      CutPlain(text, SEMI);
      more := [];
    } else {
      var x := v[IndexOf(v, SEMI) + 1..];
      assert v == w + [SEMI] + x;
      TextWithSemicolon(lead, w, x);
      CutPrefix(text, SEMI, Unfolded(x));
      ReadConcat([text], Cut(Unfolded(x), SEMI));
      more := ReadParts(Cut(Unfolded(x), SEMI));
    }
  }

  /** What follows the colon of a signed field. */
  lemma FieldText(o: Options, length: Bytes, bh: Bytes, v: Bytes)
    ensures var raw := FieldFront(o, length, bh) + v;
            raw[IndexOf(raw, COLON) + 1..] == TagsText(SignatureTags(o, length, bh)) + (LastLead(o) + B_TAG + [EQ] + v)
  {
    hide SignatureTags, TagsText, IndexOf;
    NameHasNoColon();
    var text := TagsText(SignatureTags(o, length, bh)) + (LastLead(o) + B_TAG + [EQ] + v);
    assert FieldFront(o, length, bh) + v == SIGNATURE_NAME + [COLON] + text;
    HeaderCanon.SplitAtColon(SIGNATURE_NAME, text);
  }

  lemma LastLeadKinds(o: Options)
    ensures LastLead(o) == [SP] || LastLead(o) == NEW_LINE
  {
  }

  lemma ReadTagsAndLast(tags: seq<Tag>, lead: Bytes, v: Bytes) returns (more: seq<Part>)
    requires GoodTags(tags) && (lead == [SP] || lead == NEW_LINE)
    ensures var text := TagsText(tags) + (lead + B_TAG + [EQ] + v);
            ReadParts(Cut(Unfolded(text), SEMI)) == PartsOf(tags) + [SignaturePart(v)] + more
    ensures SEMI !in v ==> more == []
  {
    hide TagsText, Unfolded, ReadParts, Cut, PartsOf, SignaturePart, IndexOf, GoodTags;
    var last := lead + B_TAG + [EQ] + v;
    UnfoldedConcat(TagsText(tags), last);
    ReadAllTags(tags, Unfolded(last));
    more := ReadLast(lead, v);
    assert PartsOf(tags) + ([SignaturePart(v)] + more) == PartsOf(tags) + [SignaturePart(v)] + more;
  }

  /** The tags of a signed field: those written, the signature, and whatever a semicolon in
      the lines after it begins. */
  lemma ReadField(o: Options, length: Bytes, bh: Bytes, v: Bytes) returns (more: seq<Part>)
    requires CleanOptions(o) && CleanValue(length) && CleanValue(bh)
    ensures var tags := PartsOf(SignatureTags(o, length, bh)) + [SignaturePart(v)] + more;
            TagList(FieldValue(FieldFront(o, length, bh) + v)) == if Sound(tags) then Some(tags) else None
    ensures SEMI !in v ==> more == []
  {
    TagsGood(o, length, bh);
    LastLeadKinds(o);
    FieldText(o, length, bh, v);
    hide SignatureTags, TagsText, Sound, CleanOptions, CleanValue, FieldFront, FieldValue, Unfolded, ReadParts, Cut, PartsOf,
         SignaturePart, IndexOf, LastLead, GoodTags;
    ListOfField(FieldFront(o, length, bh) + v);
    more := ReadTagsAndLast(SignatureTags(o, length, bh), LastLead(o), v);
  }
}
