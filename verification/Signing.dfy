/** The bytes a DKIM signer and a DKIM verifier hash (internal/dkim/canon.go, verify.go,
    dkimtest/sign.go; sections 3.5 and 3.7 of RFC 6376). Hashing, signing and base64 are
    functions given from outside. */
module Signing {
  import opened Bytes
  import opened BodyCanon
  import opened BodyAlgebra
  import opened HeaderCanon
  import opened HeaderSection
  import opened SelectHeaders
  import Names

  // ---------------------------------------------------------------- removing the b= value

  /** s without white space and line breaks at either end. */
  function TrimFws(s: Bytes): Bytes {
    if s == [] then []
    else if IsFws(s[0]) then TrimFws(s[1..])
    else if IsFws(s[|s| - 1]) then TrimFws(s[..|s| - 1])
    else s
  }

  const B_TAG: Bytes := [98]

  /** The line break at the end of seg. */
  function TrailingEol(seg: Bytes): Bytes {
    if EndsWith(seg, CRLF) then CRLF else if EndsWith(seg, [LF]) then [LF] else []
  }

  /** stripFWS: s without white space and line breaks. */
  function NoFws(s: Bytes): Bytes {
    if s == [] then [] else (if IsFws(s[0]) then [] else [s[0]]) + NoFws(s[1..])
  }

  /** One tag, with its semicolon if it has one: the value of b= is removed. */
  function StripTag(seg: Bytes, ended: bool): Bytes {
    var eq := IndexOf(seg, EQ);
    if eq >= 0 && TrimFws(seg[..eq]) == B_TAG
    then seg[..eq + 1] + (if ended then [SEMI] else TrailingEol(seg))
    else seg
  }

  function StripTags(rest: Bytes): Bytes
    decreases |rest|
  {
    if rest == [] then []
    else
      var end := IndexOf(rest, SEMI);
      if end < 0 then StripTag(rest, false)
      else StripTag(rest[..end + 1], true) + StripTags(rest[end + 1..])
  }

  /** A raw DKIM-Signature field with the value of its b= tag removed. */
  function StripSignature(raw: Bytes): Bytes {
    var colon := IndexOf(raw, COLON);
    if colon < 0 then raw else raw[..colon + 1] + StripTags(raw[colon + 1..])
  }

  method StripOneTag(seg: Bytes, ended: bool) returns (piece: Bytes)
    requires seg != []
    ensures piece == StripTag(seg, ended)
  {
    var eq := IndexOf(seg, EQ);
    if eq < 0 || TrimFws(seg[..eq]) != B_TAG {
      return seg;
    }
    piece := seg[..eq + 1];
    if ended {
      piece := piece + [SEMI];
    } else if EndsWith(seg, [LF]) {
      var trail := |seg| - 1;
      if trail > 0 && seg[trail - 1] == CR {
        trail := trail - 1;
      }
      EolAtEnd(seg, trail);
      piece := piece + seg[trail..];
    } else {
      NoEolAtEnd(seg);
      assert piece + [] == piece;
    }
  }

  lemma NoEolAtEnd(seg: Bytes)
    requires !EndsWith(seg, [LF])
    ensures TrailingEol(seg) == []
  {
    var n := |seg|;
    if n > 1 {
      assert seg[n - 2..] == [seg[n - 2], seg[n - 1]];
      assert seg[n - 1..] == [seg[n - 1]];
    }
  }

  lemma StripStep(rest: Bytes)
    requires rest != []
    ensures var end := IndexOf(rest, SEMI);
            StripTags(rest) == if end < 0 then StripTag(rest, false)
                               else StripTag(rest[..end + 1], true) + StripTags(rest[end + 1..])
  {
  }

  method StripAllTags(tags: Bytes) returns (out: Bytes)
    ensures out == StripTags(tags)
  {
    hide StripTag, StripTags, IndexOf;
    var rest := tags;
    out := [];
    var more := true;
    while more && |rest| > 0
      invariant if more then out + StripTags(rest) == StripTags(tags) else out == StripTags(tags)
      decreases |rest|, more
    {
      StripStep(rest);
      var end := IndexOf(rest, SEMI);
      var seg := if end >= 0 then rest[..end + 1] else rest;
      var piece := StripOneTag(seg, end >= 0);
      if end < 0 {
        out, more := out + piece, false;
      } else {
        Regroup(out, piece, StripTags(rest[end + 1..]));
        out, rest := out + piece, rest[end + 1..];
      }
    }
    if more {
      StripNothing(rest);
    }
  }

  lemma StripNothing(rest: Bytes)
    ensures rest == [] ==> StripTags(rest) == []
  {
  }

  method StripSignatureValue(raw: Bytes) returns (out: Bytes)
    ensures out == StripSignature(raw)
  {
    var colon := IndexOf(raw, COLON);
    if colon < 0 {
      return raw;
    }
    var tags := StripAllTags(raw[colon + 1..]);
    out := raw[..colon + 1] + tags;
  }

  lemma EolAtEnd(seg: Bytes, trail: nat)
    requires seg != [] && EndsWith(seg, [LF])
    requires trail == if |seg| > 1 && seg[|seg| - 2] == CR then |seg| - 2 else |seg| - 1
    ensures seg[trail..] == TrailingEol(seg)
  {
    assert seg[|seg| - 1..][0] == seg[|seg| - 1];
    if |seg| > 1 {
      assert seg[|seg| - 2..] == [seg[|seg| - 2], LF];
    }
  }

  // ---------------------------------------------------------------- what is hashed

  /** The canonical forms of some raw fields, one after the other. */
  function CanonAll(raws: seq<Bytes>, relaxed: bool): Bytes {
    if raws == [] then []
    else CanonAll(raws[..|raws| - 1], relaxed) + CanonHeader(raws[|raws| - 1], relaxed)
  }

  function TrimCrlf(s: Bytes): Bytes {
    if EndsWith(s, CRLF) then s[..|s| - 2] else s
  }

  /** The header bytes under a signature: the selected fields, then the signature field
      itself without its value and without its final line break. */
  function HeaderInput(hs: seq<Header>, names: seq<Bytes>, field: Bytes, relaxed: bool): Bytes {
    CanonAll(Selected(hs, names, |names|), relaxed) + TrimCrlf(CanonHeader(field, relaxed))
  }

  /** The body bytes under a signature. */
  function BodyInput(body: Bytes, relaxed: bool, limit: int): Bytes {
    Limited(CanonBody(NormalizeEol(body), relaxed), limit)
  }

  method HashedHeader(hs: seq<Header>, names: seq<Bytes>, field: Bytes, relaxed: bool) returns (hashed: Bytes)
    ensures hashed == HeaderInput(hs, names, field, relaxed)
  {
    var raws := Select(hs, names);
    hashed := [];
    for i := 0 to |raws|
      invariant hashed == CanonAll(raws[..i], relaxed)
    {
      assert raws[..i + 1][..i] == raws[..i];
      var c := CanonicalHeader(raws[i], relaxed);
      hashed := hashed + c;
    }
    assert raws[..|raws|] == raws;
    var last := CanonicalHeader(field, relaxed);
    hashed := hashed + TrimCrlf(last);
  }

  method HashedBody(body: Bytes, relaxed: bool, limit: int) returns (hashed: Bytes, total: nat)
    ensures hashed == BodyInput(body, relaxed, limit)
    ensures total == |CanonBody(body, relaxed)|
  {
    var text := NormalizeLineEndings(body);
    var w := WriteCanonBody(text, relaxed, limit);
    NormalizingKeepsCanonBody(body, relaxed);
    hashed, total := w.sink, w.total;
  }

  /** The canonical form of a field ends in a line break. */
  lemma FormEndsInCrlf(raw: Bytes, relaxed: bool)
    requires COLON in raw
    ensures EndsWith(CanonHeader(raw, relaxed), CRLF)
  {
    var n := NormalizeEol(raw);
    if relaxed {
      NormalizedColon(false, raw);
      IndexFacts(n, COLON);
      hide Lower, TrimRightWsp, RelaxedValue;
      var front := Lower(TrimRightWsp(n[..IndexOf(n, COLON)])) + [COLON] + RelaxedValue(n[IndexOf(n, COLON) + 1..]);
      CrlfIsEnd(front);
    } else if !EndsWith(n, CRLF) {
      CrlfIsEnd(n);
    }
  }

  lemma CrlfIsEnd(front: Bytes)
    ensures EndsWith(front + CRLF, CRLF)
  {
  }

  /** The forms stand one after the other, each once and in their order. */
  lemma {:induction false} CanonAllConcat(a: seq<Bytes>, b: seq<Bytes>, relaxed: bool)
    ensures CanonAll(a + b, relaxed) == CanonAll(a, relaxed) + CanonAll(b, relaxed)
    ensures |b| == 1 ==> CanonAll(b, relaxed) == CanonHeader(b[0], relaxed)
  {
    hide CanonHeader;
    if b == [] {
      assert a + b == a;
    } else {
      var n := |b| - 1;
      assert (a + b)[..|a| + n] == a + b[..n];
      CanonAllConcat(a, b[..n], relaxed);
    }
  }

  /** What is hashed, and a line break, are the canonical forms of the selected fields and of
      the signature field: all of these bytes are hashed but the last line break. */
  lemma HashedWithoutLastBreak(hs: seq<Header>, names: seq<Bytes>, field: Bytes, relaxed: bool)
    requires COLON in field
    ensures HeaderInput(hs, names, field, relaxed) + CRLF == CanonAll(Selected(hs, names, |names|) + [field], relaxed)
  {
    FormEndsInCrlf(field, relaxed);
    CanonAllConcat(Selected(hs, names, |names|), [field], relaxed);
    hide CanonAll, CanonHeader, Selected, TrimCrlf, EndsWith;
    var form := CanonHeader(field, relaxed);
    BreakTrimmed(form);
    assert [field][0] == field;
    Appended(CanonAll(Selected(hs, names, |names|), relaxed), TrimCrlf(form), CRLF);
  }

  lemma BreakTrimmed(form: Bytes)
    requires EndsWith(form, CRLF)
    ensures TrimCrlf(form) + CRLF == form
  {
  }

  lemma Appended(a: Bytes, b: Bytes, c: Bytes)
    ensures a + b + c == a + (b + c)
  {
  }

  // ---------------------------------------------------------------- the signature field

  /** One tag of a signature: lead is the white space before it. */
  datatype Tag = Tag(lead: Bytes, name: Bytes, value: Bytes)

  function TagText(t: Tag): Bytes {
    t.lead + t.name + [EQ] + t.value + [SEMI]
  }

  function TagsText(tags: seq<Tag>): Bytes {
    if tags == [] then [] else TagText(tags[0]) + TagsText(tags[1..])
  }

  const SIGNATURE_NAME: Bytes := B("DKIM-Signature")
  const NEW_LINE: Bytes := [CR, LF, TAB]

  /** The options of a signer. extra holds further tags; length is the l= value, if set. */
  datatype Options = Options(
    algorithm: Bytes, headerRelaxed: bool, bodyRelaxed: bool, domain: Bytes, selector: Bytes,
    auid: Bytes, timestamp: Bytes, expire: Bytes, lengthSet: bool, length: int, names: seq<Bytes>, extra: seq<Tag>)

  datatype Crypto = Crypto(hash: Bytes -> Bytes, sign: Bytes -> Bytes, base64: Bytes -> Bytes)

  /** The decimal numeral of n. */
  function DecimalText(n: nat): Bytes {
    B(Names.Decimal(n))
  }

  function CanonName(relaxed: bool): Bytes {
    if relaxed then B("relaxed") else B("simple")
  }

  function JoinNames(names: seq<Bytes>): Bytes {
    if names == [] then []
    else if |names| == 1 then names[0]
    else names[0] + [COLON] + JoinNames(names[1..])
  }

  /** The tags of a line: the first follows a fold, the others a space. */
  function Lined(tags: seq<Tag>, lead: Bytes): seq<Tag> {
    if tags == [] then [] else [tags[0].(lead := lead)] + Lined(tags[1..], [SP])
  }

  function OptionalTag(name: string, value: Bytes): seq<Tag> {
    if value == [] then [] else [Tag([], B(name), value)]
  }

  function FirstTags(o: Options): seq<Tag> {
    [Tag([], B("v"), B("1")), Tag([], B("a"), o.algorithm),
     Tag([], B("c"), CanonName(o.headerRelaxed) + B("/") + CanonName(o.bodyRelaxed)),
     Tag([], B("d"), o.domain), Tag([], B("s"), o.selector)]
  }

  function SecondTags(o: Options, length: Bytes): seq<Tag> {
    OptionalTag("i", o.auid) + OptionalTag("t", o.timestamp) + OptionalTag("x", o.expire)
    + OptionalTag("l", length) + [Tag([], B("h"), JoinNames(o.names))]
  }

  /** All tags before b=, given the l= value and the body hash. */
  function SignatureTags(o: Options, length: Bytes, bh: Bytes): seq<Tag> {
    Lined(FirstTags(o), [SP]) + Lined(SecondTags(o, length), NEW_LINE)
    + Lined([Tag([], B("bh"), bh)], NEW_LINE) + Lined(o.extra, NEW_LINE)
  }

  /** The field up to and including "b=". */
  function FieldFront(o: Options, length: Bytes, bh: Bytes): Bytes {
    SIGNATURE_NAME + [COLON]
    + (TagsText(SignatureTags(o, length, bh)) + ((if o.extra == [] then NEW_LINE else [SP]) + B_TAG + [EQ]))
  }

  /** The body limit the signer writes in l=; -1 when it writes none. */
  function WrittenLimit(o: Options, total: nat): int {
    if !o.lengthSet then -1 else if o.length < 0 then total else o.length
  }

  const LINE_WIDTH := 64

  /** The signature in lines of 64 characters. */
  function Folded(s: Bytes): Bytes {
    if |s| <= LINE_WIDTH then s else s[..LINE_WIDTH] + FOLD + Folded(s[LINE_WIDTH..])
  }

  const FOLD: Bytes := [CR, LF, TAB, SP]

  /** Up to 64 characters stand in one line; a longer text continues behind a fold. */
  lemma FoldedIsExact(line: Bytes, rest: Bytes)
    requires |line| <= 64
    ensures Folded(line) == line
    ensures |line| == 64 && rest != [] ==> Folded(line + rest) == line + [13, 10, 9, 32] + Folded(rest)
  {
    if |line| == 64 {
      assert (line + rest)[..64] == line && (line + rest)[64..] == rest;
    }
  }

  method FoldSignature(s: Bytes) returns (out: Bytes)
    ensures out == Folded(s)
  {
    out := [];
    var i := 0;
    ghost var done: Bytes := [];
    while i < |s|
      invariant 0 <= i
      invariant i == 0 ==> done == [] && out == []
      invariant i > 0 ==> done == out + FOLD
      invariant if i < |s| then done + Folded(s[i..]) == Folded(s) else out == Folded(s)
      decreases |s| - i
    {
      var chunk := if i + LINE_WIDTH < |s| then s[i..i + LINE_WIDTH] else s[i..];
      FoldedStep(s, i);
      if i > 0 {
        out := out + [CR, LF, TAB, SP];
      }
      assert out == done;
      out := out + chunk;
      if i + LINE_WIDTH < |s| {
        Regroup(done, chunk + FOLD, Folded(s[i + LINE_WIDTH..]));
        Regroup(done, chunk, FOLD);
      }
      done := out + FOLD;
      i := i + LINE_WIDTH;
    }
  }

  lemma FoldedStep(s: Bytes, i: nat)
    requires i < |s|
    ensures Folded(s[i..]) == if i + LINE_WIDTH < |s| then s[i..i + LINE_WIDTH] + FOLD + Folded(s[i + LINE_WIDTH..])
                              else s[i..]
  {
    var rest := s[i..];
    if i + LINE_WIDTH < |s| {
      assert rest[..LINE_WIDTH] == s[i..i + LINE_WIDTH] && rest[LINE_WIDTH..] == s[i + LINE_WIDTH..];
    }
  }

  datatype Signed = NotSigned(error: LimitError) | Signed(message: Bytes, field: Bytes, unsigned: Bytes, length: int)

  /** Sign: the message with its signature field in front. field is that field, unsigned is
      what was hashed of it, length is the body limit. */
  function Sign(message: Bytes, o: Options, c: Crypto): Signed {
    match ParseMessage(message, HeaderSection.DEFAULT_LIMITS)
    case TooLarge(e) => NotSigned(e)
    case Message(hs, _, body) =>
      var limit := if o.lengthSet then o.length else -1;
      var bh := c.base64(c.hash(BodyInput(body, o.bodyRelaxed, limit)));
      var total := |CanonBody(body, o.bodyRelaxed)|;
      var length := if !o.lengthSet then [] else DecimalText(WrittenLimit(o, total));
      var front := FieldFront(o, length, bh);
      var unsigned := front + CRLF;
      var sig := c.base64(c.sign(c.hash(HeaderInput(hs, o.names, unsigned, o.headerRelaxed))));
      var field := front + Folded(sig) + CRLF;
      Signed(field + message, field, unsigned, limit)
  }

  method SignMessage(message: Bytes, o: Options, c: Crypto) returns (s: Signed)
    ensures s == Sign(message, o, c)
  {
    var msg := ParseBytes(message, HeaderSection.DEFAULT_LIMITS);
    if msg.TooLarge? {
      return NotSigned(msg.error);
    }
    var limit := if o.lengthSet then o.length else -1;
    var hashed, total := HashedBody(msg.body, o.bodyRelaxed, limit);
    var bh := c.base64(c.hash(hashed));
    var length := if !o.lengthSet then [] else DecimalText(WrittenLimit(o, total));
    var front := FieldFront(o, length, bh);
    var input := HashedHeader(msg.headers, o.names, front + CRLF, o.headerRelaxed);
    var sig := FoldSignature(c.base64(c.sign(c.hash(input))));
    var field := front + sig + CRLF;
    s := Signed(field + message, field, front + CRLF, limit);
  }
}
