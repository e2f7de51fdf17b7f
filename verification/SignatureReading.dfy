/** Reading a DKIM-Signature field (internal/dkim/taglist.go, signature.go; sections 3.2 and
    3.5 of RFC 6376): what the verifier takes from it to decide what to hash. */
module SignatureReading {
  import opened Bytes
  import opened Wrappers
  import opened Signing

  // ---------------------------------------------------------------- tag lists

  /** strings.Split */
  function Cut(s: Bytes, c: byte): (r: seq<Bytes>)
    ensures |r| >= 1
    decreases |s|
  {
    if s == [] then [[]]
    else
      var rest := Cut(s[1..], c);
      if s[0] == c then [[]] + rest else [[s[0]] + rest[0]] + rest[1..]
  }

  predicate IsLetter(c: byte) {
    97 <= c <= 122 || 65 <= c <= 90
  }

  predicate IsDigitByte(c: byte) {
    48 <= c <= 57
  }

  predicate TagChar(c: byte) {
    IsLetter(c) || IsDigitByte(c) || c == 95
  }

  predicate ValidTagName(n: Bytes) {
    n != [] && IsLetter(n[0]) && forall i :: 0 <= i < |n| ==> TagChar(n[i])
  }

  /** What stands between two semicolons. */
  datatype Part = Blank | Bad | Pair(name: Bytes, value: Bytes)

  function ReadPart(part: Bytes): Part {
    var eq := IndexOf(part, EQ);
    if TrimFws(part) == [] then Blank
    else if eq < 0 then Bad
    else
      var name := TrimFws(part[..eq]);
      if ValidTagName(name) then Pair(name, TrimFws(part[eq + 1..])) else Bad
  }

  /** All parts that are not blank. */
  function ReadParts(parts: seq<Bytes>): seq<Part> {
    if parts == [] then []
    else
      var last := ReadPart(parts[|parts| - 1]);
      ReadParts(parts[..|parts| - 1]) + if last.Blank? then [] else [last]
  }

  predicate HasName(tags: seq<Part>, name: Bytes) {
    exists i :: 0 <= i < |tags| && tags[i].Pair? && tags[i].name == name
  }

  /** Well-formed tags, no two of the same name. */
  predicate Sound(tags: seq<Part>) {
    tags == []
    || var n := |tags| - 1;
       Sound(tags[..n]) && tags[n].Pair? && !HasName(tags[..n], tags[n].name)
  }

  /** parseTagList */
  function TagList(s: Bytes): Option<seq<Part>> {
    var tags := ReadParts(Cut(s, SEMI));
    if Sound(tags) then Some(tags) else None
  }

  lemma {:induction false} SoundPrefix(tags: seq<Part>, n: nat)
    requires Sound(tags) && n <= |tags|
    ensures Sound(tags[..n])
    decreases |tags|
  {
    if n == |tags| {
      assert tags[..n] == tags;
    } else {
      SoundPrefix(tags[..|tags| - 1], n);
      assert tags[..|tags| - 1][..n] == tags[..n];
    }
  }

  lemma {:induction false} ReadConcat(a: seq<Bytes>, b: seq<Bytes>)
    ensures ReadParts(a + b) == ReadParts(a) + ReadParts(b)
  {
    hide ReadPart;
    if b == [] {
      assert a + b == a && ReadParts(a) + [] == ReadParts(a);
    } else {
      var n := |b| - 1;
      assert (a + b)[..|a + b| - 1] == a + b[..n];
      ReadConcat(a, b[..n]);
    }
  }

  /** Once a part is refused the list is. */
  lemma Refused(parts: seq<Bytes>, n: nat)
    requires n <= |parts| && !Sound(ReadParts(parts[..n]))
    ensures !Sound(ReadParts(parts))
  {
    hide ReadParts, Sound;
    ReadConcat(parts[..n], parts[n..]);
    assert parts[..n] + parts[n..] == parts;
    var some, more := ReadParts(parts[..n]), ReadParts(parts[n..]);
    assert (some + more)[..|some|] == some;
    if Sound(some + more) {
      SoundPrefix(some + more, |some|);
    }
  }

  lemma NextPart(parts: seq<Bytes>, i: nat)
    requires i < |parts|
    ensures var t := ReadPart(parts[i]);
            ReadParts(parts[..i + 1]) == ReadParts(parts[..i]) + if t.Blank? then [] else [t]
  {
    hide ReadPart;
    assert parts[..i + 1][..i] == parts[..i];
  }

  lemma NextTag(tags: seq<Part>, t: Part)
    requires Sound(tags)
    ensures Sound(tags + [t]) <==> t.Pair? && !HasName(tags, t.name)
  {
    hide HasName;
    assert (tags + [t])[..|tags|] == tags;
  }

  method ParseTagList(s: Bytes) returns (r: Option<seq<Part>>)
    ensures r == TagList(s)
  {
    hide Cut, ReadPart, ReadParts, Sound, HasName;
    var parts := Cut(s, SEMI);
    var tags: seq<Part>, seen: set<Bytes> := [], {};
    NoTags();
    assert parts[..0] == [];
    for i := 0 to |parts|
      invariant tags == ReadParts(parts[..i]) && Sound(tags)
      invariant forall name :: name in seen <==> HasName(tags, name)
    {
      NextPart(parts, i);
      var t := ReadPart(parts[i]);
      if t.Blank? {
        continue;
      }
      NextTag(tags, t);
      if t.Bad? || t.name in seen {
        Refused(parts, i + 1);
        return None;
      }
      NameAdded(tags, t);
      tags := tags + [t];
      seen := seen + {t.name};
    }
    assert parts[..|parts|] == parts;
    return Some(tags);
  }

  lemma NoTags()
    ensures ReadParts([]) == [] && Sound([]) && forall name :: !HasName([], name)
  {
  }

  lemma NameAdded(tags: seq<Part>, t: Part)
    requires t.Pair?
    ensures forall name :: HasName(tags + [t], name) <==> HasName(tags, name) || name == t.name
  {
    var all := tags + [t];
    forall name
      ensures HasName(all, name) <==> HasName(tags, name) || name == t.name
    {
      if HasName(tags, name) {
        var i :| 0 <= i < |tags| && tags[i].Pair? && tags[i].name == name;
        assert all[i] == tags[i];
      }
      if name == t.name {
        assert all[|tags|] == t;
      }
    }
  }

  /** The value of the tag of that name. */
  function Lookup(tags: seq<Part>, name: Bytes): Option<Bytes> {
    if tags == [] then None
    else
      var last := tags[|tags| - 1];
      if last.Pair? && last.name == name then Some(last.value) else Lookup(tags[..|tags| - 1], name)
  }

  /** In a sound list every tag is the one its name stands for. */
  lemma {:induction false} LookupAt(tags: seq<Part>, i: nat)
    requires Sound(tags) && i < |tags|
    ensures tags[i].Pair? && Lookup(tags, tags[i].name) == Some(tags[i].value)
    decreases |tags|
  {
    var n := |tags| - 1;
    if i < n {
      LookupAt(tags[..n], i);
      assert tags[..n][i] == tags[i];
    }
  }

  lemma {:induction false} LookupNone(tags: seq<Part>, name: Bytes)
    ensures Lookup(tags, name).None? <==> !HasName(tags, name)
    decreases |tags|
  {
    if tags != [] {
      var n := |tags| - 1;
      LookupNone(tags[..n], name);
      assert tags == tags[..n] + [tags[n]];
      if tags[n].Pair? {
        NameAdded(tags[..n], tags[n]);
      }
    }
  }

  // ---------------------------------------------------------------- what is read

  const SLASH: byte := 47

  function ReadForm(text: Bytes): Option<bool> {
    if text == B("relaxed") then Some(true) else if text == B("simple") then Some(false) else None
  }

  /** c=: the form of the header and that of the body, which is simple when it is left out. */
  function ReadForms(c: Option<Bytes>): Option<(bool, bool)> {
    if c.None? then Some((false, false))
    else
      var text := Lower(c.value);
      var i := IndexOf(text, SLASH);
      var header, body := ReadForm(if i < 0 then text else text[..i]), if i < 0 then Some(false) else ReadForm(text[i + 1..]);
      if header.Some? && body.Some? then Some((header.value, body.value)) else None
  }

  /** h=: the names between the colons. */
  function TrimAll(names: seq<Bytes>): (r: seq<Bytes>)
    ensures |r| == |names|
    ensures forall i :: 0 <= i < |names| ==> r[i] == TrimFws(names[i])
  {
    seq(|names|, i requires 0 <= i < |names| => TrimFws(names[i]))
  }

  predicate IsFrom(name: Bytes) {
    EqualFold(name, B("from"))
  }

  predicate NamesOk(names: seq<Bytes>) {
    (forall i :: 0 <= i < |names| ==> names[i] != []) && exists i :: 0 <= i < |names| && IsFrom(names[i])
  }

  function ReadNames(h: Bytes): Option<seq<Bytes>> {
    var names := TrimAll(Cut(h, COLON));
    if NamesOk(names) then Some(names) else None
  }

  method ParseNames(h: Bytes) returns (r: Option<seq<Bytes>>)
    ensures r == ReadNames(h)
  {
    var parts := Cut(h, COLON);
    ghost var all := TrimAll(parts);
    hide Cut, IsFrom;
    var names: seq<Bytes> := [];
    for i := 0 to |parts|
      invariant names == all[..i] && forall k :: 0 <= k < i ==> all[k] != []
    {
      var name := TrimFws(parts[i]);
      if name == [] {
        assert all[i] == [];
        return None;
      }
      assert all[i] == name;
      names := names + [name];
    }
    assert names == all;
    var hasFrom := false;
    for i := 0 to |names|
      invariant hasFrom == exists k :: 0 <= k < i && IsFrom(names[k])
    {
      hasFrom := hasFrom || IsFrom(names[i]);
    }
    return if hasFrom then Some(names) else None;
  }

  /** The number that a nonempty string of digits stands for. */
  function Digits(s: Bytes): Option<nat> {
    if s == [] || !IsDigitByte(s[|s| - 1]) then None
    else
      var d := s[|s| - 1] as int - 48;
      if |s| == 1 then Some(d)
      else match Digits(s[..|s| - 1])
           case None => None
           case Some(n) => Some(10 * n + d)
  }

  const MAX_INT64 := 0x7fff_ffff_ffff_ffff
  const PLUS: byte := 43
  const MINUS: byte := 45

  /** A length that is not negative, as strconv.ParseInt reads it. */
  function ReadLength(s: Bytes): Option<nat> {
    var signed := s != [] && (s[0] == PLUS || s[0] == MINUS);
    match Digits(if signed then s[1..] else s)
    case None => None
    case Some(n) => if n > MAX_INT64 || (signed && s[0] == MINUS && n > 0) then None else Some(n)
  }

  /** The parts of a signature that decide what is hashed, and the two values it is compared
      with, both still in base64; limit is -1 without l=. */
  datatype Reading = Reading(
    headerRelaxed: bool, bodyRelaxed: bool, names: seq<Bytes>, limit: int, bodyHash: Bytes,
    signature: Bytes)

  const REQUIRED: seq<Bytes> := [B("v"), B("a"), B("b"), B("bh"), B("d"), B("h"), B("s")]

  /** What the tags say; others are the checks on the tags that decide nothing else. */
  function ReadTags(tags: seq<Part>, others: seq<Part> -> bool): Option<Reading> {
    if !(forall i :: 0 <= i < |REQUIRED| ==> HasName(tags, REQUIRED[i])) then None
    else if Lookup(tags, B("v")) != Some(B("1")) || !others(tags) then None
    else
      LookupNone(tags, B("b"));
      LookupNone(tags, B("bh"));
      LookupNone(tags, B("h"));
      assert REQUIRED[2] == B("b") && REQUIRED[3] == B("bh") && REQUIRED[5] == B("h");
      var forms, names := ReadForms(Lookup(tags, B("c"))), ReadNames(Lookup(tags, B("h")).value);
      var l := Lookup(tags, B("l"));
      var limit := if l.Some? then ReadLength(l.value) else None;
      if forms.None? || names.None? || (l.Some? && limit.None?) then None
      else
        Some(Reading(forms.value.0, forms.value.1, names.value, if l.Some? then limit.value else -1,
                     NoFws(Lookup(tags, B("bh")).value), NoFws(Lookup(tags, B("b")).value)))
  }

  /** A list that is accepted has the seven tags that are required, version 1, and From among
      its names; without c= both forms are simple, and without a second form that of the body
      is. */
  lemma AcceptedHasTags(tags: seq<Part>, others: seq<Part> -> bool)
    requires ReadTags(tags, others).Some?
    ensures HasName(tags, B("v")) && HasName(tags, B("a")) && HasName(tags, B("b")) && HasName(tags, B("bh"))
    ensures HasName(tags, B("d")) && HasName(tags, B("h")) && HasName(tags, B("s"))
    ensures Lookup(tags, B("v")) == Some(B("1"))
    ensures var names := ReadTags(tags, others).value.names; exists i :: 0 <= i < |names| && EqualFold(names[i], B("from"))
    ensures Lookup(tags, B("c")).None? ==>
              !ReadTags(tags, others).value.headerRelaxed && !ReadTags(tags, others).value.bodyRelaxed
  {
    assert REQUIRED[0] == B("v") && REQUIRED[1] == B("a") && REQUIRED[2] == B("b") && REQUIRED[3] == B("bh");
    assert REQUIRED[4] == B("d") && REQUIRED[5] == B("h") && REQUIRED[6] == B("s");
    hide B, HasName, Lookup, Cut, EqualFold;
    var names := ReadTags(tags, others).value.names;
    var i :| 0 <= i < |names| && IsFrom(names[i]);
  }

  /** ParseSignature on the value of the field. */
  function ReadSignature(value: Bytes, others: seq<Part> -> bool): Option<Reading> {
    match TagList(value)
    case None => None
    case Some(tags) => ReadTags(tags, others)
  }
}
