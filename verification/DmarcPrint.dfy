/** A DMARC record, written out, is parsed back field by field (sections 6.3 and 6.4 of
    RFC 7489). */
module DmarcPrint {
  import opened Ascii
  import opened Names
  import opened Wrappers
  import opened DmarcVerdict
  import opened DmarcRecord

  // ---------------------------------------------------------------- writing

  /** What a domain owner publishes: a policy, and any of the other tags. The texts of rua and
      ruf are lists of URIs. */
  datatype Published = Published(
    policy: Policy, subdomain: Option<Policy>, percent: Option<nat>, adkim: Option<Mode>, aspf: Option<Mode>,
    rua: Option<string>, ruf: Option<string>, fo: Option<seq<string>>, rf: Option<string>, ri: Option<nat>)

  function PolicyText(p: Policy): string {
    match p
    case NoAction => "none"
    case Quarantine => "quarantine"
    case Reject => "reject"
  }

  function ModeText(m: Mode): string {
    match m
    case Relaxed => "r"
    case Strict => "s"
  }

  function TagText(name: string, value: string): string {
    name + "=" + value
  }

  function Optional(name: string, value: Option<string>): seq<string> {
    if value.Some? then [TagText(name, value.value)] else []
  }

  // The text of a value, where there is one.

  function PolicyTextOf(p: Option<Policy>): Option<string> {
    if p.Some? then Some(PolicyText(p.value)) else None
  }

  function NumberText(n: Option<nat>): Option<string> {
    if n.Some? then Some(Decimal(n.value)) else None
  }

  function ModeTextOf(m: Option<Mode>): Option<string> {
    if m.Some? then Some(ModeText(m.value)) else None
  }

  function OptionsText(fo: Option<seq<string>>): Option<string> {
    if fo.Some? then Some(Join(fo.value, ":")) else None
  }

  /** One tag of the record: its name as text and as the parser knows it. */
  datatype Field = Field(text: string, name: Name, value: Option<string>)

  function Fields(p: Published): seq<Field> {
    [Field("v", VERSION, Some("DMARC1")), Field("p", P, Some(PolicyText(p.policy))), Field("sp", Sp, PolicyTextOf(p.subdomain)),
     Field("pct", Pct, NumberText(p.percent)), Field("adkim", Adkim, ModeTextOf(p.adkim)),
     Field("aspf", Aspf, ModeTextOf(p.aspf)), Field("rua", Rua, p.rua), Field("ruf", Ruf, p.ruf),
     Field("fo", Fo, OptionsText(p.fo)), Field("rf", Rf, p.rf), Field("ri", Ri, NumberText(p.ri))]
  }

  function Texts(fields: seq<Field>): seq<string> {
    if fields == [] then [] else Optional(fields[0].text, fields[0].value) + Texts(fields[1..])
  }

  function Print(p: Published): string {
    Join(Texts(Fields(p)), ";")
  }

  /** A value that can be written: not empty, without a semicolon and without white space at
      its ends. */
  predicate Writable(s: string) {
    Trimmed(s, SPACES) && ';' !in s
  }

  predicate OptionWritable(s: Option<string>) {
    s.Some? ==> Writable(s.value)
  }

  predicate Publishable(p: Published) {
    && (p.percent.Some? ==> p.percent.value <= 100) && (p.ri.Some? ==> p.ri.value <= 4294967295)
    && OptionWritable(p.rf) && OptionWritable(p.rua) && OptionWritable(p.ruf)
    && (p.fo.Some? ==> p.fo.value != [] && forall i :: 0 <= i < |p.fo.value| ==> p.fo.value[i] in ["0", "1", "d", "s"])
  }

  // ---------------------------------------------------------------- one tag

  /** Letters in either case. */
  predicate Word(n: string) {
    n != "" && forall i :: 0 <= i < |n| ==> IsAlpha(n[i])
  }

  /** A tag with white space wherever it may stand, its name in any case. */
  function Spaced(w1: string, n: string, w2: string, w3: string, value: string, w4: string): string {
    w1 + (n + w2 + "=" + (w3 + value)) + w4
  }

  /** A text whose trimmed form is known around its first equals sign. */
  lemma ReadAround(text: string, head: string, tail: string, name: string, value: string)
    requires TrimSet(text, SPACES) == head + "=" + tail && '=' !in head
    requires TrimSet(head, WSP) == name && TrimSet(tail, WSP) == value && Lower(name) != ""
    ensures ReadPart(text) == Tag(NameOf(Lower(name)), value)
  {
    hide TrimSet, IndexOf, NameOf;
    var core := head + "=" + tail;
    assert core == head + ['='] + tail;
    IndexIs(head, '=', tail);
    assert core[..|head|] == head && core[|head| + 1..] == tail;
  }

  lemma ReadSpaced(w1: string, n: string, w2: string, w3: string, value: string, w4: string)
    requires Word(n) && Trimmed(value, SPACES) && AllIn(w1, SPACES) && AllIn(w2, WSP) && AllIn(w3, WSP) && AllIn(w4, SPACES)
    ensures ReadPart(Spaced(w1, n, w2, w3, value, w4)) == Tag(NameOf(Lower(n)), value)
  {
    var head, tail := n + w2, w3 + value;
    var core := n + w2 + "=" + tail;
    NoEquals(n, w2);
    EndsTrimmed(n, value);
    CoreTrimmed(n, w2, w3, value);
    hide TrimSet, Lower, NameOf, AllIn, Trimmed, Word;
    TrimBoth(w1, core, w4, SPACES);
    TrimBoth("", n, w2, WSP);
    TrimBoth(w3, value, "", WSP);
    assert "" + n + w2 == head && w3 + value + "" == tail;
    ReadAround(Spaced(w1, n, w2, w3, value, w4), head, tail, n, value);
  }

  lemma CoreTrimmed(n: string, w2: string, w3: string, value: string)
    requires Word(n) && Trimmed(value, SPACES)
    ensures Trimmed(n + w2 + "=" + (w3 + value), SPACES)
  {
    var core := n + w2 + "=" + (w3 + value);
    assert core[0] == n[0] && core[|core| - 1] == value[|value| - 1];
    assert IsAlpha(n[0]);
  }

  lemma NoEquals(n: string, w2: string)
    requires Word(n) && AllIn(w2, WSP)
    ensures '=' !in n + w2
  {
    assert forall i :: 0 <= i < |w2| ==> w2[i] in w2;
  }

  lemma EndsTrimmed(n: string, value: string)
    requires Word(n) && Trimmed(value, SPACES)
    ensures AllIn("", WSP) && Trimmed(n, WSP) && Trimmed(value, WSP) && Lower(n) != ""
  {
    assert IsAlpha(n[0]) && IsAlpha(n[|n| - 1]);
  }

  /** A tag without any white space. */
  lemma ReadTag(name: string, value: string)
    requires Word(name) && Lower(name) == name && Writable(value)
    ensures ReadPart(name + "=" + value) == Tag(NameOf(name), value)
    ensures IsPart(name + "=" + value)
  {
    ReadSpaced("", name, "", "", value, "");
    assert Spaced("", name, "", "", value, "") == name + "=" + value;
    assert forall i :: 0 <= i < |name| ==> name[i] != ';';
  }

  // ---------------------------------------------------------------- values

  lemma PolicyRead(p: Policy)
    ensures ParsePolicy(PolicyText(p)) == Some(p) && Writable(PolicyText(p))
  {
    var text := PolicyText(p);
    assert Lower(text) == text;
  }

  lemma ModeRead(m: Mode)
    ensures ParseMode(ModeText(m)) == Some(m) && Writable(ModeText(m))
  {
    var text := ModeText(m);
    assert Lower(text) == text;
  }

  lemma {:induction false} DigitsRead(n: nat)
    ensures Digits(Decimal(n)) == Some(n)
  {
    var s := Decimal(n);
    if n >= 10 {
      DigitsRead(n / 10);
      assert s[..|s| - 1] == Decimal(n / 10);
    }
  }

  lemma NumberRead(n: nat)
    ensures Writable(Decimal(n)) && Digits(Decimal(n)) == Some(n)
    ensures n <= 100 ==> ParsePercent(Decimal(n)) == Some(n)
    ensures n <= 4294967295 ==> ParseInterval(Decimal(n)) == Some(n)
  {
    DigitsRead(n);
    hide Digits;
    assert IsDigit(Decimal(n)[0]);
  }

  ghost predicate AreOptions(fo: seq<string>) {
    forall i :: 0 <= i < |fo| ==> fo[i] in ["0", "1", "d", "s"]
  }

  lemma OptionTrimmed(o: string)
    requires o in ["0", "1", "d", "s"]
    ensures TrimSet(o, WSP) == o && |o| == 1 && o[0] in "01ds"
  {
  }

  lemma {:induction false} OptionsKnown(fo: seq<string>)
    requires AreOptions(fo)
    ensures KnownOptions(fo) == fo
  {
    hide TrimSet;
    if fo != [] {
      OptionTrimmed(fo[|fo| - 1]);
      OptionsKnown(fo[..|fo| - 1]);
    }
  }

  predicate OptionText(s: string) {
    s != "" && s[0] in "01ds" && s[|s| - 1] in "01ds" && forall i :: 0 <= i < |s| ==> s[i] in "01ds:"
  }

  lemma {:induction false} OptionsAreText(fo: seq<string>)
    requires AreOptions(fo) && fo != []
    ensures OptionText(Join(fo, ":"))
  {
    OptionTrimmed(fo[0]);
    if |fo| > 1 {
      OptionsAreText(fo[1..]);
    }
  }

  lemma OptionsWritable(s: string)
    requires OptionText(s)
    ensures Writable(s)
  {
  }

  lemma OptionsSplit(fo: seq<string>)
    requires AreOptions(fo) && fo != []
    ensures Split(Join(fo, ":"), ":") == fo
  {
    forall k | 0 <= k < |fo|
      ensures |fo[k]| == 1 && fo[k][0] != ':'
    {
      OptionTrimmed(fo[k]);
    }
    SplitJoin(fo, ':');
    assert [':'] == ":";
  }

  lemma OptionsOfText(v: string, fo: seq<string>)
    requires Split(v, ":") == fo && KnownOptions(fo) == fo && fo != []
    ensures OptionsOf(Some(v)) == fo
  {
  }

  lemma OptionsRead(fo: seq<string>)
    requires AreOptions(fo) && fo != []
    ensures OptionsOf(Some(Join(fo, ":"))) == fo && Writable(Join(fo, ":"))
  {
    OptionsSplit(fo);
    OptionsKnown(fo);
    OptionsAreText(fo);
    hide Split, Join, KnownOptions, Writable, AreOptions, OptionsOf, OptionText;
    OptionsWritable(Join(fo, ":"));
    OptionsOfText(Join(fo, ":"), fo);
  }

  // ---------------------------------------------------------------- the parts

  function OptionalPart(name: Name, value: Option<string>): seq<Part> {
    if value.Some? then [Tag(name, value.value)] else []
  }

  function PartsOf(fields: seq<Field>): seq<Part> {
    if fields == [] then [] else OptionalPart(fields[0].name, fields[0].value) + PartsOf(fields[1..])
  }

  predicate GoodField(f: Field) {
    Word(f.text) && Lower(f.text) == f.text && f.name == NameOf(f.text) && OptionWritable(f.value)
  }

  /** A list of texts that is read as that list of parts. */
  ghost predicate ReadAs(texts: seq<string>, parts: seq<Part>) {
    ReadParts(texts) == parts && forall i :: 0 <= i < |texts| ==> IsPart(texts[i])
  }

  lemma ReadAsConcat(a: seq<string>, x: seq<Part>, b: seq<string>, y: seq<Part>)
    requires ReadAs(a, x) && ReadAs(b, y)
    ensures ReadAs(a + b, x + y)
  {
    hide ReadPart, IsPart;
  }

  lemma ReadOptional(f: Field)
    requires GoodField(f)
    ensures ReadAs(Optional(f.text, f.value), OptionalPart(f.name, f.value))
  {
    if f.value.Some? {
      ReadTag(f.text, f.value.value);
    }
    hide ReadPart, NameOf, Writable, Word;
  }

  lemma {:induction false} ReadFields(fields: seq<Field>)
    requires forall i :: 0 <= i < |fields| ==> GoodField(fields[i])
    ensures ReadAs(Texts(fields), PartsOf(fields))
  {
    hide GoodField, Optional, OptionalPart, ReadAs;
    if fields == [] {
      ReadNothing();
    } else {
      ReadOptional(fields[0]);
      ReadFields(fields[1..]);
      ReadAsConcat(Optional(fields[0].text, fields[0].value), OptionalPart(fields[0].name, fields[0].value),
                   Texts(fields[1..]), PartsOf(fields[1..]));
    }
  }

  lemma ReadNothing()
    ensures ReadAs([], [])
  {
  }

  /** The first value of a name that no other field has. */
  lemma {:induction false} FirstOfFields(fields: seq<Field>, k: nat)
    requires k < |fields| && forall i :: 0 <= i < |fields| && i != k ==> fields[i].name != fields[k].name
    ensures First(PartsOf(fields), fields[k].name) == fields[k].value
  {
    var front, name := OptionalPart(fields[0].name, fields[0].value), fields[k].name;
    FirstOfConcat(front, PartsOf(fields[1..]), name);
    FirstOfPart(fields[0].name, fields[0].value, name);
    hide First, OptionalPart;
    if k > 0 {
      FirstOfFields(fields[1..], k - 1);
    } else {
      NoneOfFields(fields[1..], name);
    }
  }

  lemma {:induction false} NoneOfFields(fields: seq<Field>, name: Name)
    requires forall i :: 0 <= i < |fields| ==> fields[i].name != name
    ensures First(PartsOf(fields), name) == None
  {
    if fields != [] {
      FirstOfConcat(OptionalPart(fields[0].name, fields[0].value), PartsOf(fields[1..]), name);
      FirstOfPart(fields[0].name, fields[0].value, name);
      hide First, OptionalPart;
      NoneOfFields(fields[1..], name);
    }
  }

  lemma FirstOfPart(own: Name, value: Option<string>, name: Name)
    ensures First(OptionalPart(own, value), name) == if own == name then value else None
  {
    if value.Some? {
      assert [Tag(own, value.value)][1..] == [];
    }
  }

  lemma {:induction false} NotMalformed(fields: seq<Field>)
    ensures Malformed !in PartsOf(fields)
  {
    if fields != [] {
      NotMalformed(fields[1..]);
    }
  }

  // ---------------------------------------------------------------- the record

  lemma NameGood(n: string)
    requires n in ["v", "p", "sp", "pct", "adkim", "aspf", "rua", "ruf", "fo", "rf", "ri"]
    ensures Word(n) && Lower(n) == n
  {
    assert forall i :: 0 <= i < |n| ==> 'a' <= n[i] <= 'z';
  }

  lemma NamesRead()
    ensures NameOf("v") == VERSION && NameOf("p") == P && NameOf("sp") == Sp && NameOf("pct") == Pct
    ensures NameOf("adkim") == Adkim && NameOf("aspf") == Aspf && NameOf("rua") == Rua && NameOf("ruf") == Ruf
    ensures NameOf("fo") == Fo && NameOf("rf") == Rf && NameOf("ri") == Ri
  {
  }

  lemma PolicyValue(p: Option<Policy>)
    ensures OptionWritable(PolicyTextOf(p)) && PolicyOf(PolicyTextOf(p)) == p
  {
    if p.Some? {
      PolicyRead(p.value);
    }
  }

  lemma NumberValues(n: Option<nat>)
    ensures OptionWritable(NumberText(n))
    ensures n.None? || n.value <= 100 ==> PercentOf(NumberText(n)) == if n.Some? then n.value else 100
    ensures n.None? || n.value <= 4294967295 ==> IntervalOf(NumberText(n)) == if n.Some? then n.value else 86400
  {
    if n.Some? {
      NumberRead(n.value);
    }
    hide Decimal, Writable, ParsePercent, ParseInterval;
  }

  lemma ModeValue(m: Option<Mode>)
    ensures OptionWritable(ModeTextOf(m)) && ModeOf(ModeTextOf(m)) == if m.Some? then m.value else Relaxed
  {
    if m.Some? {
      ModeRead(m.value);
    }
  }

  lemma OptionsValue(fo: Option<seq<string>>)
    requires fo.Some? ==> fo.value != [] && AreOptions(fo.value)
    ensures OptionWritable(OptionsText(fo)) && OptionsOf(OptionsText(fo)) == if fo.Some? then fo.value else ["0"]
  {
    if fo.Some? {
      OptionsRead(fo.value);
      hide OptionsOf, Writable, Join;
    }
  }

  /** What the texts of the values stand for. */
  lemma PrintedValues(p: Published)
    requires Publishable(p)
    ensures PolicyOf(Some(PolicyText(p.policy))) == Some(p.policy) && PolicyOf(PolicyTextOf(p.subdomain)) == p.subdomain
    ensures PercentOf(NumberText(p.percent)) == if p.percent.Some? then p.percent.value else 100
    ensures IntervalOf(NumberText(p.ri)) == if p.ri.Some? then p.ri.value else 86400
    ensures ModeOf(ModeTextOf(p.adkim)) == if p.adkim.Some? then p.adkim.value else Relaxed
    ensures ModeOf(ModeTextOf(p.aspf)) == if p.aspf.Some? then p.aspf.value else Relaxed
    ensures OptionsOf(OptionsText(p.fo)) == if p.fo.Some? then p.fo.value else ["0"]
  {
    PolicyValue(Some(p.policy));
    PolicyValue(p.subdomain);
    NumberValues(p.percent);
    NumberValues(p.ri);
    ModeValue(p.adkim);
    ModeValue(p.aspf);
    OptionsValue(p.fo);
    hide PolicyOf, PercentOf, IntervalOf, ModeOf, OptionsOf, NumberText, ModeTextOf, OptionsText, PolicyText;
  }

  lemma ValueWritable(p: Published, k: nat)
    requires Publishable(p) && k < 11
    ensures OptionWritable(Fields(p)[k].value)
  {
    PolicyValue(Some(p.policy));
    PolicyValue(p.subdomain);
    NumberValues(p.percent);
    NumberValues(p.ri);
    ModeValue(p.adkim);
    ModeValue(p.aspf);
    OptionsValue(p.fo);
    GivenWritable(p);
    hide OptionWritable, NumberText, ModeTextOf, OptionsText, PolicyText, Publishable, PercentOf, IntervalOf, ModeOf, OptionsOf,
         PolicyOf;
  }

  lemma GivenWritable(p: Published)
    requires Publishable(p)
    ensures OptionWritable(p.rua) && OptionWritable(p.ruf) && OptionWritable(p.rf) && OptionWritable(Some("DMARC1"))
  {
    assert Writable("DMARC1");
  }

  lemma FieldsGood(p: Published, k: nat)
    requires Publishable(p) && k < 11
    ensures GoodField(Fields(p)[k])
  {
    ValueWritable(p, k);
    NamesRead();
    NameGood(Fields(p)[k].text);
    hide OptionWritable, PolicyTextOf, PolicyText, ModeTextOf, NumberText, OptionsText, NameOf, Word, Lower, Publishable;
  }

  lemma NamesDiffer(p: Published, k: nat)
    requires k < 11
    ensures forall i :: 0 <= i < 11 && i != k ==> Fields(p)[i].name != Fields(p)[k].name
  {
    hide PolicyTextOf, PolicyText, ModeTextOf, NumberText, OptionsText;
  }

  lemma VersionSeen()
    ensures IsDmarc(TagText("v", "DMARC1"))
  {
    var txt := TagText("v", "DMARC1");
    assert txt[1..] == "=DMARC1" && "=DMARC1"[1..] == "DMARC1" && "DMARC1"[6..] == "";
    assert TrimLeft("=DMARC1", WSP) == "=DMARC1" && TrimLeft("DMARC1", WSP) == "DMARC1" && TrimLeft("", WSP) == "";
    hide TrimLeft;
  }

  lemma FirstText(p: Published)
    ensures Texts(Fields(p)) != [] && Texts(Fields(p))[0] == TagText("v", "DMARC1")
  {
    hide PolicyTextOf, PolicyText, ModeTextOf, NumberText, OptionsText, TagText;
    assert Fields(p)[0] == Field("v", VERSION, Some("DMARC1"));
  }

  /** The parts of a printed record, and that it is one. */
  lemma PrintedParts(p: Published)
    requires Publishable(p)
    ensures IsDmarc(Print(p)) && Parts(Print(p)) == PartsOf(Fields(p))
  {
    forall k | 0 <= k < 11
      ensures GoodField(Fields(p)[k])
    {
      FieldsGood(p, k);
    }
    FirstText(p);
    VersionSeen();
    ReadFields(Fields(p));
    hide Fields, Texts, GoodField, IsDmarc, TagText, IsPart, ReadPart;
    PartsOfJoin(Texts(Fields(p)));
    IsDmarcOfJoin(Texts(Fields(p)));
  }

  lemma FirstOfPrinted(p: Published, k: nat)
    requires k < 11
    ensures First(PartsOf(Fields(p)), Fields(p)[k].name) == Fields(p)[k].value
  {
    NamesDiffer(p, k);
    assert |Fields(p)| == 11;
    hide Fields;
    FirstOfFields(Fields(p), k);
  }

  /** What is published is what is parsed: every field comes back, the reports as the URIs of
      their text, and tags that are left out have their defaults. */
  lemma PrintedIsParsed(uris: UriParser, p: Published)
    requires Publishable(p)
    ensures Parsed(uris, Print(p)) ==
              Ok(Record(Some(p.policy), p.subdomain, if p.percent.Some? then p.percent.value else 100,
                        if p.adkim.Some? then p.adkim.value else Relaxed, if p.aspf.Some? then p.aspf.value else Relaxed,
                        if p.rua.Some? then uris(p.rua.value) else [], if p.ruf.Some? then uris(p.ruf.value) else [],
                        if p.fo.Some? then p.fo.value else ["0"], if p.rf.Some? then p.rf.value else "afrf",
                        if p.ri.Some? then p.ri.value else 86400, false))
  {
    PrintedParts(p);
    NotMalformed(Fields(p));
    PrintedFirsts(p);
    PrintedValues(p);
    hide IsDmarc, Print, Parts, Fields, First, Publishable, PartsOf, PolicyOf, PercentOf, ModeOf, OptionsOf, IntervalOf,
         NumberText, ModeTextOf, OptionsText, PolicyText;
  }

  /** The first values of the names of a printed record. */
  lemma PrintedFirsts(p: Published)
    ensures var parts := PartsOf(Fields(p));
            && First(parts, P) == Some(PolicyText(p.policy)) && First(parts, Sp) == PolicyTextOf(p.subdomain)
            && First(parts, Pct) == NumberText(p.percent) && First(parts, Adkim) == ModeTextOf(p.adkim)
            && First(parts, Aspf) == ModeTextOf(p.aspf) && First(parts, Rua) == p.rua && First(parts, Ruf) == p.ruf
            && First(parts, Fo) == OptionsText(p.fo) && First(parts, Rf) == p.rf && First(parts, Ri) == NumberText(p.ri)
  {
    hide First, PartsOf, PolicyTextOf, PolicyText, ModeTextOf, NumberText, OptionsText;
    forall k | 0 <= k < 11
      ensures First(PartsOf(Fields(p)), Fields(p)[k].name) == Fields(p)[k].value
    {
      FirstOfPrinted(p, k);
    }
    var f := Fields(p);
    assert f[1].name == P && f[2].name == Sp && f[3].name == Pct && f[4].name == Adkim && f[5].name == Aspf;
    assert f[6].name == Rua && f[7].name == Ruf && f[8].name == Fo && f[9].name == Rf && f[10].name == Ri;
  }
}
