/** Parsing a DMARC record (internal/dmarc/record.go; sections 6.3 and 6.6.3 of RFC 7489).
    The syntax of report URIs is given from outside. */
module DmarcRecord {
  import opened Ascii
  import opened Wrappers
  import opened DmarcVerdict

  const WSP := " \t"
  const SPACES := " \t\r\n"

  function TrimLeft(s: string, cutset: string): string {
    if s != "" && s[0] in cutset then TrimLeft(s[1..], cutset) else s
  }

  // ---------------------------------------------------------------- tags

  /** Tag names, those without a policy field under Other. */
  datatype Name = P | Sp | Pct | Adkim | Aspf | Rua | Ruf | Fo | Rf | Ri | Other(text: string)

  function NameOf(s: string): Name {
    match s
    case "p" => P
    case "sp" => Sp
    case "pct" => Pct
    case "adkim" => Adkim
    case "aspf" => Aspf
    case "rua" => Rua
    case "ruf" => Ruf
    case "fo" => Fo
    case "rf" => Rf
    case "ri" => Ri
    case _ => Other(s)
  }

  const VERSION := Other("v")

  /** What stands between two semicolons. */
  datatype Part = Blank | Malformed | Tag(name: Name, value: string)

  function ReadPart(text: string): Part {
    var part := TrimSet(text, SPACES);
    var eq := IndexOf(part, '=');
    if part == "" then Blank
    else if eq < 0 then Malformed
    else
      var name := Lower(TrimSet(part[..eq], WSP));
      if name == "" then Malformed else Tag(NameOf(name), TrimSet(part[eq + 1..], WSP))
  }

  function ReadParts(texts: seq<string>): (r: seq<Part>)
    ensures |r| == |texts|
    ensures forall i :: 0 <= i < |texts| ==> r[i] == ReadPart(texts[i])
  {
    seq(|texts|, i requires 0 <= i < |texts| => ReadPart(texts[i]))
  }

  function Parts(txt: string): seq<Part> {
    ReadParts(Split(txt, ";"))
  }

  /** The record begins with the version tag, in this case and with nothing before it. */
  predicate IsDmarc(txt: string) {
    txt != "" && txt[0] == 'v' && VersionFollows(TrimLeft(txt[1..], WSP))
  }

  predicate VersionFollows(s: string) {
    s != "" && s[0] == '=' && var v := TrimLeft(s[1..], WSP);
      "DMARC1" <= v && var rest := TrimLeft(v[6..], WSP);
        rest == "" || rest[0] == ';'
  }

  // ---------------------------------------------------------------- values

  function ParsePolicy(s: string): Option<Policy> {
    var p := Lower(s);
    if p == "none" then Some(NoAction)
    else if p == "quarantine" then Some(Quarantine)
    else if p == "reject" then Some(Reject)
    else None
  }

  function ParseMode(s: string): Option<Mode> {
    var m := Lower(s);
    if m == "r" then Some(Relaxed) else if m == "s" then Some(Strict) else None
  }

  /** The number that a nonempty string of digits stands for. */
  function Digits(s: string): Option<nat> {
    if s == "" then None
    else if !IsDigit(s[|s| - 1]) then None
    else
      var d := s[|s| - 1] as int - '0' as int;
      if |s| == 1 then Some(d)
      else match Digits(s[..|s| - 1])
           case None => None
           case Some(n) => Some(10 * n + d)
  }

  /** strconv.Atoi, except that a number of any size is a number. */
  function Atoi(s: string): Option<int> {
    var signed := s != "" && (s[0] == '+' || s[0] == '-');
    match Digits(if signed then s[1..] else s)
    case None => None
    case Some(n) => var m: int := n; Some(if signed && s[0] == '-' then -m else m)
  }

  const MAX_UINT32 := 0xffff_ffff

  function ParsePercent(s: string): Option<int> {
    match Atoi(s)
    case Some(n) => if 0 <= n <= 100 then Some(n) else None
    case None => None
  }

  function ParseInterval(s: string): Option<nat> {
    match Digits(s)
    case Some(n) => if n <= MAX_UINT32 then Some(n) else None
    case None => None
  }

  /** The failure options of a list that are known. */
  function KnownOptions(parts: seq<string>): seq<string> {
    if parts == [] then []
    else
      var o := TrimSet(parts[|parts| - 1], WSP);
      KnownOptions(parts[..|parts| - 1]) + if o in ["0", "1", "d", "s"] then [o] else []
  }

  method FailureOptions(value: string) returns (opts: seq<string>)
    ensures opts == KnownOptions(Split(value, ":"))
  {
    opts := [];
    var parts := Split(value, ":");
    for i := 0 to |parts|
      invariant opts == KnownOptions(parts[..i])
    {
      assert parts[..i + 1][..i] == parts[..i];
      var o := TrimSet(parts[i], WSP);
      if o in ["0", "1", "d", "s"] {
        opts := opts + [o];
      }
    }
    assert parts[..|parts|] == parts;
  }

  // ---------------------------------------------------------------- the record

  /** The valid URIs of a rua or ruf value. */
  type UriParser = string -> seq<string>

  datatype Record = Record(
    policy: Option<Policy>, subdomain: Option<Policy>, percent: int, adkim: Mode, aspf: Mode,
    rua: seq<string>, ruf: seq<string>, fo: seq<string>, rf: string, ri: nat, implied: bool)

  datatype RecordError = NoVersion | BadTag | BadPolicy

  const DEFAULTS := Record(None, None, 100, Relaxed, Relaxed, [], [], ["0"], "afrf", 86400, false)

  /** The value of the first tag of that name. */
  function First(parts: seq<Part>, name: Name): Option<string> {
    if parts == [] then None
    else if parts[0].Tag? && parts[0].name == name then Some(parts[0].value)
    else First(parts[1..], name)
  }

  // What a tag says about its field: the default where the tag is absent or invalid.

  function PolicyOf(v: Option<string>): Option<Policy> {
    if v.Some? then ParsePolicy(v.value) else None
  }

  function PercentOf(v: Option<string>): int {
    var n := if v.Some? then ParsePercent(v.value) else None;
    if n.Some? then n.value else 100
  }

  function ModeOf(v: Option<string>): Mode {
    var m := if v.Some? then ParseMode(v.value) else None;
    if m.Some? then m.value else Relaxed
  }

  function UrisOf(uris: UriParser, v: Option<string>): seq<string> {
    if v.Some? then uris(v.value) else []
  }

  function OptionsOf(v: Option<string>): seq<string> {
    var options := if v.Some? then KnownOptions(Split(v.value, ":")) else [];
    if options != [] then options else ["0"]
  }

  function FormatOf(v: Option<string>): string {
    if v.Some? then v.value else "afrf"
  }

  function IntervalOf(v: Option<string>): nat {
    var n := if v.Some? then ParseInterval(v.value) else None;
    if n.Some? then n.value else 86400
  }

  /** The record of a list of tags before it is decided whether it can be used. */
  function Draft(uris: UriParser, parts: seq<Part>): Record {
    Record(
      PolicyOf(First(parts, P)), PolicyOf(First(parts, Sp)), PercentOf(First(parts, Pct)),
      ModeOf(First(parts, Adkim)), ModeOf(First(parts, Aspf)),
      UrisOf(uris, First(parts, Rua)), UrisOf(uris, First(parts, Ruf)),
      OptionsOf(First(parts, Fo)), FormatOf(First(parts, Rf)), IntervalOf(First(parts, Ri)), false)
  }

  predicate SubdomainInvalid(parts: seq<Part>) {
    First(parts, Sp).Some? && PolicyOf(First(parts, Sp)).None?
  }

  /** A record that asks for reports is usable without a valid policy, as p=none. */
  function Settle(rec: Record, spInvalid: bool): ParseResult<Record, RecordError> {
    if rec.policy.Some? && !spInvalid then Ok(rec)
    else if rec.rua == [] then Err(BadPolicy)
    else Ok(rec.(policy := Some(NoAction), subdomain := None, implied := true))
  }

  function Parsed(uris: UriParser, txt: string): ParseResult<Record, RecordError> {
    if !IsDmarc(txt) then Err(NoVersion)
    else if Malformed in Parts(txt) then Err(BadTag)
    else Settle(Draft(uris, Parts(txt)), SubdomainInvalid(Parts(txt)))
  }

  // ---------------------------------------------------------------- the parser

  /** One tag that is not a repetition, applied to the record. */
  function Update(uris: UriParser, rec: Record, name: Name, value: string): Record {
    match name
    case P => rec.(policy := PolicyOf(Some(value)))
    case Sp => rec.(subdomain := PolicyOf(Some(value)))
    case Pct => rec.(percent := PercentOf(Some(value)))
    case Adkim => rec.(adkim := ModeOf(Some(value)))
    case Aspf => rec.(aspf := ModeOf(Some(value)))
    case Rua => rec.(rua := UrisOf(uris, Some(value)))
    case Ruf => rec.(ruf := UrisOf(uris, Some(value)))
    case Fo => rec.(fo := OptionsOf(Some(value)))
    case Rf => rec.(rf := FormatOf(Some(value)))
    case Ri => rec.(ri := IntervalOf(Some(value)))
    case _ => rec
  }

  lemma {:induction false} FirstAppended(parts: seq<Part>, p: Part, name: Name)
    ensures First(parts + [p], name) ==
            if First(parts, name).Some? then First(parts, name)
            else if p.Tag? && p.name == name then Some(p.value) else None
  {
    if parts != [] {
      assert (parts + [p])[1..] == parts[1..] + [p];
      FirstAppended(parts[1..], p, name);
    }
  }

  lemma DraftAppended(uris: UriParser, parts: seq<Part>, name: Name, value: string)
    requires First(parts, name).None?
    ensures Draft(uris, parts + [Tag(name, value)]) == Update(uris, Draft(uris, parts), name, value)
    ensures SubdomainInvalid(parts + [Tag(name, value)]) ==
            if name == Sp then PolicyOf(Some(value)).None? else SubdomainInvalid(parts)
  {
    hide First, PolicyOf, PercentOf, ModeOf, UrisOf, OptionsOf, FormatOf, IntervalOf;
    var p := Tag(name, value);
    forall n
      ensures First(parts + [p], n) == if n == name then Some(value) else First(parts, n)
    {
      FirstAppended(parts, p, n);
    }
  }

  /** Two lists of tags with the same first value for every name are the same record. */
  lemma DraftDependsOnFirst(uris: UriParser, a: seq<Part>, b: seq<Part>)
    requires forall name :: First(a, name) == First(b, name)
    ensures Draft(uris, a) == Draft(uris, b) && SubdomainInvalid(a) == SubdomainInvalid(b)
  {
  }

  // ---------------------------------------------------------------- the version tag

  ghost predicate AllIn(s: string, cutset: string) {
    forall c :: c in s ==> c in cutset
  }

  lemma {:induction false} LeftRun(s: string, cutset: string) returns (w: string)
    ensures s == w + TrimLeft(s, cutset) && AllIn(w, cutset)
  {
    if s != "" && s[0] in cutset {
      w := LeftRun(s[1..], cutset);
      w := [s[0]] + w;
    } else {
      w := "";
    }
  }

  /** Nothing to trim at either end. */
  predicate Trimmed(s: string, cutset: string) {
    s != "" && s[0] !in cutset && s[|s| - 1] !in cutset
  }

  lemma {:induction false} TrimBoth(w: string, s: string, w': string, cutset: string)
    requires Trimmed(s, cutset) && AllIn(w, cutset) && AllIn(w', cutset)
    ensures TrimSet(w + s + w', cutset) == s
    decreases |w| + |w'|
  {
    var all := w + s + w';
    if w != "" {
      assert w[0] in w;
      assert all[1..] == w[1..] + s + w';
      TrimBoth(w[1..], s, w', cutset);
    } else if w' != "" {
      assert all[0] == s[0] && all[|all| - 1] == w'[|w'| - 1] && w'[|w'| - 1] in w';
      assert all[..|all| - 1] == w + s + w'[..|w'| - 1];
      TrimBoth(w, s, w'[..|w'| - 1], cutset);
    } else {
      assert all == s;
    }
  }

  lemma {:induction false} FirstField(head: string, rest: string)
    requires ';' !in head && (rest == "" || rest[0] == ';')
    ensures Split(head + rest, ";")[0] == head
  {
    if rest == "" {
      assert head + rest == head;
      SplitPlain(head, ";");
    } else {
      assert head + rest == head + [';'] + rest[1..];
      SplitPrefix(head, ';', rest[1..], ";");
    }
  }

  /** A version tag with white space where the record may have it. */
  function VersionTag(w1: string, w2: string, w3: string): string {
    "v" + w1 + ("=" + (w2 + ("DMARC1" + w3)))
  }

  ghost predicate Blanks(w1: string, w2: string, w3: string) {
    AllIn(w1, WSP) && AllIn(w2, WSP) && AllIn(w3, WSP)
  }

  lemma VersionTrimmed(w1: string, w2: string, w3: string)
    requires Blanks(w1, w2, w3)
    ensures TrimSet(VersionTag(w1, w2, w3), SPACES) == VersionTag(w1, w2, "")
    ensures ';' !in VersionTag(w1, w2, w3)
  {
    var core := VersionTag(w1, w2, "");
    assert core[|core| - 1] == '1';
    assert VersionTag(w1, w2, w3) == "" + core + w3;
    hide VersionTag;
    TrimBoth("", core, w3, SPACES);
  }

  lemma VersionCut(w1: string, w2: string)
    requires Blanks(w1, w2, "")
    ensures var front, core := "v" + w1, VersionTag(w1, w2, "");
            IndexOf(core, '=') == |front| && core == front + ['='] + (w2 + "DMARC1")
  {
    assert VersionTag(w1, w2, "") == ("v" + w1) + ['='] + (w2 + "DMARC1");
    IndexIs("v" + w1, '=', w2 + "DMARC1");
  }

  lemma ReadVersion(w1: string, w2: string, w3: string)
    requires Blanks(w1, w2, w3)
    ensures ReadPart(VersionTag(w1, w2, w3)) == Tag(VERSION, "DMARC1")
  {
    VersionTrimmed(w1, w2, w3);
    VersionCut(w1, w2);
    assert VersionTag(w1, w2, "") != "";
    VersionWords(w1, w2);
    hide VersionTag, IndexOf, TrimSet, Blanks;
  }

  lemma VersionWords(w1: string, w2: string)
    requires Blanks(w1, w2, "")
    ensures Lower(TrimSet("v" + w1, WSP)) == "v" && TrimSet(w2 + "DMARC1", WSP) == "DMARC1"
  {
    assert "" + "v" + w1 == "v" + w1 && w2 + "DMARC1" + "" == w2 + "DMARC1";
    TrimBoth("", "v", w1, WSP);
    TrimBoth(w2, "DMARC1", "", WSP);
    hide TrimSet;
    assert Lower("v") == "v";
  }

  lemma VersionText(txt: string) returns (w1: string, w2: string, w3: string, rest: string)
    requires IsDmarc(txt)
    ensures txt == VersionTag(w1, w2, w3) + rest && Blanks(w1, w2, w3) && (rest == "" || rest[0] == ';')
  {
    hide TrimLeft;
    w1 := LeftRun(txt[1..], WSP);
    var s := TrimLeft(txt[1..], WSP);
    w2 := LeftRun(s[1..], WSP);
    var v := TrimLeft(s[1..], WSP);
    w3 := LeftRun(v[6..], WSP);
    rest := TrimLeft(v[6..], WSP);
    assert v == "DMARC1" + (w3 + rest);
    assert s == "=" + (w2 + v);
    assert txt == "v" + (w1 + s);
    hide IsDmarc, VersionFollows;
    VersionJoins(w1, w2, w3, rest);
  }

  lemma VersionJoins(w1: string, w2: string, w3: string, rest: string)
    ensures VersionTag(w1, w2, w3) + rest == "v" + (w1 + ("=" + (w2 + ("DMARC1" + (w3 + rest)))))
  {
    var v := "DMARC1" + w3;
    assert v + rest == "DMARC1" + (w3 + rest);
    assert w2 + v + rest == w2 + (v + rest);
    var s := "=" + (w2 + v);
    assert s + rest == "=" + (w2 + (v + rest));
    assert VersionTag(w1, w2, w3) + rest == "v" + (w1 + (s + rest));
  }

  lemma {:induction false} TrimLeftRun(w: string, s: string, cutset: string)
    requires AllIn(w, cutset) && (s == "" || s[0] !in cutset)
    ensures TrimLeft(w + s, cutset) == s
  {
    if w == "" {
      assert w + s == s;
    } else {
      assert w[0] in w && (w + s)[1..] == w[1..] + s;
      TrimLeftRun(w[1..], s, cutset);
    }
  }

  lemma VersionIsSeen(w1: string, w2: string, w3: string, rest: string)
    requires Blanks(w1, w2, w3) && (rest == "" || rest[0] == ';')
    ensures IsDmarc(VersionTag(w1, w2, w3) + rest)
  {
    VersionJoins(w1, w2, w3, rest);
    var last := w3 + rest;
    var v := "DMARC1" + last;
    var s := "=" + (w2 + v);
    var txt := "v" + (w1 + s);
    assert txt[1..] == w1 + s && s[1..] == w2 + v && v[6..] == last && v[0] == 'D' && s[0] == '=';
    hide TrimLeft, VersionTag;
    TrimLeftRun(w1, s, WSP);
    TrimLeftRun(w2, v, WSP);
    TrimLeftRun(w3, rest, WSP);
  }

  ghost predicate BeginsWithVersion(txt: string, w1: string, w2: string, w3: string, rest: string) {
    txt == "v" + w1 + ("=" + (w2 + ("DMARC1" + w3))) + rest
    && Blanks(w1, w2, w3) && (rest == "" || rest[0] == ';')
  }

  /** A record is one that begins with v=DMARC1, in this letter case, with blanks only around
      the equals sign and behind, up to a semicolon or the end. */
  lemma IsDmarcIsExact(txt: string)
    ensures IsDmarc(txt) <==> exists w1, w2, w3, rest :: BeginsWithVersion(txt, w1, w2, w3, rest)
  {
    hide IsDmarc, Blanks;
    if IsDmarc(txt) {
      var w1, w2, w3, rest := VersionText(txt);
      assert BeginsWithVersion(txt, w1, w2, w3, rest);
    }
    forall w1, w2, w3, rest | BeginsWithVersion(txt, w1, w2, w3, rest)
      ensures IsDmarc(txt)
    {
      VersionIsSeen(w1, w2, w3, rest);
    }
  }

  /** What begins with the version tag has it as its first part. */
  lemma VersionComesFirst(txt: string)
    requires IsDmarc(txt)
    ensures Parts(txt)[0] == Tag(VERSION, "DMARC1")
  {
    hide IsDmarc, VersionTag, Split, Blanks, ReadPart;
    var w1, w2, w3, rest := VersionText(txt);
    VersionTrimmed(w1, w2, w3);
    FirstField(VersionTag(w1, w2, w3), rest);
    ReadVersion(w1, w2, w3);
  }

  // ---------------------------------------------------------------- the loop

  lemma NextPart(uris: UriParser, parts: seq<Part>, i: nat)
    requires i < |parts| && parts[i].Tag? && First(parts[..i], parts[i].name).None?
    ensures var all := parts[..i + 1];
            && Draft(uris, all) == Update(uris, Draft(uris, parts[..i]), parts[i].name, parts[i].value)
            && SubdomainInvalid(all) ==
               if parts[i].name == Sp then PolicyOf(Some(parts[i].value)).None? else SubdomainInvalid(parts[..i])
  {
    hide Draft, Update, SubdomainInvalid, First;
    assert parts[..i + 1] == parts[..i] + [Tag(parts[i].name, parts[i].value)];
    DraftAppended(uris, parts[..i], parts[i].name, parts[i].value);
  }

  lemma SkippedPart(uris: UriParser, parts: seq<Part>, i: nat)
    requires i < |parts| && (parts[i].Tag? ==> First(parts[..i], parts[i].name).Some?)
    ensures forall n :: First(parts[..i + 1], n) == First(parts[..i], n)
    ensures Draft(uris, parts[..i + 1]) == Draft(uris, parts[..i])
    ensures SubdomainInvalid(parts[..i + 1]) == SubdomainInvalid(parts[..i])
  {
    forall n
      ensures First(parts[..i + 1], n) == First(parts[..i], n)
    {
      assert parts[..i + 1] == parts[..i] + [parts[i]];
      FirstAppended(parts[..i], parts[i], n);
    }
    DraftDependsOnFirst(uris, parts[..i + 1], parts[..i]);
  }

  /** The state of the parser after i parts. */
  ghost predicate Upto(uris: UriParser, parts: seq<Part>, i: nat, rec: Record, seen: set<Name>, spInvalid: bool)
    requires i <= |parts|
  {
    && Malformed !in parts[..i]
    && rec == Draft(uris, parts[..i]) && spInvalid == SubdomainInvalid(parts[..i])
    && forall n :: n in seen <==> First(parts[..i], n).Some?
  }

  lemma Start(uris: UriParser, parts: seq<Part>)
    ensures Upto(uris, parts, 0, DEFAULTS, {}, false)
  {
  }

  lemma Skip(uris: UriParser, parts: seq<Part>, i: nat, rec: Record, seen: set<Name>, spInvalid: bool)
    requires i < |parts| && Upto(uris, parts, i, rec, seen, spInvalid)
    requires parts[i].Blank? || (parts[i].Tag? && parts[i].name in seen)
    ensures Upto(uris, parts, i + 1, rec, seen, spInvalid)
  {
    hide Draft, SubdomainInvalid, First;
    SkippedPart(uris, parts, i);
    assert parts[..i + 1] == parts[..i] + [parts[i]];
  }

  lemma Take(uris: UriParser, parts: seq<Part>, i: nat, rec: Record, seen: set<Name>, spInvalid: bool)
    requires i < |parts| && Upto(uris, parts, i, rec, seen, spInvalid)
    requires parts[i].Tag? && parts[i].name !in seen
    ensures var Tag(name, value) := parts[i];
            Upto(uris, parts, i + 1, Update(uris, rec, name, value), seen + {name},
                 if name == Sp then PolicyOf(Some(value)).None? else spInvalid)
  {
    hide Draft, SubdomainInvalid, First, Update, PolicyOf;
    NextPart(uris, parts, i);
    assert parts[..i + 1] == parts[..i] + [parts[i]];
    forall n
      ensures n in seen + {parts[i].name} <==> First(parts[..i + 1], n).Some?
    {
      FirstAppended(parts[..i], parts[i], n);
    }
  }

  method SetField(uris: UriParser, before: Record, name: Name, value: string) returns (rec: Record)
    ensures rec == Update(uris, before, name, value)
    ensures name == Sp ==> rec.subdomain == PolicyOf(Some(value))
  {
    rec := before;
    match name {
      case P => rec := rec.(policy := ParsePolicy(value));
      case Sp => rec := rec.(subdomain := ParsePolicy(value));
      case Pct =>
        var n := ParsePercent(value);
        rec := rec.(percent := if n.Some? then n.value else 100);
      case Adkim =>
        var m := ParseMode(value);
        rec := rec.(adkim := if m.Some? then m.value else Relaxed);
      case Aspf =>
        var m := ParseMode(value);
        rec := rec.(aspf := if m.Some? then m.value else Relaxed);
      case Rua => rec := rec.(rua := uris(value));
      case Ruf => rec := rec.(ruf := uris(value));
      case Fo =>
        var options := FailureOptions(value);
        rec := rec.(fo := if options != [] then options else ["0"]);
      case Rf => rec := rec.(rf := value);
      case Ri =>
        var n := ParseInterval(value);
        rec := rec.(ri := if n.Some? then n.value else 86400);
      case Other(_) =>
    }
  }

  method Parse(uris: UriParser, txt: string) returns (r: ParseResult<Record, RecordError>)
    ensures r == Parsed(uris, txt)
  {
    hide IsDmarc, Draft, SubdomainInvalid, Settle, Split;
    if !IsDmarc(txt) {
      return Err(NoVersion);
    }
    VersionComesFirst(txt);
    r := ParseParts(uris, Split(txt, ";"));
  }

  method ParseParts(uris: UriParser, texts: seq<string>) returns (r: ParseResult<Record, RecordError>)
    requires texts != [] && ReadPart(texts[0]) == Tag(VERSION, "DMARC1")
    ensures var parts := ReadParts(texts);
            r == if Malformed in parts then Err(BadTag) else Settle(Draft(uris, parts), SubdomainInvalid(parts))
  {
    hide ReadPart, Upto, Update, PolicyOf, Draft, SubdomainInvalid, Settle;
    var rec, seen, pValid, spInvalid := DEFAULTS, {}, false, false;
    ghost var parts := ReadParts(texts);
    Start(uris, parts);
    for i := 0 to |texts|
      invariant Upto(uris, parts, i, rec, seen, spInvalid) && pValid == rec.policy.Some? && (i == 0 ==> seen == {})
    {
      var part := ReadPart(texts[i]);
      match part {
        case Blank =>
          Skip(uris, parts, i, rec, seen, spInvalid);
        case Malformed =>
          assert parts[i] in parts;
          return Err(BadTag);
        case Tag(name, value) =>
          if i == 0 {
            Take(uris, parts, i, rec, seen, spInvalid);
            VersionChangesNothing(uris, rec, value);
            seen := seen + {VERSION};
          } else if name in seen {
            Skip(uris, parts, i, rec, seen, spInvalid);
          } else {
            Take(uris, parts, i, rec, seen, spInvalid);
            seen := seen + {name};
            rec := SetField(uris, rec, name, value);
            pValid := rec.policy.Some?;
            spInvalid := if name == Sp then rec.subdomain.None? else spInvalid;
          }
      }
    }
    Finished(uris, parts, rec, seen, spInvalid);
    r := Finish(rec, pValid, spInvalid);
  }

  /** Without a valid policy the record is used only for its reports. */
  method Finish(rec: Record, pValid: bool, spInvalid: bool) returns (r: ParseResult<Record, RecordError>)
    requires pValid == rec.policy.Some?
    ensures r == Settle(rec, spInvalid)
  {
    if !pValid || spInvalid {
      if rec.rua == [] {
        return Err(BadPolicy);
      }
      return Ok(rec.(policy := Some(NoAction), subdomain := None, implied := true));
    }
    return Ok(rec);
  }

  lemma VersionChangesNothing(uris: UriParser, rec: Record, value: string)
    ensures Update(uris, rec, VERSION, value) == rec
  {
  }

  lemma Finished(uris: UriParser, parts: seq<Part>, rec: Record, seen: set<Name>, spInvalid: bool)
    requires Upto(uris, parts, |parts|, rec, seen, spInvalid)
    ensures Malformed !in parts && rec == Draft(uris, parts) && spInvalid == SubdomainInvalid(parts)
  {
    assert parts[..|parts|] == parts;
  }

  // ---------------------------------------------------------------- what the record depends on

  /** Two texts that agree on the first value of every tag are the same record. */
  lemma FirstTagsDecide(uris: UriParser, a: string, b: string)
    requires IsDmarc(a) == IsDmarc(b) && (Malformed in Parts(a) <==> Malformed in Parts(b))
    requires forall name :: First(Parts(a), name) == First(Parts(b), name)
    ensures Parsed(uris, a) == Parsed(uris, b)
  {
    hide IsDmarc;
    DraftDependsOnFirst(uris, Parts(a), Parts(b));
  }

  /** The parts of a record, which contain no semicolon. */
  ghost predicate IsPart(text: string) {
    ';' !in text
  }

  ghost predicate ArePartsOf(texts: seq<string>) {
    texts != [] && forall i :: 0 <= i < |texts| ==> IsPart(texts[i])
  }

  lemma PartsOfJoin(texts: seq<string>)
    requires ArePartsOf(texts)
    ensures Parts(Join(texts, ";")) == ReadParts(texts)
  {
    assert forall k :: 0 <= k < |texts| ==> IsPart(texts[k]);
    SplitJoin(texts, ';');
  }

  lemma {:induction false} TrimLeftConcat(s: string, rest: string, cutset: string)
    requires rest == "" || rest[0] !in cutset
    ensures TrimLeft(s + rest, cutset) == TrimLeft(s, cutset) + rest
  {
    if s == "" {
      assert s + rest == rest;
    } else if s[0] in cutset {
      assert (s + rest)[1..] == s[1..] + rest;
      TrimLeftConcat(s[1..], rest, cutset);
    }
  }

  ghost predicate AtSemicolon(rest: string) {
    rest == "" || rest[0] == ';'
  }

  lemma PrefixLocally(v: string, rest: string)
    requires AtSemicolon(rest)
    ensures "DMARC1" <= v + rest <==> "DMARC1" <= v
  {
    if |v| < 6 && rest != "" {
      assert (v + rest)[|v|] == ';' && "DMARC1"[|v|] != ';';
    }
  }

  lemma VersionFollowsLocally(s: string, rest: string)
    requires AtSemicolon(rest)
    ensures VersionFollows(s + rest) == VersionFollows(s)
  {
    if s != "" && s[0] == '=' {
      assert (s + rest)[1..] == s[1..] + rest;
      TrimLeftConcat(s[1..], rest, WSP);
      var v := TrimLeft(s[1..], WSP);
      PrefixLocally(v, rest);
      if "DMARC1" <= v {
        assert (v + rest)[6..] == v[6..] + rest;
        TrimLeftConcat(v[6..], rest, WSP);
      }
    }
  }

  /** Whether a text is a DMARC record is seen from its first part. */
  lemma IsDmarcLocally(head: string, rest: string)
    requires AtSemicolon(rest)
    ensures IsDmarc(head + rest) == IsDmarc(head)
  {
    if head != "" {
      assert (head + rest)[1..] == head[1..] + rest;
      TrimLeftConcat(head[1..], rest, WSP);
      VersionFollowsLocally(TrimLeft(head[1..], WSP), rest);
    }
  }

  lemma IsDmarcOfJoin(texts: seq<string>)
    requires texts != []
    ensures IsDmarc(Join(texts, ";")) == IsDmarc(texts[0])
  {
    if |texts| > 1 {
      var rest := ";" + Join(texts[1..], ";");
      assert Join(texts, ";") == texts[0] + rest;
      IsDmarcLocally(texts[0], rest);
    }
  }

  /** The first part and, for every name, the first value are all that matters. */
  lemma SameFirstsSameRecord(uris: UriParser, a: seq<string>, b: seq<string>)
    requires ArePartsOf(a) && ArePartsOf(b) && a[0] == b[0]
    requires Malformed in ReadParts(a) <==> Malformed in ReadParts(b)
    requires forall name :: First(ReadParts(a), name) == First(ReadParts(b), name)
    ensures Parsed(uris, Join(a, ";")) == Parsed(uris, Join(b, ";"))
  {
    hide Parsed, IsDmarc, Join;
    PartsOfJoin(a);
    PartsOfJoin(b);
    IsDmarcOfJoin(a);
    IsDmarcOfJoin(b);
    FirstTagsDecide(uris, Join(a, ";"), Join(b, ";"));
  }

  lemma {:induction false} FirstOfConcat(a: seq<Part>, b: seq<Part>, name: Name)
    ensures First(a + b, name) == if First(a, name).Some? then First(a, name) else First(b, name)
  {
    if a == [] {
      assert a + b == b;
    } else {
      assert (a + b)[1..] == a[1..] + b;
      FirstOfConcat(a[1..], b, name);
    }
  }

  lemma {:induction false} FirstExists(parts: seq<Part>, i: nat)
    requires i < |parts| && parts[i].Tag?
    ensures First(parts, parts[i].name).Some?
  {
    if i > 0 {
      FirstExists(parts[1..], i - 1);
    }
  }

  lemma FirstWithout(before: seq<Part>, p: Part, after: seq<Part>, name: Name)
    requires p.Tag? && First(before, p.name).Some?
    ensures First(before + ([p] + after), name) == First(before + after, name)
  {
    FirstOfConcat(before, [p] + after, name);
    FirstOfConcat(before, after, name);
    assert ([p] + after)[1..] == after;
  }

  function Without<T>(s: seq<T>, j: nat): seq<T>
    requires j < |s|
  {
    s[..j] + s[j + 1..]
  }

  lemma DroppedPart(parts: seq<Part>, i: nat, j: nat)
    requires i < j < |parts| && parts[i].Tag? && parts[j].Tag? && parts[i].name == parts[j].name
    ensures forall name :: First(parts, name) == First(Without(parts, j), name)
    ensures Malformed in parts <==> Malformed in Without(parts, j)
  {
    hide First;
    FirstExists(parts[..j], i);
    assert parts == parts[..j] + ([parts[j]] + parts[j + 1..]);
    forall name
      ensures First(parts, name) == First(Without(parts, j), name)
    {
      FirstWithout(parts[..j], parts[j], parts[j + 1..], name);
    }
  }

  lemma ReadWithout(texts: seq<string>, j: nat)
    requires ArePartsOf(texts) && 0 < j < |texts|
    ensures ArePartsOf(Without(texts, j)) && Without(texts, j)[0] == texts[0]
    ensures ReadParts(Without(texts, j)) == Without(ReadParts(texts), j)
  {
  }

  /** A repeated tag can be deleted: the record, or the error, is the same. */
  lemma RepetitionsDoNotMatter(uris: UriParser, texts: seq<string>, i: nat, j: nat)
    requires ArePartsOf(texts) && i < j < |texts|
    requires ReadPart(texts[i]).Tag? && ReadPart(texts[j]).Tag?
    requires ReadPart(texts[i]).name == ReadPart(texts[j]).name
    ensures Parsed(uris, Join(texts, ";")) == Parsed(uris, Join(Without(texts, j), ";"))
  {
    hide Parsed, Join, ReadPart, First, Without, ArePartsOf;
    DroppedPart(ReadParts(texts), i, j);
    ReadWithout(texts, j);
    SameFirstsSameRecord(uris, texts, Without(texts, j));
  }

  /** The values of all tags of that name, in order. */
  function OfName(parts: seq<Part>, name: Name): seq<string> {
    if parts == [] then []
    else (if parts[0].Tag? && parts[0].name == name then [parts[0].value] else []) + OfName(parts[1..], name)
  }

  lemma {:induction false} FirstOfName(parts: seq<Part>, name: Name)
    ensures First(parts, name) == if OfName(parts, name) == [] then None else Some(OfName(parts, name)[0])
  {
    if parts != [] {
      FirstOfName(parts[1..], name);
    }
  }

  lemma MalformedSomewhere(a: seq<string>, b: seq<string>)
    requires multiset(a) == multiset(b) && Malformed in ReadParts(a)
    ensures Malformed in ReadParts(b)
  {
    var i :| 0 <= i < |a| && ReadParts(a)[i] == Malformed;
    assert a[i] in multiset(a);
    assert a[i] in b;
    var k :| 0 <= k < |b| && b[k] == a[i];
    assert ReadParts(b)[k] == Malformed;
  }

  /** Tags may stand in any order after the version, as long as equal tags keep theirs. */
  lemma OrderDoesNotMatter(uris: UriParser, a: seq<string>, b: seq<string>)
    requires ArePartsOf(a) && ArePartsOf(b) && a[0] == b[0] && multiset(a) == multiset(b)
    requires forall name :: OfName(ReadParts(a), name) == OfName(ReadParts(b), name)
    ensures Parsed(uris, Join(a, ";")) == Parsed(uris, Join(b, ";"))
  {
    hide ReadPart, Parsed, Join;
    if Malformed in ReadParts(a) {
      MalformedSomewhere(a, b);
    } else if Malformed in ReadParts(b) {
      MalformedSomewhere(b, a);
    }
    forall name
      ensures First(ReadParts(a), name) == First(ReadParts(b), name)
    {
      FirstOfName(ReadParts(a), name);
      FirstOfName(ReadParts(b), name);
    }
    SameFirstsSameRecord(uris, a, b);
  }

  // ---------------------------------------------------------------- what is accepted

  /** A record is accepted exactly when it begins with the version, has no malformed tag, and
      has a valid policy or somewhere to report to. It then always names a policy and keeps
      its percentage in range. Where the policy was not the published one it is none, for the
      domain and below. */
  lemma AcceptedIsUsable(uris: UriParser, txt: string)
    ensures Parsed(uris, txt).Ok? <==>
            && IsDmarc(txt) && Malformed !in Parts(txt)
            && ((PolicyOf(First(Parts(txt), P)).Some? && !SubdomainInvalid(Parts(txt)))
                || UrisOf(uris, First(Parts(txt), Rua)) != [])
    ensures Parsed(uris, txt).Ok? ==>
              var rec := Parsed(uris, txt).value;
              && rec.policy.Some? && 0 <= rec.percent <= 100 && rec.ri <= MAX_UINT32 && rec.fo != []
              && (rec.implied ==> rec.policy == Some(NoAction) && rec.subdomain == None && rec.rua != [])
              && (rec.implied <==> PolicyOf(First(Parts(txt), P)).None? || SubdomainInvalid(Parts(txt)))
              && (!rec.implied ==> rec.policy == PolicyOf(First(Parts(txt), P)))
  {
    hide IsDmarc, First, Parts, ParsePolicy, Digits, Atoi, KnownOptions, Split;
  }
}
