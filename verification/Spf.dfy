/** SPF records as parsed terms, DNS answers, and what each mechanism looks up
    (internal/spf/record.go, eval.go, expand.go; section 5 of RFC 7208). */
module Spf {
  import opened Wrappers
  import opened Ascii
  import opened Names
  import opened Macro

  datatype Result = NoneResult | Neutral | Pass | Fail | SoftFail | TempError | PermError

  datatype Qualifier = Plus | Minus | Tilde | Question {
    function Result(): Result {
      match this
      case Plus => Pass
      case Minus => Fail
      case Tilde => SoftFail
      case Question => Neutral
    }
  }

  datatype Name = All | Include | A | MX | PTR | IP4 | IP6 | Exists | Redirect | Exp | Unknown

  /** A domain-spec: the c, r and t letters are for explanation texts only. */
  type DomainSpec = m: MacroString | forall t :: t in m && t.Expand? ==> t.letter !in "crt" witness []

  /** The last three names are modifiers. spec is None when the term has no domain-spec. */
  datatype Term = Term(
    name: Name, qualifier: Qualifier, spec: Option<DomainSpec>,
    network: Addr, bits: nat, cidr4: int, cidr6: int)
  {
    predicate Modifier() {
      name.Redirect? || name.Exp? || name.Unknown?
    }

    predicate CountsLookup() {
      name in {Include, A, MX, PTR, Exists, Redirect}
    }
  }

  datatype Record = Record(terms: seq<Term>, redirect: Option<Term>, exp: Option<Term>)

  /** What the record parser makes of one TXT string. */
  datatype SpfView = NotSpf | SyntaxError | Parsed(record: Record)

  /** One TXT string, read as an SPF record and as an explanation. */
  datatype Txt = Txt(spf: SpfView, explanation: Option<MacroString>)

  // ---------------------------------------------------------------- DNS

  datatype Kind = NXDomain | Temporary | Refused | Malformed | TooLarge | Budget | InvalidName | OtherError

  predicate IsTemporary(k: Kind) {
    !k.NXDomain? && !k.InvalidName?
  }

  datatype Answer<+T> = Data(v: seq<T>) | Failed(kind: Kind)

  datatype Resolver = Resolver(
    txt: string -> Answer<Txt>,
    mx: string -> Answer<string>,
    a: string -> Answer<Addr>,
    aaaa: string -> Answer<Addr>,
    ptr: Addr -> Answer<string>)

  /** DNS names are case-insensitive: a resolver answers alike whatever the letter case. */
  ghost predicate CaseInsensitive(r: Resolver) {
    forall x: string, y: string :: EqualFold(x, y) ==>
      r.txt(x) == r.txt(y) && r.mx(x) == r.mx(y) && r.a(x) == r.a(y) && r.aaaa(x) == r.aaaa(y)
  }

  function LookupAddrs(r: Resolver, ip: Addr, name: string): Answer<Addr> {
    if ip.V4? then r.a(name) else r.aaaa(name)
  }

  datatype Limits = Limits(maxLookups: nat, maxVoids: nat, maxMX: nat, maxPTR: nat, maxDepth: nat)

  const DEFAULT_LIMITS := Limits(10, 2, 10, 10, 16)

  /** The limits in force: all zero stands for the defaults. */
  function Effective(lim: Limits): Limits {
    if lim == Limits(0, 0, 0, 0, 0) then DEFAULT_LIMITS else lim
  }

  datatype Request = Request(
    ip: Addr, sender: string, helo: string, domain: string, receiver: string, ipText: string, time: string)

  function ContextOf(req: Request, domain: string): Context {
    Context(req.ip, req.sender, domain, req.helo, req.receiver, req.ipText, req.time)
  }

  predicate ValidInitialDomain(d: string) {
    ValidDomain(d) && '.' in TrimDot(d)
  }

  lemma FoldValidInitialDomain(a: string, b: string)
    requires EqualFold(a, b)
    ensures ValidInitialDomain(a) == ValidInitialDomain(b)
  {
    FoldValidDomain(a, b);
    FoldTrimDot(a, b);
    var x, y := TrimDot(a), TrimDot(b);
    assert |x| == |Lower(x)| == |y|;
    forall i | 0 <= i < |x|
      ensures x[i] == '.' <==> y[i] == '.'
    {
      FoldAt(x, y, i);
    }
  }

  // ---------------------------------------------------------------- record retrieval

  datatype Fetched = NoRecord | TempFailure | Several | One(view: SpfView)

  function SpfTexts(txts: seq<Txt>): seq<SpfView> {
    if txts == [] then []
    else if txts[0].spf.NotSpf? then SpfTexts(txts[1..])
    else [txts[0].spf] + SpfTexts(txts[1..])
  }

  function Fetch(r: Resolver, domain: string): Fetched {
    match r.txt(domain)
    case Failed(NXDomain) => NoRecord
    case Failed(_) => TempFailure
    case Data(txts) =>
      var views := SpfTexts(txts);
      if views == [] then NoRecord else if |views| == 1 then One(views[0]) else Several
  }

  // ---------------------------------------------------------------- addresses

  function Bit(o: Octet, i: nat): nat
    requires i < 8
  {
    o / [128, 64, 32, 16, 8, 4, 2, 1][i] % 2
  }

  /** The first bits of two addresses of one family agree. */
  predicate SamePrefix(a: Addr, b: Addr, bits: nat) {
    a.V4? == b.V4? && bits <= 8 * |a.b|
    && forall i :: 0 <= i < bits ==> Bit(a.b[i / 8], i % 8) == Bit(b.b[i / 8], i % 8)
  }

  predicate AddrMatches(addr: Addr, ip: Addr, t: Term) {
    var a := Unmap(addr);
    var bits := if ip.V4? then t.cidr4 else t.cidr6;
    a.V4? == ip.V4? && (if bits < 0 then a == ip else SamePrefix(a, ip, bits))
  }

  predicate MatchAddrs(addrs: seq<Addr>, ip: Addr, t: Term) {
    exists a :: a in addrs && AddrMatches(a, ip, t)
  }

  method AnyAddrMatches(addrs: seq<Addr>, ip: Addr, t: Term) returns (hit: bool)
    ensures hit == MatchAddrs(addrs, ip, t)
  {
    for i := 0 to |addrs|
      invariant forall k :: 0 <= k < i ==> !AddrMatches(addrs[k], ip, t)
    {
      if AddrMatches(addrs[i], ip, t) {
        return true;
      }
    }
    return false;
  }

  // ---------------------------------------------------------------- reverse lookups

  /** The names whose own addresses include the client, in lower case. */
  function Validated(r: Resolver, ip: Addr, names: seq<string>): seq<string> {
    if names == [] then []
    else
      var rest := Validated(r, ip, names[1..]);
      match LookupAddrs(r, ip, names[0])
      case Data(addrs) => if Unmap(ip) in addrs then [Lower(names[0])] + rest else rest
      case Failed(_) => rest
  }

  /** The PTR names considered: silently at most maxNames of them. */
  function Considered(r: Resolver, ip: Addr, maxNames: nat): Option<seq<string>> {
    match r.ptr(ip)
    case Failed(_) => None
    case Data(names) => Some(if |names| > maxNames then names[..maxNames] else names)
  }

  function PtrValidated(r: Resolver, ip: Addr, maxNames: nat): Option<seq<string>> {
    match Considered(r, ip, maxNames)
    case None => None
    case Some(names) => Some(Validated(r, ip, names))
  }

  /** Lookups made by one PTR validation. */
  function PtrCost(r: Resolver, ip: Addr, maxNames: nat): (n: nat)
    ensures n <= 1 + maxNames
  {
    match Considered(r, ip, maxNames)
    case None => 1
    case Some(names) => 1 + |names|
  }

  /** The first name below domain, or else the first name. */
  function FirstBelow(names: seq<string>, domain: string, default: string): string {
    if names == [] then default
    else if HasSuffix(names[0], "." + domain) then names[0]
    else FirstBelow(names[1..], domain, default)
  }

  /** The value of the p macro in the record of domain. */
  function PMacro(r: Resolver, ip: Addr, maxNames: nat, domain: string): string {
    match PtrValidated(r, ip, maxNames)
    case None => "unknown"
    case Some(names) =>
      if names == [] then "unknown"
      else if Lower(domain) in names then Lower(domain)
      else FirstBelow(names, Lower(domain), names[0])
  }

  // ---------------------------------------------------------------- mechanisms

  datatype Probe = Hit | Miss | Void | Temp

  /** Looking up the exchangers of an mx mechanism until one matches. */
  function MxProbe(r: Resolver, ip: Addr, hosts: seq<string>, t: Term): Probe {
    if hosts == [] then Miss
    else if hosts[0] == "." then MxProbe(r, ip, hosts[1..], t)
    else
      match LookupAddrs(r, ip, hosts[0])
      case Failed(k) => if IsTemporary(k) then Temp else MxProbe(r, ip, hosts[1..], t)
      case Data(addrs) => if MatchAddrs(addrs, ip, t) then Hit else MxProbe(r, ip, hosts[1..], t)
  }

  /** Address lookups made by MxProbe. */
  function MxCost(r: Resolver, ip: Addr, hosts: seq<string>, t: Term): (n: nat)
    ensures n <= |hosts|
  {
    if hosts == [] then 0
    else if hosts[0] == "." then MxCost(r, ip, hosts[1..], t)
    else
      match LookupAddrs(r, ip, hosts[0])
      case Failed(k) => 1 + (if IsTemporary(k) then 0 else MxCost(r, ip, hosts[1..], t))
      case Data(addrs) => 1 + (if MatchAddrs(addrs, ip, t) then 0 else MxCost(r, ip, hosts[1..], t))
  }

  predicate PtrMatches(names: seq<string>, target: string) {
    exists n :: n in names && (n == target || HasSuffix(n, "." + target))
  }

  /** The verdict of a mechanism other than include on its expanded target. */
  function ProbeOf(r: Resolver, ip: Addr, maxNames: nat, t: Term, target: string): Probe {
    match t.name
    case All => Hit
    case IP4 => if ip.V4? && SamePrefix(t.network, ip, t.bits) then Hit else Miss
    case IP6 => if ip.V6? && SamePrefix(t.network, ip, t.bits) then Hit else Miss
    case A =>
      (match LookupAddrs(r, ip, target)
       case Failed(k) => if IsTemporary(k) then Temp else Void
       case Data(addrs) => if addrs == [] then Void else if MatchAddrs(addrs, ip, t) then Hit else Miss)
    case MX =>
      (match r.mx(target)
       case Failed(k) => if IsTemporary(k) then Temp else Void
       case Data(hosts) => if hosts == [] then Void else MxProbe(r, ip, hosts, t))
    case PTR =>
      (match PtrValidated(r, ip, maxNames)
       case None => Miss
       case Some(names) => if PtrMatches(names, Lower(target)) then Hit else Miss)
    case Exists =>
      (match r.a(target)
       case Failed(k) => if IsTemporary(k) then Temp else Void
       case Data(addrs) => if addrs == [] then Void else Hit)
    case _ => Miss
  }

  /** The exchangers of target outnumber what an mx mechanism may consider. */
  predicate TooManyMX(r: Resolver, maxMX: nat, t: Term, target: string) {
    t.name.MX? && r.mx(target).Data? && |r.mx(target).v| > maxMX
  }

  /** Lookups made by a mechanism other than include. */
  function ProbeCost(r: Resolver, ip: Addr, maxMX: nat, maxNames: nat, t: Term, target: string): (n: nat)
    ensures n <= 1 + (if maxMX > maxNames then maxMX else maxNames)
    ensures !t.CountsLookup() ==> n == 0
  {
    match t.name
    case A => 1
    case Exists => 1
    case MX => 1 + (if r.mx(target).Data? && |r.mx(target).v| <= maxMX then MxCost(r, ip, r.mx(target).v, t) else 0)
    case PTR => PtrCost(r, ip, maxNames)
    case _ => 0
  }
}
