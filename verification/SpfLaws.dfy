/** What a run of check_host() answers, spelled out: each law names the result and is stated
    without the functions that compute it (sections 4.6, 5 and 6 of RFC 7208). */
module SpfLaws {
  import opened Wrappers
  import opened Ascii
  import opened Names
  import opened Spf
  import opened SpfEval
  import opened SpfNetworks

  // ---------------------------------------------------------------- results

  /** The result of a match. */
  predicate Gives(q: Qualifier, result: Result) {
    match q
    case Plus => result == Pass
    case Minus => result == Fail
    case Tilde => result == SoftFail
    case Question => result == Neutral
  }

  lemma QualifierGives(q: Qualifier)
    ensures Gives(q, q.Result())
  {
  }

  /** The domain of the request has this one record. */
  ghost predicate HasRecord(r: Resolver, req: Request, rec: Record) {
    var d := Normalized(req).domain;
    && ValidInitialDomain(d)
    && r.txt(d).Data? && SpfTexts(r.txt(d).v) == [Parsed(rec)]
  }

  /** The run begins with the first term of the record. */
  lemma RunOfRecord(r: Resolver, lim: Limits, req: Request, rec: Record)
    requires HasRecord(r, req, rec)
    ensures var e := EnvOf(r, lim, req);
            Run(r, lim, req) == Terms(e, e.req.domain, [], rec, 0, START.(queries := 1))
  {
    hide Terms, ValidInitialDomain, SpfTexts, Normalized, Effective;
  }

  // ---------------------------------------------------------------- networks

  /** The client is in the network of the term. */
  predicate Contains(t: Term, ip: Addr) {
    match t.name
    case All => true
    case IP4 => ip.V4? && InBlock(ip, t.network, t.bits)
    case IP6 => ip.V6? && InBlock(ip, t.network, t.bits)
    case _ => false
  }

  predicate IsNetwork(t: Term) {
    t.name.All? || t.name.IP4? || t.name.IP6?
  }

  /** Terms before the k-th are networks without the client, or modifiers. */
  ghost predicate NoneContains(terms: seq<Term>, k: nat, ip: Addr) {
    k <= |terms| && forall i :: 0 <= i < k ==> terms[i].Modifier() || (IsNetwork(terms[i]) && !Contains(terms[i], ip))
  }

  lemma NetworkStep(e: Env, d: string, t: Term, st: State)
    requires IsNetwork(t)
    ensures Match(e, d, [], t, st) == (if Contains(t, e.req.ip) then Matched else Unmatched, st)
  {
    PrefixIsBlock(t.network, e.req.ip, t.bits);
    hide SamePrefix, InBlock;
  }

  lemma {:induction false} NetworksPassed(e: Env, d: string, rec: Record, i: nat, k: nat, st: State)
    requires i <= k && NoneContains(rec.terms, k, e.req.ip)
    ensures Terms(e, d, [], rec, i, st) == Terms(e, d, [], rec, k, st)
    decreases k - i
  {
    hide Contains, Match, Finish, AfterMatch;
    if i < k {
      NetworksPassed(e, d, rec, i + 1, k, st);
      if !rec.terms[i].Modifier() {
        NetworkStep(e, d, rec.terms[i], st);
      }
    }
  }

  /** The first network of a record that the client is in decides, whatever stands behind it;
      without one, and without a redirect, the result is Neutral. */
  lemma FirstNetworkDecides(r: Resolver, lim: Limits, req: Request, rec: Record, k: nat)
    requires HasRecord(r, req, rec) && NoneContains(rec.terms, k, Unmap(req.ip))
    requires k < |rec.terms| ==> IsNetwork(rec.terms[k]) && Contains(rec.terms[k], Unmap(req.ip))
    ensures k < |rec.terms| ==> Gives(rec.terms[k].qualifier, Run(r, lim, req).0.result)
    ensures k == |rec.terms| && rec.redirect.None? ==> Run(r, lim, req).0.result == Neutral
    ensures k < |rec.terms| || rec.redirect.None? ==> Run(r, lim, req).1.lookups == 0
  {
    RunOfRecord(r, lim, req, rec);
    var e := EnvOf(r, lim, req);
    var d, st := e.req.domain, START.(queries := 1);
    assert e.req.ip == Unmap(req.ip);
    hide Run, HasRecord, NoneContains, Contains, Normalized, Effective, Match, Unmap;
    NetworksPassed(e, d, rec, 0, k, st);
    if k < |rec.terms| {
      NetworkStep(e, d, rec.terms[k], st);
      QualifierGives(rec.terms[k].qualifier);
      AfterLookups(e, d, rec, rec.terms[k].qualifier.Result(), st);
    }
  }

  lemma AfterLookups(e: Env, d: string, rec: Record, result: Result, st: State)
    ensures AfterMatch(e, d, 0, rec, result, st).lookups == st.lookups
  {
  }

  /** "ip4:N/n all": the client's number decides. */
  lemma NetworkThenAll(r: Resolver, lim: Limits, req: Request, rec: Record, t: Term, all: Term)
    requires HasRecord(r, req, rec) && rec.terms == [t, all] && all.name.All?
    requires t.name.IP4? && Unmap(req.ip).V4? && t.network.V4? && t.bits <= 32
    requires Number(t.network.b) % Pow2(32 - t.bits) == 0
    ensures var low, x := Number(t.network.b), Number(Unmap(req.ip).b);
            Gives(if low <= x < low + Pow2(32 - t.bits) then t.qualifier else all.qualifier, Run(r, lim, req).0.result)
  {
    hide HasRecord, Run, Pow2, Number;
    BlockIsInterval(Unmap(req.ip), t.network, t.bits);
    FirstNetworkDecides(r, lim, req, rec, if Contains(t, Unmap(req.ip)) then 0 else 1);
  }

  // ---------------------------------------------------------------- one mechanism and "all"

  /** The step that the first mechanism of a run takes. */
  function FirstStep(r: Resolver, lim: Limits, req: Request, t: Term): Step {
    var e := EnvOf(r, lim, req);
    Match(e, e.req.domain, [], t, START.(queries := 1)).0
  }

  predicate Gave(step: Step, q: Qualifier, q': Qualifier, result: Result) {
    match step
    case Matched => Gives(q, result)
    case Unmatched => Gives(q', result)
    case Stop(o) => result == o.result
  }

  /** A mechanism and "all": the first decides, or stops the run, or leaves it to the second. */
  lemma ThenAll(r: Resolver, lim: Limits, req: Request, rec: Record, t: Term, all: Term)
    requires HasRecord(r, req, rec) && rec.terms == [t, all] && all.name.All? && !t.Modifier()
    ensures Gave(FirstStep(r, lim, req, t), t.qualifier, all.qualifier, Run(r, lim, req).0.result)
  {
    RunOfRecord(r, lim, req, rec);
    var e := EnvOf(r, lim, req);
    var d := e.req.domain;
    hide Run, HasRecord, Normalized, Effective, Match, AfterMatch;
    var (step, st1) := Match(e, d, [], t, START.(queries := 1));
    QualifierGives(t.qualifier);
    if step.Unmatched? {
      NetworkStep(e, d, all, st1);
      QualifierGives(all.qualifier);
    }
  }

  /** The name does not exist, or cannot be looked up. */
  predicate Absent(k: Kind) {
    k == NXDomain || k == InvalidName
  }

  predicate AddrIn(a: Addr, ip: Addr, t: Term) {
    var u, width := Unmap(a), if ip.V4? then t.cidr4 else t.cidr6;
    u.V4? == ip.V4? && if width < 0 then u == ip else InBlock(ip, u, width)
  }

  lemma AddrMatchesIs(a: Addr, ip: Addr, t: Term)
    ensures AddrMatches(a, ip, t) <==> AddrIn(a, ip, t)
  {
    var width := if ip.V4? then t.cidr4 else t.cidr6;
    if width >= 0 {
      PrefixIsBlock(Unmap(a), ip, width);
    }
    hide SamePrefix, InBlock;
  }

  ghost predicate SomeIn(addrs: seq<Addr>, ip: Addr, t: Term) {
    exists a :: a in addrs && AddrIn(a, ip, t)
  }

  lemma MatchAddrsIs(addrs: seq<Addr>, ip: Addr, t: Term)
    ensures MatchAddrs(addrs, ip, t) <==> SomeIn(addrs, ip, t)
  {
    hide AddrMatches, AddrIn;
    forall a | a in addrs
      ensures AddrMatches(a, ip, t) <==> AddrIn(a, ip, t)
    {
      AddrMatchesIs(a, ip, t);
    }
  }

  /** The name a term of the record of the request refers to. */
  function TargetOf(r: Resolver, lim: Limits, req: Request, t: Term): string {
    Target(EnvOf(r, lim, req), Normalized(req).domain, t)
  }

  /** The addresses of the client's family. */
  function AddrsOf(r: Resolver, ip: Addr, name: string): Answer<Addr> {
    if ip.V4? then r.a(name) else r.aaaa(name)
  }

  /** The result when an answer is void. */
  predicate GaveVoid(lim: Limits, all: Qualifier, result: Result) {
    if Effective(lim).maxVoids == 0 then result == PermError else Gives(all, result)
  }

  /** "a all": the client's block decides; without addresses the second term does, unless no
      void lookup is allowed; any other failure is a temporary error. */
  lemma AddressThenAll(r: Resolver, lim: Limits, req: Request, rec: Record, t: Term, all: Term)
    requires HasRecord(r, req, rec) && rec.terms == [t, all] && all.name.All? && t.name.A?
    ensures var result, ip := Run(r, lim, req).0.result, Unmap(req.ip);
            if Effective(lim).maxLookups == 0 then result == PermError
            else match AddrsOf(r, ip, TargetOf(r, lim, req, t))
                 case Failed(k) => if Absent(k) then GaveVoid(lim, all.qualifier, result) else result == TempError
                 case Data(addrs) =>
                   if addrs == [] then GaveVoid(lim, all.qualifier, result)
                   else Gives(if SomeIn(addrs, ip, t) then t.qualifier else all.qualifier, result)
  {
    ThenAll(r, lim, req, rec, t, all);
    assert Normalized(req).ip == Unmap(req.ip);
    var ans := AddrsOf(r, Unmap(req.ip), TargetOf(r, lim, req, t));
    if ans.Data? {
      MatchAddrsIs(ans.v, Unmap(req.ip), t);
    }
    hide Run, HasRecord, Normalized, Effective, Target, TouchTerm, MatchAddrs, SomeIn, Gives, Unmap;
  }

  /** "exists all": any address of the first family is a match. */
  lemma ExistsThenAll(r: Resolver, lim: Limits, req: Request, rec: Record, t: Term, all: Term)
    requires HasRecord(r, req, rec) && rec.terms == [t, all] && all.name.All? && t.name.Exists?
    ensures var result := Run(r, lim, req).0.result;
            if Effective(lim).maxLookups == 0 then result == PermError
            else match r.a(TargetOf(r, lim, req, t))
                 case Failed(k) => if Absent(k) then GaveVoid(lim, all.qualifier, result) else result == TempError
                 case Data(addrs) => if addrs == [] then GaveVoid(lim, all.qualifier, result) else Gives(t.qualifier, result)
  {
    ThenAll(r, lim, req, rec, t, all);
    hide Run, HasRecord, Normalized, Effective, Target, TouchTerm, MatchAddrs, SomeIn, Gives, Unmap;
  }

  /** The exchanger is in the client's block, or its addresses cannot be had. */
  ghost predicate Decides(r: Resolver, ip: Addr, host: string, t: Term) {
    host != "." && match AddrsOf(r, ip, host)
                   case Failed(k) => !Absent(k)
                   case Data(addrs) => SomeIn(addrs, ip, t)
  }

  lemma {:induction false} FirstExchanger(r: Resolver, ip: Addr, hosts: seq<string>, t: Term, k: nat)
    requires k <= |hosts| && forall i :: 0 <= i < k ==> !Decides(r, ip, hosts[i], t)
    requires k < |hosts| ==> Decides(r, ip, hosts[k], t)
    ensures MxProbe(r, ip, hosts, t) ==
              if k == |hosts| then Miss else if AddrsOf(r, ip, hosts[k]).Data? then Hit else Temp
    decreases |hosts|
  {
    hide MatchAddrs, SomeIn;
    if hosts != [] {
      var ans := AddrsOf(r, ip, hosts[0]);
      if ans.Data? {
        MatchAddrsIs(ans.v, ip, t);
      }
      if k > 0 {
        assert !Decides(r, ip, hosts[0], t);
        FirstExchanger(r, ip, hosts[1..], t, k - 1);
      }
    }
  }

  /** "mx all": the first exchanger that decides does so, by a match or by a failure. */
  lemma ExchangerThenAll(r: Resolver, lim: Limits, req: Request, rec: Record, t: Term, all: Term, k: nat)
    requires HasRecord(r, req, rec) && rec.terms == [t, all] && all.name.All? && t.name.MX?
    requires var mx, ip := r.mx(TargetOf(r, lim, req, t)), Unmap(req.ip);
             mx.Data? ==> k <= |mx.v| && (forall i :: 0 <= i < k ==> !Decides(r, ip, mx.v[i], t))
                          && (k < |mx.v| ==> Decides(r, ip, mx.v[k], t))
    ensures var result, ip := Run(r, lim, req).0.result, Unmap(req.ip);
            if Effective(lim).maxLookups == 0 then result == PermError
            else match r.mx(TargetOf(r, lim, req, t))
                 case Failed(kind) => if Absent(kind) then GaveVoid(lim, all.qualifier, result) else result == TempError
                 case Data(hosts) =>
                   if hosts == [] then GaveVoid(lim, all.qualifier, result)
                   else if |hosts| > Effective(lim).maxMX then result == PermError
                   else if k == |hosts| then Gives(all.qualifier, result)
                   else if AddrsOf(r, ip, hosts[k]).Data? then Gives(t.qualifier, result) else result == TempError
  {
    ThenAll(r, lim, req, rec, t, all);
    assert Normalized(req).ip == Unmap(req.ip);
    var mx := r.mx(TargetOf(r, lim, req, t));
    if mx.Data? {
      FirstExchanger(r, Unmap(req.ip), mx.v, t, k);
    }
    hide Run, HasRecord, Normalized, Effective, Target, TouchTerm, MatchAddrs, MxProbe, SomeIn, Decides, Gives, Unmap;
  }

  /** The name is the target or below it, and has the client's address. */
  predicate PointsTo(r: Resolver, ip: Addr, name: string, target: string) {
    (Lower(name) == Lower(target) || HasSuffix(Lower(name), "." + Lower(target)))
    && AddrsOf(r, ip, name).Data? && Unmap(ip) in AddrsOf(r, ip, name).v
  }

  lemma {:induction false} ValidatedIs(r: Resolver, ip: Addr, names: seq<string>, n: string)
    ensures n in Validated(r, ip, names)
       <==> exists x :: x in names && Lower(x) == n && AddrsOf(r, ip, x).Data? && Unmap(ip) in AddrsOf(r, ip, x).v
  {
    hide Lower, Unmap;
    if names != [] {
      ValidatedIs(r, ip, names[1..], n);
      assert names == [names[0]] + names[1..];
    }
  }

  lemma PtrMatchesIs(r: Resolver, ip: Addr, names: seq<string>, target: string)
    ensures PtrMatches(Validated(r, ip, names), Lower(target)) <==> exists x :: x in names && PointsTo(r, ip, x, target)
  {
    hide Lower, Unmap, HasSuffix, Validated, AddrsOf;
    forall n
      ensures n in Validated(r, ip, names)
         <==> exists x :: x in names && Lower(x) == n && AddrsOf(r, ip, x).Data? && Unmap(ip) in AddrsOf(r, ip, x).v
    {
      ValidatedIs(r, ip, names, n);
    }
    if x :| x in names && PointsTo(r, ip, x, target) {
      assert Lower(x) in Validated(r, ip, names);
    }
  }

  /** The first of the names that is below domain. */
  ghost predicate FirstBelowAt(names: seq<string>, domain: string, k: nat) {
    k <= |names| && (forall i :: 0 <= i < k ==> !HasSuffix(names[i], "." + domain))
    && (k < |names| ==> HasSuffix(names[k], "." + domain))
  }

  lemma {:induction false} FirstBelowIs(names: seq<string>, domain: string, default: string, k: nat)
    requires FirstBelowAt(names, domain, k)
    ensures FirstBelow(names, domain, default) == if k < |names| then names[k] else default
    decreases |names|
  {
    hide HasSuffix;
    if names != [] && k > 0 {
      FirstBelowIs(names[1..], domain, default, k - 1);
    }
  }

  /** The p macro: the domain itself if it is one of the client's validated names, or else the
      first of them below it, or else the first of them; "unknown" without any. */
  lemma PMacroIsExact(r: Resolver, ip: Addr, most: nat, domain: string, k: nat)
    requires r.ptr(ip).Data? ==>
               var names := r.ptr(ip).v;
               FirstBelowAt(Validated(r, ip, if |names| > most then names[..most] else names), Lower(domain), k)
    ensures match r.ptr(ip)
            case Failed(_) => PMacro(r, ip, most, domain) == "unknown"
            case Data(names) =>
              var valid := Validated(r, ip, if |names| > most then names[..most] else names);
              PMacro(r, ip, most, domain) ==
                if valid == [] then "unknown" else if Lower(domain) in valid then Lower(domain)
                else if k < |valid| then valid[k] else valid[0]
  {
    hide Validated, HasSuffix, Lower;
    if r.ptr(ip).Data? {
      var names := r.ptr(ip).v;
      var valid := Validated(r, ip, if |names| > most then names[..most] else names);
      if valid != [] {
        FirstBelowIs(valid, Lower(domain), valid[0], k);
      }
    }
  }

  /** "ptr all": one of the names considered has to be the target or below it, and be the
      client's own; a failure of the lookup is no match. */
  lemma PointerThenAll(r: Resolver, lim: Limits, req: Request, rec: Record, t: Term, all: Term)
    requires HasRecord(r, req, rec) && rec.terms == [t, all] && all.name.All? && t.name.PTR?
    ensures var result, ip, most := Run(r, lim, req).0.result, Unmap(req.ip), Effective(lim).maxPTR;
            if Effective(lim).maxLookups == 0 then result == PermError
            else match r.ptr(ip)
                 case Failed(_) => Gives(all.qualifier, result)
                 case Data(names) =>
                   var considered := if |names| > most then names[..most] else names;
                   Gives(if exists x :: x in considered && PointsTo(r, ip, x, TargetOf(r, lim, req, t)) then t.qualifier
                         else all.qualifier, result)
  {
    ThenAll(r, lim, req, rec, t, all);
    assert Normalized(req).ip == Unmap(req.ip);
    var ip, target := Unmap(req.ip), TargetOf(r, lim, req, t);
    if r.ptr(ip).Data? {
      var names, most := r.ptr(ip).v, Effective(lim).maxPTR;
      PtrMatchesIs(r, ip, if |names| > most then names[..most] else names, target);
    }
    hide Run, HasRecord, Normalized, Effective, Target, TouchTerm, PtrMatches, Validated, PointsTo, Gives, Unmap;
  }

  /** A domain without one readable record. */
  lemma WithoutRecord(r: Resolver, lim: Limits, req: Request)
    ensures var d, result := Normalized(req).domain, Run(r, lim, req).0.result;
            if !ValidInitialDomain(d) then result == NoneResult
            else match r.txt(d)
                 case Failed(k) => result == if k == NXDomain then NoneResult else TempError
                 case Data(txts) =>
                   && (SpfTexts(txts) == [] ==> result == NoneResult)
                   && (|SpfTexts(txts)| > 1 ==> result == PermError)
                   && (SpfTexts(txts) == [SyntaxError] ==> result == PermError)
  {
    hide Terms, ValidInitialDomain, Normalized, Effective, SpfTexts;
  }

  lemma {:induction false} SpfTextsAre(txts: seq<Txt>, v: SpfView)
    ensures v in SpfTexts(txts) <==> v != NotSpf && exists i :: 0 <= i < |txts| && txts[i].spf == v
    ensures |SpfTexts(txts)| <= |txts|
  {
    if txts != [] {
      SpfTextsAre(txts[1..], v);
      assert txts == [txts[0]] + txts[1..];
      if v in SpfTexts(txts[1..]) {
        var i :| 0 <= i < |txts[1..]| && txts[1..][i].spf == v;
        assert txts[i + 1].spf == v;
      }
      if i :| 0 <= i < |txts| && txts[i].spf == v && v != NotSpf {
        assert i > 0 ==> txts[1..][i - 1].spf == v;
      }
    }
  }

  // ---------------------------------------------------------------- the domain of a request

  /** Labels of 1 to 63 visible characters, at most 253 characters in all, perhaps with a final
      dot. */
  ghost predicate IsLabel(l: string) {
    1 <= |l| <= 63 && forall i :: 0 <= i < |l| ==> 33 <= l[i] as int <= 126 && l[i] != '.'
  }

  lemma ValidNames(labels: seq<string>, dot: bool)
    requires labels != [] && forall i :: 0 <= i < |labels| ==> '.' !in labels[i]
    ensures var name := Join(labels, ".");
            TrimDot(name) == name ==>
              (ValidDomain(name + if dot then "." else "")
               <==> name != "" && |name| <= 253 && forall i :: 0 <= i < |labels| ==> IsLabel(labels[i]))
  {
    var name := Join(labels, ".");
    if TrimDot(name) == name {
      DotTrimmed(name, dot);
      SplitJoin(labels, '.');
      assert ['.'] == ".";
      hide TrimDot, Join, Split;
      forall i | 0 <= i < |labels|
        ensures ValidLabel(labels[i]) <==> IsLabel(labels[i])
      {
        LabelIs(labels[i]);
      }
    }
  }

  lemma LabelIs(l: string)
    requires '.' !in l
    ensures ValidLabel(l) <==> IsLabel(l)
  {
    assert forall i :: 0 <= i < |l| ==> (' ' < l[i] <= '~' <==> 33 <= l[i] as int <= 126);
  }

  lemma DotTrimmed(name: string, dot: bool)
    requires TrimDot(name) == name
    ensures TrimDot(name + if dot then "." else "") == name
  {
    if dot {
      assert (name + ".")[..|name|] == name;
    } else {
      assert name + "" == name;
    }
  }

  /** A request is about its domain in small letters and without a final dot. */
  lemma NormalizedDomainIs(req: Request, name: string, dot: bool)
    requires name != "" && name[|name| - 1] != '.' && InitialDomain(req) == name + if dot then "." else ""
    ensures var d := Normalized(req).domain;
            |d| == |name|
            && forall i :: 0 <= i < |name| ==>
                 d[i] == if 'A' <= name[i] <= 'Z' then (name[i] as int + 32) as char else name[i]
  {
    assert TrimDot(name) == name;
    DotTrimmed(name, dot);
    hide TrimDot, InitialDomain;
    assert Normalized(req).domain == Lower(name);
  }

  /** The domain that is asked about: the one given, or that of the sender, or that of HELO
      for an empty sender; a sender without a local part stands for its postmaster. */
  lemma RequestDomainIsExact(req: Request, local: string, domain: string)
    requires '@' !in domain
    ensures req.domain != "" ==> InitialDomain(req) == req.domain
    ensures req.domain == "" && req.sender == local + "@" + domain ==>
              InitialDomain(req) == domain
              && NormalizedSender(req.sender, req.helo) == (if local == "" then "postmaster" else local) + "@" + domain
    ensures req.domain == "" && req.sender == domain != "" ==>
              InitialDomain(req) == domain && NormalizedSender(req.sender, req.helo) == "postmaster@" + domain
    ensures req.domain == "" && req.sender == "" && req.helo == domain != "" ==>
              InitialDomain(req) == domain && NormalizedSender(req.sender, req.helo) == "postmaster@" + domain
  {
    hide LastIndex;
    var text := "postmaster@" + domain;
    assert text == "postmaster" + "@" + domain;
    LastAt("postmaster", domain);
    LastAt(local, domain);
    LastIndexFacts(domain, '@');
    NoAt(domain);
    assert domain[0..] == domain;
  }

  lemma LastAt(local: string, domain: string)
    requires '@' !in domain
    ensures var s := local + "@" + domain;
            LastIndex(s, '@') == |local| && s[..|local|] == local && s[|local| + 1..] == domain
            && (local == "" <==> s[0] == '@' && |local| == 0)
  {
    LastIndexIs(local + "@" + domain, '@', |local|);
  }

  lemma NoAt(domain: string)
    requires '@' !in domain
    ensures LastIndex(domain, '@') == -1
  {
    LastIndexIs(domain, '@', -1);
  }

  // ---------------------------------------------------------------- include and redirect

  /** The result of the target of a term, one level down; none without a valid name. */
  function Inner(r: Resolver, lim: Limits, req: Request, t: Term): Outcome {
    var e := EnvOf(r, lim, req);
    Descend(e, e.req.domain, [], t, Count(e, START.(queries := 1))).0
  }

  /** An evaluation has an error for its result exactly when it is aborted. */
  predicate Sane(o: Outcome) {
    o.Abort? <==> o.result == TempError || o.result == PermError
  }

  lemma {:induction false} CheckSane(e: Env, d: string, stack: seq<string>, st: State)
    ensures Sane(Check(e, d, stack, st).0)
    decreases Room(e, |stack|), 2, 0
  {
    hide ValidInitialDomain, OnStack, Fetch, Terms;
    if ValidInitialDomain(d) && !(e.detect && OnStack(stack, d)) && |stack| <= e.lim.maxDepth {
      match Fetch(e.r, d) {
        case One(Parsed(rec)) => TermsSane(e, d, stack, rec, 0, st.(queries := st.queries + 1));
        case _ =>
      }
    }
  }

  lemma {:induction false} DescendSane(e: Env, d: string, stack: seq<string>, t: Term, st: State)
    requires |stack| <= e.lim.maxDepth
    ensures Sane(Descend(e, d, stack, t, st).0)
    decreases Room(e, |stack|), 0, 0
  {
    hide Target, TouchTerm, Check, ValidInitialDomain;
    if ValidInitialDomain(Target(e, d, t)) {
      CheckSane(e, Target(e, d, t), stack + [d], TouchTerm(e, d, t, st));
    }
  }

  lemma {:induction false} TermsSane(e: Env, d: string, stack: seq<string>, rec: Record, i: nat, st: State)
    requires i <= |rec.terms| && |stack| <= e.lim.maxDepth
    ensures Sane(Terms(e, d, stack, rec, i, st).0)
    decreases Room(e, |stack|), 1, |rec.terms| - i
  {
    hide Match, AfterMatch, Descend;
    if i == |rec.terms| {
      if rec.redirect.Some? && !CountFails(e, st) {
        DescendSane(e, d, stack, rec.redirect.value, Count(e, st));
      }
      assert Terms(e, d, stack, rec, i, st) == Finish(e, d, stack, rec, st);
    } else {
      var t := rec.terms[i];
      if t.Modifier() {
        TermsSane(e, d, stack, rec, i + 1, st);
      } else {
        var (step, st1) := Match(e, d, stack, t, st);
        match step {
          case Unmatched => TermsSane(e, d, stack, rec, i + 1, st1);
          case Matched => QualifierGives(t.qualifier);
          case Stop(_) =>
            DescendSane(e, d, stack, t, Count(e, st));
            StopsSane(e, d, stack, t, st);
        }
      }
    }
  }

  lemma StopsSane(e: Env, d: string, stack: seq<string>, t: Term, st: State)
    requires |stack| <= e.lim.maxDepth && Sane(Descend(e, d, stack, t, Count(e, st)).0)
    ensures Match(e, d, stack, t, st).0.Stop? ==> Sane(Match(e, d, stack, t, st).0.o)
  {
    hide Descend, Target, TouchTerm, ProbeOf, ProbeCost, TooManyMX;
  }

  /** "include all", by the table of section 5.2: a pass of the target matches, the other
      results of a policy do not, no policy is a permanent error, and errors are passed on. */
  lemma IncludeThenAll(r: Resolver, lim: Limits, req: Request, rec: Record, t: Term, all: Term)
    requires HasRecord(r, req, rec) && rec.terms == [t, all] && all.name.All? && t.name.Include?
    ensures var result := Run(r, lim, req).0.result;
            if Effective(lim).maxLookups == 0 then result == PermError
            else match Inner(r, lim, req, t).result
                 case Pass => Gives(t.qualifier, result)
                 case Fail => Gives(all.qualifier, result)
                 case SoftFail => Gives(all.qualifier, result)
                 case Neutral => Gives(all.qualifier, result)
                 case NoneResult => result == PermError
                 case TempError => result == TempError
                 case PermError => result == PermError
  {
    ThenAll(r, lim, req, rec, t, all);
    var e := EnvOf(r, lim, req);
    DescendSane(e, e.req.domain, [], t, Count(e, START.(queries := 1)));
    hide Run, HasRecord, Normalized, Effective, Descend, Gives;
  }

  /** A redirect behind networks without the client: the result is that of its target, and a
      target without a policy is a permanent error. */
  lemma RedirectDecides(r: Resolver, lim: Limits, req: Request, rec: Record)
    requires HasRecord(r, req, rec) && NoneContains(rec.terms, |rec.terms|, Unmap(req.ip)) && rec.redirect.Some?
    ensures var result, inner := Run(r, lim, req).0.result, Inner(r, lim, req, rec.redirect.value).result;
            if Effective(lim).maxLookups == 0 || inner == NoneResult then result == PermError else result == inner
  {
    RunOfRecord(r, lim, req, rec);
    var e := EnvOf(r, lim, req);
    var d, st := e.req.domain, START.(queries := 1);
    assert e.req.ip == Unmap(req.ip);
    DescendSane(e, d, [], rec.redirect.value, Count(e, st));
    hide Run, HasRecord, NoneContains, Normalized, Effective, Match, Unmap, Descend;
    NetworksPassed(e, d, rec, 0, |rec.terms|, st);
  }

  // ---------------------------------------------------------------- explanations

  /** Below the top an evaluation leaves the explanation as it was. */
  lemma {:induction false} CheckQuiet(e: Env, d: string, stack: seq<string>, st: State)
    requires stack != []
    ensures Check(e, d, stack, st).1.explanation == st.explanation
    decreases Room(e, |stack|), 2, 0
  {
    hide ValidInitialDomain, OnStack, Fetch, Terms;
    if ValidInitialDomain(d) && !(e.detect && OnStack(stack, d)) && |stack| <= e.lim.maxDepth {
      match Fetch(e.r, d) {
        case One(Parsed(rec)) => TermsQuiet(e, d, stack, rec, 0, st.(queries := st.queries + 1));
        case _ =>
      }
    }
  }

  lemma {:induction false} DescendQuiet(e: Env, d: string, stack: seq<string>, t: Term, st: State)
    requires |stack| <= e.lim.maxDepth
    ensures Descend(e, d, stack, t, st).1.explanation == st.explanation
    decreases Room(e, |stack|), 0, 0
  {
    hide Target, Check, ValidInitialDomain;
    TouchQuiet(e, d, t, st);
    hide TouchTerm;
    if ValidInitialDomain(Target(e, d, t)) {
      CheckQuiet(e, Target(e, d, t), stack + [d], TouchTerm(e, d, t, st));
    }
  }

  lemma TouchQuiet(e: Env, d: string, t: Term, st: State)
    ensures TouchTerm(e, d, t, st).explanation == st.explanation
  {
  }

  lemma PlainQuiet(e: Env, d: string, t: Term, st: State)
    ensures Plain(e, d, t, st).1.explanation == st.explanation
  {
    TouchQuiet(e, d, t, st);
    hide Target, TouchTerm, ProbeCost, TooManyMX, MatchAddrs, SamePrefix, LookupAddrs, PtrValidated, MxProbe, PtrMatches;
  }

  lemma {:induction false} MatchQuiet(e: Env, d: string, stack: seq<string>, t: Term, st: State)
    requires |stack| <= e.lim.maxDepth
    ensures Match(e, d, stack, t, st).1.explanation == st.explanation
    decreases Room(e, |stack|), 0, 1
  {
    hide Plain, Descend;
    PlainQuiet(e, d, t, if t.CountsLookup() then Count(e, st) else st);
    DescendQuiet(e, d, stack, t, Count(e, st));
  }

  lemma {:induction false} TermsQuiet(e: Env, d: string, stack: seq<string>, rec: Record, i: nat, st: State)
    requires stack != [] && i <= |rec.terms| && |stack| <= e.lim.maxDepth
    ensures Terms(e, d, stack, rec, i, st).1.explanation == st.explanation
    decreases Room(e, |stack|), 1, |rec.terms| - i
  {
    hide Match, Descend, Explain;
    if i == |rec.terms| {
      if rec.redirect.Some? && !CountFails(e, st) {
        DescendQuiet(e, d, stack, rec.redirect.value, Count(e, st));
      }
      assert Terms(e, d, stack, rec, i, st) == Finish(e, d, stack, rec, st);
    } else {
      var t := rec.terms[i];
      if t.Modifier() {
        TermsQuiet(e, d, stack, rec, i + 1, st);
      } else {
        MatchQuiet(e, d, stack, t, st);
        if Match(e, d, stack, t, st).0.Unmatched? {
          TermsQuiet(e, d, stack, rec, i + 1, Match(e, d, stack, t, st).1);
        }
      }
    }
  }

  /** At the top an explanation belongs to a match of the record itself. */
  lemma {:induction false} TopExplains(e: Env, d: string, rec: Record, i: nat, st: State)
    requires i <= |rec.terms| && st.explanation == ""
    ensures var (o, st') := Terms(e, d, [], rec, i, st);
            st'.explanation != "" ==> o == Done(Fail) && rec.exp.Some? && |st'.explanation| <= 512
    decreases |rec.terms| - i
  {
    hide Match, Descend, Target, TouchTerm, Touch, ExpandIn, ValidInitialDomain;
    if i == |rec.terms| {
      if rec.redirect.Some? && !CountFails(e, st) {
        DescendQuiet(e, d, [], rec.redirect.value, Count(e, st));
      }
      assert Terms(e, d, [], rec, i, st) == Finish(e, d, [], rec, st);
    } else {
      var t := rec.terms[i];
      if t.Modifier() {
        TopExplains(e, d, rec, i + 1, st);
      } else {
        MatchQuiet(e, d, [], t, st);
        if Match(e, d, [], t, st).0.Unmatched? {
          TopExplains(e, d, rec, i + 1, Match(e, d, [], t, st).1);
        }
      }
    }
  }

  /** Only a failing client is given an explanation, from the record of the domain asked about
      and no target of it, of at most 512 characters. */
  lemma ExplanationsAreForFail(r: Resolver, lim: Limits, req: Request)
    ensures Run(r, lim, req).1.explanation != "" ==>
              Run(r, lim, req).0.result == Fail && |Run(r, lim, req).1.explanation| <= 512
  {
    hide Terms, ValidInitialDomain, Normalized, Effective, OnStack;
    var e := EnvOf(r, lim, req);
    match Fetch(e.r, e.req.domain) {
      case One(Parsed(rec)) => TopExplains(e, e.req.domain, rec, 0, START.(queries := 1));
      case _ =>
    }
  }

  /** The explanation of a record that fails everybody: the first 512 characters of what is
      published under its exp= name, if that is one readable text. */
  lemma ExplanationIsExact(r: Resolver, lim: Limits, req: Request, rec: Record, all: Term, exp: Term)
    requires HasRecord(r, req, rec) && rec.terms == [all] && all.name.All? && all.qualifier.Minus? && rec.exp == Some(exp)
    ensures var e, target, text := EnvOf(r, lim, req), TargetOf(r, lim, req, exp), Run(r, lim, req).1.explanation;
            if ValidInitialDomain(target) && r.txt(target).Data? && |r.txt(target).v| == 1
               && r.txt(target).v[0].explanation.Some?
            then var full := ExpandIn(e, Normalized(req).domain, r.txt(target).v[0].explanation.value);
                 text == full[..if |full| > 512 then 512 else |full|]
            else text == ""
  {
    RunOfRecord(r, lim, req, rec);
    var e := EnvOf(r, lim, req);
    var d, st := e.req.domain, START.(queries := 1);
    TouchQuiet(e, d, exp, st);
    hide Run, HasRecord, Normalized, Effective, Match, Target, TouchTerm, ExpandIn, ValidInitialDomain;
    NetworkStep(e, d, all, st);
    QualifierGives(all.qualifier);
  }
}
