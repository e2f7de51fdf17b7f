/** check_host(): the evaluation of a domain's SPF policy for one client
    (internal/spf/eval.go). Check says what a run computes from a state; the
    class Evaluator below computes it step by step. */
module SpfEval {
  import opened Wrappers
  import opened Ascii
  import opened Names
  import opened Macro
  import opened Spf

  /** detect is the include/redirect loop check; the program always has it on. */
  datatype Env = Env(r: Resolver, lim: Limits, req: Request, detect: bool)

  /** Why an evaluation was cut short. */
  datatype Cause = OverLimit | OnLoop | TooDeep | Policy | Dns

  datatype Outcome = Done(result: Result) | Abort(result: Result, cause: Cause)

  /** named holds the domains whose p macro has been resolved; queries counts resolver calls. */
  datatype State = State(
    lookups: nat, voids: nat, queries: nat, named: set<string>, loop: bool, exceeded: bool, explanation: string)

  const START := State(0, 0, 0, {}, false, false, "")

  predicate OnStack(stack: seq<string>, domain: string) {
    exists d :: d in stack && EqualFold(d, domain)
  }

  // ---------------------------------------------------------------- steps

  function PValue(e: Env, domain: string): string {
    PMacro(e.r, e.req.ip, e.lim.maxPTR, domain)
  }

  function ExpandIn(e: Env, domain: string, m: MacroString): string {
    ExpandSpec(m, ContextOf(e.req, domain), PValue(e, domain))
  }

  /** The domain a term refers to in the record of domain. */
  function Target(e: Env, domain: string, t: Term): string {
    match t.spec
    case None => domain
    case Some(m) => TruncateDomain(ExpandIn(e, domain, m))
  }

  /** The p macro of domain is resolved when asked for, and only once. */
  function Named(e: Env, domain: string, asked: bool, st: State): State {
    if asked && domain !in st.named
    then st.(named := st.named + {domain}, queries := st.queries + PtrCost(e.r, e.req.ip, e.lim.maxPTR))
    else st
  }

  /** What expanding m in the record of domain does to the state. */
  function Touch(e: Env, domain: string, m: MacroString, st: State): State {
    Named(e, domain, AsksForP(m, ContextOf(e.req, domain), PValue(e, domain)), st)
  }

  function TouchTerm(e: Env, domain: string, t: Term, st: State): State {
    match t.spec
    case None => st
    case Some(m) => Touch(e, domain, m, st)
  }

  /** One more DNS-querying term; it is over the limit when exceeded is set. */
  function Count(e: Env, st: State): State {
    st.(lookups := st.lookups + 1, exceeded := st.exceeded || st.lookups + 1 > e.lim.maxLookups)
  }

  predicate CountFails(e: Env, st: State) {
    st.lookups + 1 > e.lim.maxLookups
  }

  datatype Step = Matched | Unmatched | Stop(o: Outcome)

  function CountVoid(e: Env, st: State): (Step, State) {
    var over := st.voids + 1 > e.lim.maxVoids;
    (if over then Stop(Abort(PermError, OverLimit)) else Unmatched,
     st.(voids := st.voids + 1, exceeded := st.exceeded || over))
  }

  /** A mechanism other than include. */
  function Plain(e: Env, domain: string, t: Term, st: State): (Step, State) {
    if t.name in {All, IP4, IP6} then
      (if ProbeOf(e.r, e.req.ip, e.lim.maxPTR, t, domain).Hit? then Matched else Unmatched, st)
    else
      var target := Target(e, domain, t);
      var st1 := TouchTerm(e, domain, t, st);
      var st2 := st1.(queries := st1.queries + ProbeCost(e.r, e.req.ip, e.lim.maxMX, e.lim.maxPTR, t, target));
      if TooManyMX(e.r, e.lim.maxMX, t, target) then
        (Stop(Abort(PermError, OverLimit)), st2.(exceeded := true))
      else
        match ProbeOf(e.r, e.req.ip, e.lim.maxPTR, t, target)
        case Hit => (Matched, st2)
        case Miss => (Unmatched, st2)
        case Void => CountVoid(e, st2)
        case Temp => (Stop(Abort(TempError, Dns)), st2)
  }

  /** What an include makes of the result of its target (section 5.2 of RFC 7208). */
  function IncludeStep(o: Outcome): Step {
    match o
    case Abort(_, _) => Stop(o)
    case Done(Pass) => Matched
    case Done(Fail) => Unmatched
    case Done(SoftFail) => Unmatched
    case Done(Neutral) => Unmatched
    case Done(_) => Stop(Abort(PermError, Policy))
  }

  /** What a redirect makes of the result of its target (section 6.1 of RFC 7208). */
  function RedirectOutcome(o: Outcome): Outcome {
    if o == Done(NoneResult) then Abort(PermError, Policy) else o
  }

  const MAX_EXPLANATION := 512

  /** The exp= text of a failing result; any failure to get it yields "". */
  function Explain(e: Env, domain: string, exp: Term, st: State): (string, State) {
    var target := Target(e, domain, exp);
    var st1 := TouchTerm(e, domain, exp, st);
    if !ValidInitialDomain(target) then ("", st1)
    else
      var st2 := st1.(queries := st1.queries + 1);
      match e.r.txt(target)
      case Failed(_) => ("", st2)
      case Data(txts) =>
        if |txts| != 1 || txts[0].explanation.None? then ("", st2)
        else
          var s := ExpandIn(e, domain, txts[0].explanation.value);
          (if |s| > MAX_EXPLANATION then s[..MAX_EXPLANATION] else s, Touch(e, domain, txts[0].explanation.value, st2))
  }

  function AfterMatch(e: Env, domain: string, depth: nat, rec: Record, result: Result, st: State): State {
    if depth == 0 && result == Fail && rec.exp.Some? then
      var (text, st1) := Explain(e, domain, rec.exp.value, st);
      st1.(explanation := text)
    else st
  }

  // ---------------------------------------------------------------- check_host

  /** How many more levels of include and redirect there is room for. */
  function Room(e: Env, depth: nat): nat {
    if depth > e.lim.maxDepth then 0 else e.lim.maxDepth - depth + 1
  }

  /** stack holds the domains under evaluation, outermost first; its length is the depth. */
  function Check(e: Env, domain: string, stack: seq<string>, st: State): (Outcome, State)
    decreases Room(e, |stack|), 2, 0
  {
    if !ValidInitialDomain(domain) then (Done(NoneResult), st)
    else if e.detect && OnStack(stack, domain) then (Abort(PermError, OnLoop), st.(loop := true))
    else if |stack| > e.lim.maxDepth then (Abort(PermError, TooDeep), st)
    else
      var st1 := st.(queries := st.queries + 1);
      match Fetch(e.r, domain)
      case NoRecord => (Done(NoneResult), st1)
      case TempFailure => (Abort(TempError, Dns), st1)
      case Several => (Abort(PermError, Policy), st1)
      case One(Parsed(rec)) => Terms(e, domain, stack, rec, 0, st1)
      case One(_) => (Abort(PermError, Policy), st1)
  }

  /** The terms of the record of domain from the i-th on. */
  function Terms(e: Env, domain: string, stack: seq<string>, rec: Record, i: nat, st: State): (Outcome, State)
    requires i <= |rec.terms| && |stack| <= e.lim.maxDepth
    decreases Room(e, |stack|), 1, |rec.terms| - i
  {
    if i == |rec.terms| then Finish(e, domain, stack, rec, st)
    else
      var t := rec.terms[i];
      if t.Modifier() then Terms(e, domain, stack, rec, i + 1, st)
      else
        var (step, st1) := Match(e, domain, stack, t, st);
        match step
        case Stop(o) => (o, st1)
        case Matched => (Done(t.qualifier.Result()), AfterMatch(e, domain, |stack|, rec, t.qualifier.Result(), st1))
        case Unmatched => Terms(e, domain, stack, rec, i + 1, st1)
  }

  /** Counting and evaluating one mechanism. */
  function Match(e: Env, domain: string, stack: seq<string>, t: Term, st: State): (Step, State)
    requires |stack| <= e.lim.maxDepth
    decreases Room(e, |stack|), 0, 1
  {
    if t.CountsLookup() && CountFails(e, st) then (Stop(Abort(PermError, OverLimit)), Count(e, st))
    else
      var st1 := if t.CountsLookup() then Count(e, st) else st;
      if t.name.Include? then
        var (o, st2) := Descend(e, domain, stack, t, st1);
        (IncludeStep(o), st2)
      else Plain(e, domain, t, st1)
  }

  /** Evaluating the target of an include or redirect one level deeper. */
  function Descend(e: Env, domain: string, stack: seq<string>, t: Term, st: State): (Outcome, State)
    requires |stack| <= e.lim.maxDepth
    decreases Room(e, |stack|), 0, 0
  {
    var target := Target(e, domain, t);
    var st1 := TouchTerm(e, domain, t, st);
    if !ValidInitialDomain(target) then (Abort(PermError, Policy), st1)
    else Check(e, target, stack + [domain], st1)
  }

  /** No directive matched: follow redirect, or neutral. */
  function Finish(e: Env, domain: string, stack: seq<string>, rec: Record, st: State): (Outcome, State)
    requires |stack| <= e.lim.maxDepth
    decreases Room(e, |stack|), 0, 1
  {
    if rec.redirect.None? then (Done(Neutral), st)
    else if CountFails(e, st) then (Abort(PermError, OverLimit), Count(e, st))
    else
      var (o, st1) := Descend(e, domain, stack, rec.redirect.value, Count(e, st));
      (RedirectOutcome(o), st1)
  }

  // ---------------------------------------------------------------- requests

  function NormalizedSender(sender: string, helo: string): string {
    if sender == "" && helo != "" then "postmaster@" + helo
    else if (sender != "" && sender[0] == '@') || (LastIndex(sender, '@') < 0 && sender != "")
    then LocalPart(sender) + "@" + DomainPart(sender)
    else sender
  }

  /** The domain a request is about: that of its sender unless it names one. */
  function InitialDomain(req: Request): string {
    if req.domain == "" then DomainPart(NormalizedSender(req.sender, req.helo)) else req.domain
  }

  /** The request check_host starts from. */
  function Normalized(req: Request): Request {
    req.(ip := Unmap(req.ip), sender := NormalizedSender(req.sender, req.helo), domain := Trim(InitialDomain(req)))
  }

  function EnvOf(r: Resolver, lim: Limits, req: Request): Env {
    Env(r, Effective(lim), Normalized(req), true)
  }

  /** A whole run of CheckHost. */
  function Run(r: Resolver, lim: Limits, req: Request): (Outcome, State) {
    var e := EnvOf(r, lim, req);
    Check(e, e.req.domain, [], START)
  }

  // ---------------------------------------------------------------- the evaluator

  class Evaluator {
    const e: Env
    var lookups: nat
    var voids: nat
    var loopDetected: bool
    var limitExceeded: bool
    var explanation: string
    var stack: seq<string>
    var pCache: map<string, string>
    ghost var queries: nat

    constructor (e: Env)
      ensures this.e == e && Valid() && stack == [] && St() == START
    {
      this.e := e;
      lookups, voids, loopDetected, limitExceeded, explanation := 0, 0, false, false, "";
      stack, pCache, queries := [], map[], 0;
    }

    ghost function St(): State
      reads this
    {
      State(lookups, voids, queries, pCache.Keys, loopDetected, limitExceeded, explanation)
    }

    /** The cache of p macros holds what resolving them again would give. */
    ghost predicate Valid()
      reads this
    {
      forall d :: d in pCache ==> pCache[d] == PValue(e, d)
    }

    method CountLookup() returns (ok: bool)
      requires Valid()
      modifies this
      ensures Valid() && stack == old(stack)
      ensures St() == Count(e, old(St())) && ok == !CountFails(e, old(St()))
    {
      lookups := lookups + 1;
      ok := lookups <= e.lim.maxLookups;
      if !ok {
        limitExceeded := true;
      }
    }

    method CountVoidLookup() returns (step: Step)
      requires Valid()
      modifies this
      ensures Valid() && stack == old(stack)
      ensures (step, St()) == CountVoid(e, old(St()))
    {
      voids := voids + 1;
      if voids > e.lim.maxVoids {
        limitExceeded := true;
        return Stop(Abort(PermError, OverLimit));
      }
      return Unmatched;
    }

    method Addrs(name: string) returns (ans: Answer<Addr>)
      requires Valid()
      modifies this
      ensures Valid() && stack == old(stack)
      ensures ans == LookupAddrs(e.r, e.req.ip, name)
      ensures St() == old(St()).(queries := old(St()).queries + 1)
    {
      queries := queries + 1;
      if e.req.ip.V4? {
        ans := e.r.a(name);
      } else {
        ans := e.r.aaaa(name);
      }
    }

    method ValidatedNames() returns (names: Option<seq<string>>)
      requires Valid()
      modifies this
      ensures Valid() && stack == old(stack)
      ensures names == PtrValidated(e.r, e.req.ip, e.lim.maxPTR)
      ensures St() == old(St()).(queries := old(St()).queries + PtrCost(e.r, e.req.ip, e.lim.maxPTR))
    {
      queries := queries + 1;
      var ans := e.r.ptr(e.req.ip);
      if ans.Failed? {
        return None;
      }
      var considered := ans.v;
      if |considered| > e.lim.maxPTR {
        considered := considered[..e.lim.maxPTR];
      }
      assert Considered(e.r, e.req.ip, e.lim.maxPTR) == Some(considered);
      var out := [];
      label scan:
      for i := 0 to |considered|
        invariant Valid() && stack == old(stack)
        invariant out + Validated(e.r, e.req.ip, considered[i..]) == Validated(e.r, e.req.ip, considered)
        invariant St() == old@scan(St()).(queries := old@scan(St()).queries + i)
      {
        var addrs := Addrs(considered[i]);
        if addrs.Data? && Unmap(e.req.ip) in addrs.v {
          out := out + [Lower(considered[i])];
        }
      }
      assert considered[|considered|..] == [] && out + [] == out;
      return Some(out);
    }

    method ResolveP(domain: string) returns (v: string)
      requires Valid()
      modifies this
      ensures Valid() && stack == old(stack)
      ensures v == PValue(e, domain)
      ensures St() == old(St()).(queries := old(St()).queries + PtrCost(e.r, e.req.ip, e.lim.maxPTR))
    {
      var names := ValidatedNames();
      if names.None? || names.value == [] {
        return "unknown";
      }
      var d := Lower(domain);
      for i := 0 to |names.value|
        invariant d !in names.value[..i]
      {
        if names.value[i] == d {
          return d;
        }
      }
      assert names.value[..|names.value|] == names.value;
      for i := 0 to |names.value|
        invariant FirstBelow(names.value[i..], d, names.value[0]) == FirstBelow(names.value, d, names.value[0])
      {
        if HasSuffix(names.value[i], "." + d) {
          return names.value[i];
        }
      }
      return names.value[0];
    }

    /** The value of the p macro in the record of domain, resolved at most once. */
    method CachedP(domain: string) returns (v: string)
      requires Valid()
      modifies this
      ensures Valid() && stack == old(stack)
      ensures v == PValue(e, domain)
      ensures St() == (if domain in old(pCache) then old(St())
                       else old(St()).(named := old(St()).named + {domain},
                                       queries := old(St()).queries + PtrCost(e.r, e.req.ip, e.lim.maxPTR)))
    {
      if domain in pCache {
        return pCache[domain];
      }
      v := ResolveP(domain);
      pCache := pCache[domain := v];
    }

    /** Expands m in the record of domain; the p macro is resolved only when reached. */
    method ExpandMacros(domain: string, m: MacroString) returns (s: string)
      requires Valid()
      modifies this
      ensures Valid() && stack == old(stack)
      ensures s == ExpandIn(e, domain, m)
      ensures St() == Touch(e, domain, m, old(St()))
    {
      ghost var mc, p := ContextOf(e.req, domain), PValue(e, domain);
      ghost var asked := false;
      s := "";
      for i := 0 to |m|
        invariant Valid() && stack == old(stack)
        invariant ExpandFrom(m[i..], mc, p, s) == ExpandIn(e, domain, m)
        invariant AsksForP(m, mc, p) == (asked || AsksFrom(m[i..], mc, p, s))
        invariant St() == Named(e, domain, asked, old(St()))
      {
        var v := "";
        assert m[i..][0] == m[i] && m[i..][1..] == m[i + 1..];
        if m[i].Expand? && m[i].letter == 'p' {
          v := CachedP(domain);
          asked := true;
        }
        var piece := Piece(m[i], ContextOf(e.req, domain), v);
        PieceWithoutP(m[i], mc, v, p);
        if |s + piece| > MAX_EXPANSION {
          return "";
        }
        s := s + piece;
      }
    }

    method ExpandDomain(domain: string, t: Term) returns (target: string)
      requires Valid()
      modifies this
      ensures Valid() && stack == old(stack)
      ensures target == Target(e, domain, t)
      ensures St() == TouchTerm(e, domain, t, old(St()))
    {
      if t.spec.None? {
        return domain;
      }
      var s := ExpandMacros(domain, t.spec.value);
      target := Truncate(s);
    }

    method FetchRecord(domain: string) returns (f: Fetched)
      requires Valid()
      modifies this
      ensures Valid() && stack == old(stack)
      ensures f == Fetch(e.r, domain)
      ensures St() == old(St()).(queries := old(St()).queries + 1)
    {
      queries := queries + 1;
      var ans := e.r.txt(domain);
      if ans.Failed? {
        return if ans.kind.NXDomain? then NoRecord else TempFailure;
      }
      var records := [];
      for i := 0 to |ans.v|
        invariant records + SpfTexts(ans.v[i..]) == SpfTexts(ans.v)
      {
        if !ans.v[i].spf.NotSpf? {
          records := records + [ans.v[i].spf];
        }
      }
      return if records == [] then NoRecord else if |records| == 1 then One(records[0]) else Several;
    }

    method MatchMX(hosts: seq<string>, t: Term) returns (p: Probe)
      requires Valid()
      modifies this
      ensures Valid() && stack == old(stack)
      ensures p == MxProbe(e.r, e.req.ip, hosts, t)
      ensures St() == old(St()).(queries := old(St()).queries + MxCost(e.r, e.req.ip, hosts, t))
    {
      for i := 0 to |hosts|
        invariant Valid() && stack == old(stack)
        invariant MxProbe(e.r, e.req.ip, hosts[i..], t) == MxProbe(e.r, e.req.ip, hosts, t)
        invariant St() == old(St()).(queries := St().queries)
        invariant St().queries + MxCost(e.r, e.req.ip, hosts[i..], t)
               == old(St()).queries + MxCost(e.r, e.req.ip, hosts, t)
      {
        if hosts[i] != "." {
          var addrs := Addrs(hosts[i]);
          if addrs.Failed? {
            if IsTemporary(addrs.kind) {
              return Temp;
            }
          } else {
            var hit := AnyAddrMatches(addrs.v, e.req.ip, t);
            if hit {
              return Hit;
            }
          }
        }
      }
      return Miss;
    }

    /** One mechanism other than include. */
    method MatchPlain(domain: string, t: Term) returns (step: Step)
      requires Valid() && !t.Modifier() && !t.name.Include?
      modifies this
      ensures Valid() && stack == old(stack)
      ensures (step, St()) == Plain(e, domain, t, old(St()))
    {
      hide Target, TouchTerm, SamePrefix, MatchAddrs, MxProbe, MxCost, PtrValidated, PtrCost, LookupAddrs, IsTemporary;
      var probe := Miss;
      match t.name {
        case All => return Matched;
        case IP4 => return if e.req.ip.V4? && SamePrefix(t.network, e.req.ip, t.bits) then Matched else Unmatched;
        case IP6 => return if e.req.ip.V6? && SamePrefix(t.network, e.req.ip, t.bits) then Matched else Unmatched;
        case A =>
          var target := ExpandDomain(domain, t);
          var addrs := Addrs(target);
          if addrs.Failed? {
            probe := if IsTemporary(addrs.kind) then Temp else Void;
          } else if addrs.v == [] {
            probe := Void;
          } else {
            var hit := AnyAddrMatches(addrs.v, e.req.ip, t);
            probe := if hit then Hit else Miss;
          }
        case MX =>
          var target := ExpandDomain(domain, t);
          queries := queries + 1;
          var hosts := e.r.mx(target);
          if hosts.Failed? {
            probe := if IsTemporary(hosts.kind) then Temp else Void;
          } else if hosts.v == [] {
            probe := Void;
          } else if |hosts.v| > e.lim.maxMX {
            limitExceeded := true;
            return Stop(Abort(PermError, OverLimit));
          } else {
            probe := MatchMX(hosts.v, t);
          }
        case PTR =>
          var target := ExpandDomain(domain, t);
          var names := ValidatedNames();
          if names.Some? {
            for i := 0 to |names.value|
              invariant forall k :: 0 <= k < i ==>
                names.value[k] != Lower(target) && !HasSuffix(names.value[k], "." + Lower(target))
            {
              var n := names.value[i];
              assert n in names.value;
              if n == Lower(target) || HasSuffix(n, "." + Lower(target)) {
                return Matched;
              }
            }
          }
        case Exists =>
          var target := ExpandDomain(domain, t);
          queries := queries + 1;
          var addrs := e.r.a(target);
          if addrs.Failed? {
            probe := if IsTemporary(addrs.kind) then Temp else Void;
          } else {
            probe := if addrs.v == [] then Void else Hit;
          }
      }
      match probe {
        case Hit => return Matched;
        case Miss => return Unmatched;
        case Temp => return Stop(Abort(TempError, Dns));
        case Void => step := CountVoidLookup();
      }
    }

    method Explanation(domain: string, exp: Term) returns (text: string)
      requires Valid()
      modifies this
      ensures Valid() && stack == old(stack)
      ensures (text, St()) == Explain(e, domain, exp, old(St()))
    {
      var target := ExpandDomain(domain, exp);
      if !ValidInitialDomain(target) {
        return "";
      }
      queries := queries + 1;
      var txts := e.r.txt(target);
      if txts.Failed? || |txts.v| != 1 || txts.v[0].explanation.None? {
        return "";
      }
      var s := ExpandMacros(domain, txts.v[0].explanation.value);
      text := if |s| > MAX_EXPLANATION then s[..MAX_EXPLANATION] else s;
    }

    /** The recursive check_host(). The stack is as deep as the recursion, never
        holds a domain twice, and is restored on every way out. */
    method CheckHost(domain: string, depth: nat) returns (o: Outcome)
      requires Valid() && e.detect && |stack| == depth && Distinct(stack)
      modifies this
      ensures Valid() && stack == old(stack)
      ensures (o, St()) == Check(e, domain, old(stack), old(St()))
      decreases Room(e, depth), 1, 0
    {
      if !ValidInitialDomain(domain) {
        return Done(NoneResult);
      }
      for i := 0 to |stack|
        invariant forall k :: 0 <= k < i ==> !EqualFold(stack[k], domain)
      {
        if EqualFold(stack[i], domain) {
          loopDetected := true;
          return Abort(PermError, OnLoop);
        }
      }
      if depth > e.lim.maxDepth {
        return Abort(PermError, TooDeep);
      }
      stack := stack + [domain];
      o := CheckRecord(domain, depth);
      stack := stack[..|stack| - 1];
    }

    /** The target of an include or redirect, one level deeper. */
    method Follow(domain: string, depth: nat, t: Term) returns (o: Outcome)
      requires Valid() && e.detect && depth <= e.lim.maxDepth
      requires |stack| == depth + 1 && stack[depth] == domain && Distinct(stack)
      modifies this
      ensures Valid() && stack == old(stack)
      ensures (o, St()) == Descend(e, domain, old(stack[..depth]), t, old(St()))
      decreases Room(e, depth), 0, 0
    {
      assert stack == stack[..depth] + [domain];
      var target := ExpandDomain(domain, t);
      if !ValidInitialDomain(target) {
        return Abort(PermError, Policy);
      }
      o := CheckHost(target, depth + 1);
    }

    /** Counts and evaluates one mechanism. */
    method MatchTerm(domain: string, depth: nat, t: Term) returns (step: Step)
      requires Valid() && e.detect && depth <= e.lim.maxDepth && !t.Modifier()
      requires |stack| == depth + 1 && stack[depth] == domain && Distinct(stack)
      modifies this
      ensures Valid() && stack == old(stack)
      ensures (step, St()) == Match(e, domain, old(stack[..depth]), t, old(St()))
      decreases Room(e, depth), 0, 1
    {
      if t.CountsLookup() {
        var ok := CountLookup();
        if !ok {
          return Stop(Abort(PermError, OverLimit));
        }
      }
      if t.name.Include? {
        var res := Follow(domain, depth, t);
        step := IncludeStep(res);
      } else {
        step := MatchPlain(domain, t);
      }
    }

    /** The part of check_host() that runs with domain on the stack. */
    method CheckRecord(domain: string, depth: nat) returns (o: Outcome)
      requires Valid() && e.detect && depth <= e.lim.maxDepth
      requires |stack| == depth + 1 && stack[depth] == domain && Distinct(stack)
      requires ValidInitialDomain(domain)
      modifies this
      ensures Valid() && stack == old(stack)
      ensures (o, St()) == Check(e, domain, old(stack[..depth]), old(St()))
      decreases Room(e, depth), 0, 2
    {
      ghost var outer := stack[..depth];
      assert stack == outer + [domain];
      assert !OnStack(outer, domain);
      var fetched := FetchRecord(domain);
      match fetched {
        case NoRecord => return Done(NoneResult);
        case TempFailure => return Abort(TempError, Dns);
        case Several => return Abort(PermError, Policy);
        case One(view) =>
          if !view.Parsed? {
            return Abort(PermError, Policy);
          }
      }
      var rec := fetched.view.record;
      for i := 0 to |rec.terms|
        invariant Valid() && stack == old(stack)
        invariant Terms(e, domain, outer, rec, i, St()) == Check(e, domain, outer, old(St()))
      {
        var t := rec.terms[i];
        if t.Modifier() {
          continue;
        }
        var step := MatchTerm(domain, depth, t);
        match step {
          case Stop(out) => return out;
          case Matched =>
            var result := t.qualifier.Result();
            if depth == 0 && result == Fail && rec.exp.Some? {
              var text := Explanation(domain, rec.exp.value);
              explanation := text;
            }
            return Done(result);
          case Unmatched =>
        }
      }
      if rec.redirect.Some? {
        var ok := CountLookup();
        if !ok {
          return Abort(PermError, OverLimit);
        }
        var res := Follow(domain, depth, rec.redirect.value);
        return if res == Done(NoneResult) then Abort(PermError, Policy) else res;
      }
      return Done(Neutral);
    }
  }

  /** No domain of the stack is under evaluation twice. */
  ghost predicate Distinct(stack: seq<string>) {
    forall i, j :: 0 <= i < j < |stack| ==> !EqualFold(stack[i], stack[j])
  }

  method CheckHost(r: Resolver, limits: Limits, request: Request) returns (result: Result, ev: Evaluator)
    ensures result == Run(r, limits, request).0.result
    ensures fresh(ev) && ev.St() == Run(r, limits, request).1
  {
    var lim := if limits == Limits(0, 0, 0, 0, 0) then DEFAULT_LIMITS else limits;
    var req := Normalized(request);
    ev := new Evaluator(Env(r, lim, req, true));
    var o := ev.CheckHost(req.domain, 0);
    result := o.result;
  }
}
