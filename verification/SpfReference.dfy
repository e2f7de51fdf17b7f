/** check_host() without limits (sections 4, 5.2 and 6.1 of RFC 7208), and what the
    program's limits and its loop check do to it. */
module SpfReference {
  import opened Wrappers
  import opened Spf
  import opened SpfEval

  /** The result for domain, or None if it takes more than fuel nested records.
      Nothing is counted and only the PTR name limit of e is used. */
  function Ref(e: Env, domain: string, fuel: nat): Option<Result>
    decreases fuel, 2, 0
  {
    if fuel == 0 then None
    else if !ValidInitialDomain(domain) then Some(NoneResult)
    else
      match Fetch(e.r, domain)
      case NoRecord => Some(NoneResult)
      case TempFailure => Some(TempError)
      case One(Parsed(rec)) => RefTerms(e, domain, rec, 0, fuel)
      case _ => Some(PermError)
  }

  function RefTerms(e: Env, domain: string, rec: Record, i: nat, fuel: nat): Option<Result>
    requires i <= |rec.terms| && fuel > 0
    decreases fuel, 1, |rec.terms| - i
  {
    if i == |rec.terms| then
      match rec.redirect
      case None => Some(Neutral)
      case Some(t) =>
        var res := RefTarget(e, domain, t, fuel);
        if res == Some(NoneResult) then Some(PermError) else res
    else
      var t := rec.terms[i];
      if t.Modifier() then RefTerms(e, domain, rec, i + 1, fuel)
      else if t.name.Include? then
        match RefTarget(e, domain, t, fuel)
        case None => None
        case Some(Pass) => Some(t.qualifier.Result())
        case Some(TempError) => Some(TempError)
        case Some(PermError) => Some(PermError)
        case Some(NoneResult) => Some(PermError)
        case Some(_) => RefTerms(e, domain, rec, i + 1, fuel)
      else
        match ProbeOf(e.r, e.req.ip, e.lim.maxPTR, t, Target(e, domain, t))
        case Hit => Some(t.qualifier.Result())
        case Temp => Some(TempError)
        case _ => RefTerms(e, domain, rec, i + 1, fuel)
  }

  function RefTarget(e: Env, domain: string, t: Term, fuel: nat): Option<Result>
    requires fuel > 0
    decreases fuel, 0, 0
  {
    var target := Target(e, domain, t);
    if !ValidInitialDomain(target) then Some(PermError) else Ref(e, target, fuel - 1)
  }

  // ---------------------------------------------------------------- more fuel changes nothing

  lemma {:induction false} RefMore(e: Env, domain: string, fuel: nat, more: nat)
    requires fuel <= more && Ref(e, domain, fuel).Some?
    ensures Ref(e, domain, more) == Ref(e, domain, fuel)
    decreases fuel, 2, 0
  {
    if ValidInitialDomain(domain) {
      match Fetch(e.r, domain) {
        case One(Parsed(rec)) => RefTermsMore(e, domain, rec, 0, fuel, more);
        case _ =>
      }
    }
  }

  lemma {:induction false} RefTermsMore(e: Env, domain: string, rec: Record, i: nat, fuel: nat, more: nat)
    requires i <= |rec.terms| && 0 < fuel <= more && RefTerms(e, domain, rec, i, fuel).Some?
    ensures RefTerms(e, domain, rec, i, more) == RefTerms(e, domain, rec, i, fuel)
    decreases fuel, 1, |rec.terms| - i
  {
    if i == |rec.terms| {
      if rec.redirect.Some? {
        RefTargetMore(e, domain, rec.redirect.value, fuel, more);
      }
    } else {
      var t := rec.terms[i];
      if !t.Modifier() && t.name.Include? {
        RefTargetMore(e, domain, t, fuel, more);
      }
      if RefTerms(e, domain, rec, i + 1, fuel).Some? {
        RefTermsMore(e, domain, rec, i + 1, fuel, more);
      }
    }
  }

  lemma {:induction false} RefTargetMore(e: Env, domain: string, t: Term, fuel: nat, more: nat)
    requires 0 < fuel <= more && RefTarget(e, domain, t, fuel).Some?
    ensures RefTarget(e, domain, t, more) == RefTarget(e, domain, t, fuel)
    decreases fuel, 0, 0
  {
    var target := Target(e, domain, t);
    if ValidInitialDomain(target) {
      RefMore(e, target, fuel - 1, more - 1);
    }
  }

  /** The reference has at most one answer. */
  lemma RefUnique(e: Env, domain: string, f: nat, g: nat)
    requires Ref(e, domain, f).Some? && Ref(e, domain, g).Some?
    ensures Ref(e, domain, f) == Ref(e, domain, g)
  {
    if f <= g {
      RefMore(e, domain, f, g);
    } else {
      RefMore(e, domain, g, f);
    }
  }

  // ---------------------------------------------------------------- runs that are not cut short

  predicate Cut(o: Outcome) {
    o.Abort? && o.cause in {OverLimit, OnLoop, TooDeep}
  }

  /** A way of ending is an error exactly when it is an abort, and a permerror when it is cut short. */
  ghost predicate Tidy(o: Outcome) {
    && (o.Abort? <==> o.result == TempError || o.result == PermError)
    && (Cut(o) ==> o.result == PermError)
  }

  /** What a step of the i-th term says about the reference. */
  ghost predicate Agrees(e: Env, domain: string, rec: Record, i: nat, fuel: nat, step: Step)
    requires i < |rec.terms| && fuel > 0
  {
    match step
    case Stop(o) => o.Abort? && Tidy(o) && (!Cut(o) ==> RefTerms(e, domain, rec, i, fuel) == Some(o.result))
    case Matched => RefTerms(e, domain, rec, i, fuel) == Some(rec.terms[i].qualifier.Result())
    case Unmatched => RefTerms(e, domain, rec, i, fuel) == RefTerms(e, domain, rec, i + 1, fuel)
  }

  lemma PlainAgrees(e: Env, domain: string, rec: Record, i: nat, fuel: nat, st: State)
    requires i < |rec.terms| && fuel > 0
    requires !rec.terms[i].Modifier() && !rec.terms[i].name.Include?
    ensures Agrees(e, domain, rec, i, fuel, Plain(e, domain, rec.terms[i], st).0)
  {
    var t := rec.terms[i];
    var probe := ProbeOf(e.r, e.req.ip, e.lim.maxPTR, t, Target(e, domain, t));
    if t.name in {All, IP4, IP6} {
      assert probe == ProbeOf(e.r, e.req.ip, e.lim.maxPTR, t, domain);
    }
  }

  lemma IncludeAgrees(e: Env, domain: string, rec: Record, i: nat, fuel: nat, o: Outcome)
    requires i < |rec.terms| && fuel > 0 && rec.terms[i].name.Include? && Tidy(o)
    requires !Cut(o) ==> RefTarget(e, domain, rec.terms[i], fuel) == Some(o.result)
    ensures Agrees(e, domain, rec, i, fuel, IncludeStep(o))
  {
    hide RefTarget, ProbeOf, Target;
    var res := RefTarget(e, domain, rec.terms[i], fuel);
    if !Cut(o) {
      assert res == Some(o.result);
    } else {
      assert IncludeStep(o) == Stop(o);
    }
  }

  lemma {:induction false} UncutIsRef(e: Env, domain: string, stack: seq<string>, st: State)
    ensures var o := Check(e, domain, stack, st).0;
            Tidy(o) && (!Cut(o) ==> Ref(e, domain, Room(e, |stack|) + 1) == Some(o.result))
    decreases Room(e, |stack|), 2, 0
  {
    if ValidInitialDomain(domain) && !(e.detect && OnStack(stack, domain)) && |stack| <= e.lim.maxDepth {
      match Fetch(e.r, domain) {
        case One(Parsed(rec)) => UncutTerms(e, domain, stack, rec, 0, st.(queries := st.queries + 1));
        case _ =>
      }
    }
  }

  lemma {:induction false} UncutTerms(e: Env, domain: string, stack: seq<string>, rec: Record, i: nat, st: State)
    requires i <= |rec.terms| && |stack| <= e.lim.maxDepth
    ensures var o := Terms(e, domain, stack, rec, i, st).0;
            Tidy(o) && (!Cut(o) ==> RefTerms(e, domain, rec, i, Room(e, |stack|) + 1) == Some(o.result))
    decreases Room(e, |stack|), 1, |rec.terms| - i
  {
    if i == |rec.terms| {
      if rec.redirect.Some? && !CountFails(e, st) {
        UncutDescend(e, domain, stack, rec.redirect.value, Count(e, st));
      }
    } else {
      var t := rec.terms[i];
      if t.Modifier() {
        UncutTerms(e, domain, stack, rec, i + 1, st);
      } else {
        UncutMatch(e, domain, stack, rec, i, st);
        var (step, st1) := Match(e, domain, stack, t, st);
        if step.Unmatched? {
          UncutTerms(e, domain, stack, rec, i + 1, st1);
        }
      }
    }
  }

  lemma {:induction false} UncutMatch(e: Env, domain: string, stack: seq<string>, rec: Record, i: nat, st: State)
    requires i < |rec.terms| && |stack| <= e.lim.maxDepth && !rec.terms[i].Modifier()
    ensures Agrees(e, domain, rec, i, Room(e, |stack|) + 1, Match(e, domain, stack, rec.terms[i], st).0)
    decreases Room(e, |stack|), 0, 1
  {
    var t, fuel := rec.terms[i], Room(e, |stack|) + 1;
    if !(t.CountsLookup() && CountFails(e, st)) {
      var st1 := if t.CountsLookup() then Count(e, st) else st;
      if t.name.Include? {
        UncutDescend(e, domain, stack, t, st1);
        IncludeAgrees(e, domain, rec, i, fuel, Descend(e, domain, stack, t, st1).0);
      } else {
        PlainAgrees(e, domain, rec, i, fuel, st1);
      }
    }
  }

  lemma {:induction false} UncutDescend(e: Env, domain: string, stack: seq<string>, t: Term, st: State)
    requires |stack| <= e.lim.maxDepth
    ensures var o := Descend(e, domain, stack, t, st).0;
            Tidy(o) && (!Cut(o) ==> RefTarget(e, domain, t, Room(e, |stack|) + 1) == Some(o.result))
    decreases Room(e, |stack|), 0, 0
  {
    if ValidInitialDomain(Target(e, domain, t)) {
      UncutIsRef(e, Target(e, domain, t), stack + [domain], TouchTerm(e, domain, t, st));
    }
  }

  // ---------------------------------------------------------------- limits

  /** The limit-free result of a request, up to the PTR name limit. */
  ghost predicate HasResult(e: Env, x: Result) {
    exists fuel: nat :: Ref(e, e.req.domain, fuel) == Some(x)
  }

  /** Limits and the loop check only ever turn an answer into permerror: a run that is
      not cut short gives the limit-free result, and any other run is a permerror. */
  lemma LimitsOnlyAddPermerror(r: Resolver, lim: Limits, req: Request)
    ensures var e, o := EnvOf(r, lim, req), Run(r, lim, req).0;
            && (Cut(o) ==> o.result == PermError)
            && (!Cut(o) ==> forall x :: HasResult(e, x) <==> x == o.result)
  {
    var e, o := EnvOf(r, lim, req), Run(r, lim, req).0;
    UncutIsRef(e, e.req.domain, [], START);
    if !Cut(o) {
      assert HasResult(e, o.result);
      forall x | HasResult(e, x)
        ensures x == o.result
      {
        var fuel: nat :| Ref(e, e.req.domain, fuel) == Some(x);
        RefUnique(e, e.req.domain, fuel, Room(e, 0) + 1);
      }
    }
  }
}
