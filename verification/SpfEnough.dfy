/** Limits large enough for an answer: the program reaches every limit-free result. */
module SpfEnough {
  import opened Wrappers
  import opened Spf
  import opened SpfEval
  import opened SpfReference
  import opened SpfLimits

  /** Terms counted, void lookups and exchangers met below domain, at most. */
  function Need(e: Env, domain: string, fuel: nat): nat
    decreases fuel, 1, 0
  {
    if fuel == 0 then 0
    else
      match Fetch(e.r, domain)
      case One(Parsed(rec)) => NeedTerms(e, domain, rec, 0, fuel)
      case _ => 0
  }

  function NeedTerms(e: Env, domain: string, rec: Record, i: nat, fuel: nat): nat
    requires i <= |rec.terms| && fuel > 0
    decreases fuel, 0, |rec.terms| - i
  {
    if i == |rec.terms| then
      match rec.redirect
      case None => 0
      case Some(t) => 1 + Need(e, Target(e, domain, t), fuel - 1)
    else NeedTerm(e, domain, rec.terms[i], fuel) + NeedTerms(e, domain, rec, i + 1, fuel)
  }

  function NeedTerm(e: Env, domain: string, t: Term, fuel: nat): nat
    requires fuel > 0
    decreases fuel, 0, 0
  {
    var target := Target(e, domain, t);
    if t.name.Include? then 1 + Need(e, target, fuel - 1)
    else 1 + (if e.r.mx(target).Data? then |e.r.mx(target).v| else 0)
  }

  /** There is room in the limits for n more of everything. */
  ghost predicate Affords(e: Env, st: State, n: nat) {
    st.lookups + n <= e.lim.maxLookups && st.voids + n <= e.lim.maxVoids && n <= e.lim.maxMX
  }

  /** Going from st to st' took at most n of everything. */
  ghost predicate Took(st: State, st': State, n: nat) {
    st'.lookups <= st.lookups + n && st'.voids <= st.voids + n
  }

  lemma PlainTakes(e: Env, domain: string, t: Term, fuel: nat, st: State)
    requires fuel > 0 && !t.name.Include? && Affords(e, st, NeedTerm(e, domain, t, fuel))
    ensures var (s, st') := Plain(e, domain, t, if t.CountsLookup() then Count(e, st) else st);
            !StepOutOfLimits(s) && Took(st, st', NeedTerm(e, domain, t, fuel))
  {
  }

  lemma {:induction false} CheckTakes(e: Env, domain: string, stack: seq<string>, st: State, fuel: nat)
    requires Ref(e, domain, fuel).Some?
    requires |stack| + fuel <= e.lim.maxDepth + 1 && Affords(e, st, Need(e, domain, fuel))
    ensures var (o, st') := Check(e, domain, stack, st);
            !OutOfLimits(o) && Took(st, st', Need(e, domain, fuel))
    decreases fuel, 2, 0
  {
    hide ValidInitialDomain, OnStack, Fetch, NeedTerms, Terms, RefTerms;
    if ValidInitialDomain(domain) && !(e.detect && OnStack(stack, domain)) {
      match Fetch(e.r, domain) {
        case One(Parsed(rec)) => TermsTake(e, domain, stack, rec, 0, st.(queries := st.queries + 1), fuel);
        case _ =>
      }
    }
  }

  lemma {:induction false} DescendTakes(e: Env, domain: string, stack: seq<string>, t: Term, st: State, fuel: nat)
    requires fuel > 0 && RefTarget(e, domain, t, fuel).Some?
    requires |stack| + fuel <= e.lim.maxDepth + 1 && Affords(e, st, Need(e, Target(e, domain, t), fuel - 1))
    ensures var (o, st') := Descend(e, domain, stack, t, st);
            !OutOfLimits(o) && Took(st, st', Need(e, Target(e, domain, t), fuel - 1))
    decreases fuel, 0, 0
  {
    if ValidInitialDomain(Target(e, domain, t)) {
      CheckTakes(e, Target(e, domain, t), stack + [domain], TouchTerm(e, domain, t, st), fuel - 1);
    }
  }

  lemma {:induction false} MatchTakes(e: Env, domain: string, stack: seq<string>, t: Term, st: State, fuel: nat)
    requires fuel > 0 && (t.name.Include? ==> RefTarget(e, domain, t, fuel).Some?)
    requires |stack| + fuel <= e.lim.maxDepth + 1 && Affords(e, st, NeedTerm(e, domain, t, fuel))
    ensures var (s, st') := Match(e, domain, stack, t, st);
            !StepOutOfLimits(s) && Took(st, st', NeedTerm(e, domain, t, fuel))
    decreases fuel, 0, 1
  {
    if t.name.Include? {
      DescendTakes(e, domain, stack, t, Count(e, st), fuel);
    } else {
      PlainTakes(e, domain, t, fuel, st);
    }
  }

  lemma {:induction false} TermsTake(
      e: Env, domain: string, stack: seq<string>, rec: Record, i: nat, st: State, fuel: nat)
    requires i <= |rec.terms| && fuel > 0 && RefTerms(e, domain, rec, i, fuel).Some?
    requires |stack| + fuel <= e.lim.maxDepth + 1 && Affords(e, st, NeedTerms(e, domain, rec, i, fuel))
    ensures var (o, st') := Terms(e, domain, stack, rec, i, st);
            !OutOfLimits(o) && Took(st, st', NeedTerms(e, domain, rec, i, fuel))
    decreases fuel, 1, |rec.terms| - i
  {
    if i == |rec.terms| {
      if rec.redirect.Some? {
        DescendTakes(e, domain, stack, rec.redirect.value, Count(e, st), fuel);
      }
      assert Terms(e, domain, stack, rec, i, st) == Finish(e, domain, stack, rec, st);
    } else {
      var t := rec.terms[i];
      if t.Modifier() {
        TermsTake(e, domain, stack, rec, i + 1, st, fuel);
      } else {
        MatchTakes(e, domain, stack, t, st, fuel);
        MatchAgrees(e, domain, stack, rec, i, st, fuel);
        var (step, st1) := Match(e, domain, stack, t, st);
        match step {
          case Stop(_) =>
          case Unmatched => TermsTake(e, domain, stack, rec, i + 1, st1, fuel);
          case Matched => AfterMatchTakes(e, domain, |stack|, rec, t.qualifier.Result(), st1);
        }
      }
    }
  }

  lemma AfterMatchTakes(e: Env, domain: string, depth: nat, rec: Record, result: Result, st: State)
    ensures Took(st, AfterMatch(e, domain, depth, rec, result, st), 0)
  {
  }

  /** Every limit-free result is what CheckHost returns once the limits afford it: with
      LimitsOnlyAddPermerror, the limits are the only difference between the two. */
  lemma EnoughLimitsReachTheResult(r: Resolver, lim: Limits, req: Request, fuel: nat)
    requires CaseInsensitive(r)
    requires Ref(EnvOf(r, lim, req), Normalized(req).domain, fuel).Some?
    requires fuel <= Effective(lim).maxDepth + 1
    requires Affords(EnvOf(r, lim, req), START, Need(EnvOf(r, lim, req), Normalized(req).domain, fuel))
    ensures !Cut(Run(r, lim, req).0)
    ensures Ref(EnvOf(r, lim, req), Normalized(req).domain, fuel) == Some(Run(r, lim, req).0.result)
  {
    var e := EnvOf(r, lim, req);
    CheckTakes(e, e.req.domain, [], START, fuel);
    if LoopFound(Run(r, lim, req).0) {
      LoopDiverges(r, lim, req);
    }
    UncutIsRef(e, e.req.domain, [], START);
    RefUnique(e, e.req.domain, fuel, Room(e, 0) + 1);
  }
}
