/** Raising limits, removing the loop check, and when limits are large enough. */
module SpfLimits {
  import opened Ascii
  import opened Macro
  import opened Spf
  import opened SpfEval
  import opened SpfReference

  // ---------------------------------------------------------------- larger limits

  /** Every limit that ends in permerror is at least as large; the PTR name limit,
      which silently ignores names, is the same. */
  predicate Larger(l: Limits, l': Limits) {
    && l.maxLookups <= l'.maxLookups && l.maxVoids <= l'.maxVoids && l.maxMX <= l'.maxMX
    && l.maxDepth <= l'.maxDepth && l.maxPTR == l'.maxPTR
  }

  predicate OutOfLimits(o: Outcome) {
    o.Abort? && o.cause in {OverLimit, TooDeep}
  }

  predicate StepOutOfLimits(s: Step) {
    s.Stop? && OutOfLimits(s.o)
  }

  lemma PlainLarger(e: Env, l: Limits, domain: string, t: Term, st: State)
    requires Larger(e.lim, l) && !StepOutOfLimits(Plain(e, domain, t, st).0)
    ensures Plain(e.(lim := l), domain, t, st) == Plain(e, domain, t, st)
  {
    TargetLarger(e, l, domain, t, st);
    var target, st1 := Target(e, domain, t), TouchTerm(e, domain, t, st);
    if t.name.MX? {
      assert !TooManyMX(e.r, e.lim.maxMX, t, target) && !TooManyMX(e.r, l.maxMX, t, target);
    }
    assert ProbeCost(e.r, e.req.ip, e.lim.maxMX, e.lim.maxPTR, t, target)
        == ProbeCost(e.r, e.req.ip, l.maxMX, l.maxPTR, t, target);
  }

  lemma TargetLarger(e: Env, l: Limits, domain: string, t: Term, st: State)
    requires Larger(e.lim, l)
    ensures Target(e.(lim := l), domain, t) == Target(e, domain, t)
    ensures TouchTerm(e.(lim := l), domain, t, st) == TouchTerm(e, domain, t, st)
  {
    assert PValue(e.(lim := l), domain) == PValue(e, domain);
  }

  lemma FinishLarger(e: Env, l: Limits, domain: string, stack: seq<string>, rec: Record, st: State)
    requires |stack| <= e.lim.maxDepth
    requires Larger(e.lim, l) && !OutOfLimits(Finish(e, domain, stack, rec, st).0)
    ensures Finish(e.(lim := l), domain, stack, rec, st) == Finish(e, domain, stack, rec, st)
    decreases Room(e, |stack|), 0, 1
  {
    if rec.redirect.Some? && !CountFails(e, st) {
      DescendLarger(e, l, domain, stack, rec.redirect.value, Count(e, st));
    }
  }

  lemma AfterMatchLarger(e: Env, l: Limits, domain: string, depth: nat, rec: Record, result: Result, st: State)
    requires Larger(e.lim, l)
    ensures AfterMatch(e.(lim := l), domain, depth, rec, result, st) == AfterMatch(e, domain, depth, rec, result, st)
  {
    assert PValue(e.(lim := l), domain) == PValue(e, domain);
    if rec.exp.Some? {
      TargetLarger(e, l, domain, rec.exp.value, st);
    }
  }

  lemma {:induction false} CheckLarger(e: Env, l: Limits, domain: string, stack: seq<string>, st: State)
    requires Larger(e.lim, l) && !OutOfLimits(Check(e, domain, stack, st).0)
    ensures Check(e.(lim := l), domain, stack, st) == Check(e, domain, stack, st)
    decreases Room(e, |stack|), 2, 0
  {
    if ValidInitialDomain(domain) && !(e.detect && OnStack(stack, domain)) && |stack| <= e.lim.maxDepth {
      match Fetch(e.r, domain) {
        case One(Parsed(rec)) => TermsLarger(e, l, domain, stack, rec, 0, st.(queries := st.queries + 1));
        case _ =>
      }
    }
  }

  lemma {:induction false} TermsLarger(
      e: Env, l: Limits, domain: string, stack: seq<string>, rec: Record, i: nat, st: State)
    requires i <= |rec.terms| && |stack| <= e.lim.maxDepth
    requires Larger(e.lim, l) && !OutOfLimits(Terms(e, domain, stack, rec, i, st).0)
    ensures Terms(e.(lim := l), domain, stack, rec, i, st) == Terms(e, domain, stack, rec, i, st)
    decreases Room(e, |stack|), 1, |rec.terms| - i
  {
    if i == |rec.terms| {
      FinishLarger(e, l, domain, stack, rec, st);
    } else {
      var t := rec.terms[i];
      if t.Modifier() {
        TermsLarger(e, l, domain, stack, rec, i + 1, st);
      } else {
        var (step, st1) := Match(e, domain, stack, t, st);
        MatchLarger(e, l, domain, stack, t, st);
        match step {
          case Stop(_) =>
          case Unmatched => TermsLarger(e, l, domain, stack, rec, i + 1, st1);
          case Matched => AfterMatchLarger(e, l, domain, |stack|, rec, t.qualifier.Result(), st1);
        }
      }
    }
  }

  lemma {:induction false} MatchLarger(e: Env, l: Limits, domain: string, stack: seq<string>, t: Term, st: State)
    requires |stack| <= e.lim.maxDepth
    requires Larger(e.lim, l) && !StepOutOfLimits(Match(e, domain, stack, t, st).0)
    ensures Match(e.(lim := l), domain, stack, t, st) == Match(e, domain, stack, t, st)
    decreases Room(e, |stack|), 0, 1
  {
    var st1 := if t.CountsLookup() then Count(e, st) else st;
    if t.name.Include? {
      DescendLarger(e, l, domain, stack, t, st1);
    } else {
      PlainLarger(e, l, domain, t, st1);
    }
  }

  lemma {:induction false} DescendLarger(e: Env, l: Limits, domain: string, stack: seq<string>, t: Term, st: State)
    requires |stack| <= e.lim.maxDepth
    requires Larger(e.lim, l) && !OutOfLimits(Descend(e, domain, stack, t, st).0)
    ensures Descend(e.(lim := l), domain, stack, t, st) == Descend(e, domain, stack, t, st)
    decreases Room(e, |stack|), 0, 0
  {
    TargetLarger(e, l, domain, t, st);
    hide Target, TouchTerm, ValidInitialDomain, Check;
    if ValidInitialDomain(Target(e, domain, t)) {
      CheckLarger(e, l, Target(e, domain, t), stack + [domain], TouchTerm(e, domain, t, st));
    }
  }

  /** A run that no limit cuts short is the same run under any larger limits: the same
      result, counters, resolver calls and explanation. */
  lemma LargerLimitsSameRun(r: Resolver, lim: Limits, lim': Limits, req: Request)
    requires Larger(Effective(lim), Effective(lim'))
    requires !OutOfLimits(Run(r, lim, req).0)
    ensures Run(r, lim', req) == Run(r, lim, req)
  {
    var e := EnvOf(r, lim, req);
    CheckLarger(e, Effective(lim'), e.req.domain, [], START);
  }

  // ---------------------------------------------------------------- letter case

  lemma FoldTarget(e: Env, a: string, b: string, t: Term)
    requires EqualFold(a, b)
    ensures EqualFold(Target(e, a, t), Target(e, b, t))
  {
    if t.spec.Some? {
      var mc, mc' := ContextOf(e.req, a), ContextOf(e.req, b);
      FoldExpandSpec(t.spec.value, mc, PValue(e, a), mc', PValue(e, b));
    }
  }

  lemma FoldProbe(e: Env, t: Term, x: string, y: string)
    requires CaseInsensitive(e.r) && EqualFold(x, y)
    ensures ProbeOf(e.r, e.req.ip, e.lim.maxPTR, t, x) == ProbeOf(e.r, e.req.ip, e.lim.maxPTR, t, y)
  {
  }

  /** The reference does not look at the letter case of a domain. */
  lemma {:induction false} FoldRef(e: Env, a: string, b: string, fuel: nat)
    requires CaseInsensitive(e.r) && EqualFold(a, b)
    ensures Ref(e, a, fuel) == Ref(e, b, fuel)
    decreases fuel, 1, 0
  {
    FoldValidInitialDomain(a, b);
    if fuel > 0 && ValidInitialDomain(a) {
      assert e.r.txt(a) == e.r.txt(b);
      match Fetch(e.r, a) {
        case One(Parsed(rec)) => FoldRefTerms(e, a, b, rec, 0, fuel);
        case _ =>
      }
    }
  }

  lemma {:induction false} FoldRefTarget(e: Env, a: string, b: string, t: Term, fuel: nat)
    requires CaseInsensitive(e.r) && EqualFold(a, b) && fuel > 0
    ensures RefTarget(e, a, t, fuel) == RefTarget(e, b, t, fuel)
    decreases fuel, 0, 0
  {
    FoldTarget(e, a, b, t);
    FoldValidInitialDomain(Target(e, a, t), Target(e, b, t));
    FoldRef(e, Target(e, a, t), Target(e, b, t), fuel - 1);
  }

  lemma {:induction false} FoldRefTerms(e: Env, a: string, b: string, rec: Record, i: nat, fuel: nat)
    requires CaseInsensitive(e.r) && EqualFold(a, b) && i <= |rec.terms| && fuel > 0
    ensures RefTerms(e, a, rec, i, fuel) == RefTerms(e, b, rec, i, fuel)
    decreases fuel, 0, |rec.terms| - i + 1
  {
    if i == |rec.terms| {
      if rec.redirect.Some? {
        FoldRefTarget(e, a, b, rec.redirect.value, fuel);
      }
    } else {
      var t := rec.terms[i];
      if t.name.Include? {
        FoldRefTarget(e, a, b, t, fuel);
      } else {
        FoldTarget(e, a, b, t);
        FoldProbe(e, t, Target(e, a, t), Target(e, b, t));
      }
      FoldRefTerms(e, a, b, rec, i + 1, fuel);
    }
  }

  // ---------------------------------------------------------------- loops

  /** What UncutMatch says at one fuel holds at every fuel at which the reference answers. */
  lemma MatchAgrees(e: Env, domain: string, stack: seq<string>, rec: Record, i: nat, st: State, fuel: nat)
    requires i < |rec.terms| && |stack| <= e.lim.maxDepth && !rec.terms[i].Modifier() && fuel > 0
    requires RefTerms(e, domain, rec, i, fuel).Some?
    ensures Agrees(e, domain, rec, i, fuel, Match(e, domain, stack, rec.terms[i], st).0)
  {
    var t := rec.terms[i];
    if !(t.CountsLookup() && CountFails(e, st)) {
      var st1 := if t.CountsLookup() then Count(e, st) else st;
      if t.name.Include? {
        var o := Descend(e, domain, stack, t, st1).0;
        UncutDescend(e, domain, stack, t, st1);
        var target := Target(e, domain, t);
        if !Cut(o) && ValidInitialDomain(target) {
          RefUnique(e, target, fuel - 1, Room(e, |stack|));
        }
        IncludeAgrees(e, domain, rec, i, fuel, o);
      } else {
        PlainAgrees(e, domain, rec, i, fuel, st1);
      }
    }
  }

  predicate LoopFound(o: Outcome) {
    o.Abort? && o.cause.OnLoop?
  }

  lemma PlainFindsNoLoop(e: Env, domain: string, t: Term, st: State)
    ensures var s := Plain(e, domain, t, st).0; s.Stop? ==> !LoopFound(s.o)
  {
  }

  /** Only the target of an include can make a mechanism report a loop. */
  lemma LoopBelowMatch(e: Env, domain: string, stack: seq<string>, t: Term, st: State)
    requires |stack| <= e.lim.maxDepth
    ensures var s := Match(e, domain, stack, t, st).0;
            s.Stop? && LoopFound(s.o) ==>
              t.name.Include? && ValidInitialDomain(Target(e, domain, t))
              && LoopFound(Check(e, Target(e, domain, t), stack + [domain], TouchTerm(e, domain, t, Count(e, st))).0)
  {
    PlainFindsNoLoop(e, domain, t, if t.CountsLookup() then Count(e, st) else st);
  }

  lemma LoopBelowFinish(e: Env, domain: string, stack: seq<string>, rec: Record, st: State)
    requires |stack| <= e.lim.maxDepth
    ensures LoopFound(Finish(e, domain, stack, rec, st).0) ==>
              rec.redirect.Some? && ValidInitialDomain(Target(e, domain, rec.redirect.value))
              && LoopFound(Check(e, Target(e, domain, rec.redirect.value), stack + [domain],
                                 TouchTerm(e, domain, rec.redirect.value, Count(e, st))).0)
  {
    if rec.redirect.Some? && !CountFails(e, st) {
      var o := Descend(e, domain, stack, rec.redirect.value, Count(e, st)).0;
      assert Finish(e, domain, stack, rec, st).0 == RedirectOutcome(o);
    }
  }

  /** If the evaluation of domain reports a loop and the reference has an answer for
      domain, it has one for a domain already under evaluation, with no more fuel. */
  lemma {:induction false} LoopClimbs(e: Env, domain: string, stack: seq<string>, st: State, fuel: nat) returns (a: string)
    requires CaseInsensitive(e.r)
    requires LoopFound(Check(e, domain, stack, st).0) && Ref(e, domain, fuel).Some?
    ensures a in stack && Ref(e, a, fuel).Some?
    decreases fuel, 2, 0
  {
    hide ValidInitialDomain, Fetch, Terms, RefTerms, CaseInsensitive;
    if OnStack(stack, domain) {
      a :| a in stack && EqualFold(a, domain);
      FoldRef(e, a, domain, fuel);
    } else {
      match Fetch(e.r, domain) {
        case One(Parsed(rec)) =>
          a := LoopClimbsTerms(e, domain, stack, rec, 0, st.(queries := st.queries + 1), fuel);
      }
      if a !in stack {
        a := LoopClimbs(e, domain, stack, st, fuel - 1);
      }
      RefMore(e, a, fuel - 1, fuel);
    }
  }

  lemma {:induction false} LoopClimbsTerms(
      e: Env, domain: string, stack: seq<string>, rec: Record, i: nat, st: State, fuel: nat) returns (a: string)
    requires CaseInsensitive(e.r) && fuel > 0
    requires i <= |rec.terms| && |stack| <= e.lim.maxDepth
    requires LoopFound(Terms(e, domain, stack, rec, i, st).0) && RefTerms(e, domain, rec, i, fuel).Some?
    ensures a in stack + [domain] && Ref(e, a, fuel - 1).Some?
    decreases fuel, 1, |rec.terms| - i
  {
    if i == |rec.terms| {
      assert LoopFound(Finish(e, domain, stack, rec, st).0);
      LoopBelowFinish(e, domain, stack, rec, st);
      var t := rec.redirect.value;
      a := LoopClimbs(e, Target(e, domain, t), stack + [domain], TouchTerm(e, domain, t, Count(e, st)), fuel - 1);
    } else {
      var t := rec.terms[i];
      if t.Modifier() {
        a := LoopClimbsTerms(e, domain, stack, rec, i + 1, st, fuel);
      } else {
        MatchAgrees(e, domain, stack, rec, i, st, fuel);
        var (step, st1) := Match(e, domain, stack, t, st);
        if step.Unmatched? {
          a := LoopClimbsTerms(e, domain, stack, rec, i + 1, st1, fuel);
        } else {
          assert step.Stop? && LoopFound(step.o);
          LoopBelowMatch(e, domain, stack, t, st);
          a := LoopClimbs(e, Target(e, domain, t), stack + [domain], TouchTerm(e, domain, t, Count(e, st)), fuel - 1);
        }
      }
    }
  }

  /** A reported loop is real: without limits the evaluation would never end. */
  lemma LoopDiverges(r: Resolver, lim: Limits, req: Request)
    requires CaseInsensitive(r) && LoopFound(Run(r, lim, req).0)
    ensures forall fuel: nat :: Ref(EnvOf(r, lim, req), Normalized(req).domain, fuel).None?
  {
    var e := EnvOf(r, lim, req);
    forall fuel: nat
      ensures Ref(e, Normalized(req).domain, fuel).None?
    {
      if Ref(e, e.req.domain, fuel).Some? {
        var a := LoopClimbs(e, e.req.domain, [], START, fuel);
      }
    }
  }

  lemma {:induction false} NoLoopUndetected(e: Env, domain: string, stack: seq<string>, st: State)
    requires !e.detect
    ensures !LoopFound(Check(e, domain, stack, st).0)
    decreases Room(e, |stack|), 2, 0
  {
    if ValidInitialDomain(domain) && |stack| <= e.lim.maxDepth {
      match Fetch(e.r, domain) {
        case One(Parsed(rec)) => NoLoopUndetectedTerms(e, domain, stack, rec, 0, st.(queries := st.queries + 1));
        case _ =>
      }
    }
  }

  lemma {:induction false} NoLoopUndetectedTerms(
      e: Env, domain: string, stack: seq<string>, rec: Record, i: nat, st: State)
    requires !e.detect && i <= |rec.terms| && |stack| <= e.lim.maxDepth
    ensures !LoopFound(Terms(e, domain, stack, rec, i, st).0)
    decreases Room(e, |stack|), 1, |rec.terms| - i
  {
    if i == |rec.terms| {
      LoopBelowFinish(e, domain, stack, rec, st);
      if rec.redirect.Some? {
        var t := rec.redirect.value;
        NoLoopUndetected(e, Target(e, domain, t), stack + [domain], TouchTerm(e, domain, t, Count(e, st)));
      }
    } else {
      var t := rec.terms[i];
      if t.Modifier() {
        NoLoopUndetectedTerms(e, domain, stack, rec, i + 1, st);
      } else {
        LoopBelowMatch(e, domain, stack, t, st);
        if t.name.Include? {
          NoLoopUndetected(e, Target(e, domain, t), stack + [domain], TouchTerm(e, domain, t, Count(e, st)));
        }
        var (step, st1) := Match(e, domain, stack, t, st);
        if step.Unmatched? {
          NoLoopUndetectedTerms(e, domain, stack, rec, i + 1, st1);
        }
      }
    }
  }

  /** The loop check changes the reason only: whenever it fires, the same evaluation
      without it also ends in permerror, through the lookup, void or nesting limit. */
  lemma LoopCheckChangesOnlyReason(r: Resolver, lim: Limits, req: Request)
    requires CaseInsensitive(r) && LoopFound(Run(r, lim, req).0)
    ensures var e := EnvOf(r, lim, req).(detect := false);
            var o := Check(e, e.req.domain, [], START).0;
            OutOfLimits(o) && o.result == PermError
  {
    var e := EnvOf(r, lim, req);
    var e' := e.(detect := false);
    LoopDiverges(r, lim, req);
    UncutIsRef(e', e.req.domain, [], START);
    RefIgnoresDetect(e, e.req.domain, Room(e, 0) + 1);
    NoLoopUndetected(e', e.req.domain, [], START);
  }

  lemma {:induction false} RefIgnoresDetect(e: Env, domain: string, fuel: nat)
    ensures Ref(e.(detect := false), domain, fuel) == Ref(e, domain, fuel)
    decreases fuel, 1, 0
  {
    if fuel > 0 && ValidInitialDomain(domain) {
      match Fetch(e.r, domain) {
        case One(Parsed(rec)) => RefTermsIgnoreDetect(e, domain, rec, 0, fuel);
        case _ =>
      }
    }
  }

  lemma {:induction false} RefTermsIgnoreDetect(e: Env, domain: string, rec: Record, i: nat, fuel: nat)
    requires i <= |rec.terms| && fuel > 0
    ensures RefTerms(e.(detect := false), domain, rec, i, fuel) == RefTerms(e, domain, rec, i, fuel)
    decreases fuel, 0, |rec.terms| - i + 1
  {
    hide Target, ProbeOf, RefTarget;
    var e' := e.(detect := false);
    if i == |rec.terms| {
      if rec.redirect.Some? {
        RefTargetIgnoresDetect(e, domain, rec.redirect.value, fuel);
      }
    } else {
      var t := rec.terms[i];
      RefTermsIgnoreDetect(e, domain, rec, i + 1, fuel);
      if t.name.Include? {
        RefTargetIgnoresDetect(e, domain, t, fuel);
      }
      TargetIgnoresDetect(e, domain, t);
    }
  }

  lemma TargetIgnoresDetect(e: Env, domain: string, t: Term)
    ensures Target(e.(detect := false), domain, t) == Target(e, domain, t)
  {
    hide ExpandSpec, PMacro;
  }

  lemma {:induction false} RefTargetIgnoresDetect(e: Env, domain: string, t: Term, fuel: nat)
    requires fuel > 0
    ensures RefTarget(e.(detect := false), domain, t, fuel) == RefTarget(e, domain, t, fuel)
    decreases fuel, 0, 0
  {
    assert Target(e.(detect := false), domain, t) == Target(e, domain, t);
    RefIgnoresDetect(e, Target(e, domain, t), fuel - 1);
  }
}
