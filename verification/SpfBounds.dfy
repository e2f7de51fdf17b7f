/** What every run of check_host() keeps: its counters, its flags, its depth and
    the number of resolver calls (section 4.6.4 of RFC 7208). */
module SpfBounds {
  import opened Macro
  import opened Spf
  import opened SpfEval

  /** No limit has been passed and no loop found. */
  ghost predicate Fits(e: Env, st: State) {
    st.lookups <= e.lim.maxLookups && st.voids <= e.lim.maxVoids && !st.exceeded && !st.loop
  }

  /** How a run may end: each flag is raised by exactly one way of being cut short,
      and all three ways are permerror. */
  ghost predicate Ends(e: Env, o: Outcome, st: State) {
    && st.lookups <= e.lim.maxLookups + 1
    && st.voids <= e.lim.maxVoids + 1
    && (st.exceeded <==> o == Abort(PermError, OverLimit))
    && (st.loop <==> o == Abort(PermError, OnLoop))
    && (o.Abort? && o.cause in {OverLimit, OnLoop, TooDeep} ==> o.result == PermError)
    && (o.Abort? && o.cause.TooDeep? ==> e.lim.maxDepth < e.lim.maxLookups)
    && (o.Abort? ==> o.result == PermError || o.result == TempError)
    && (st.exceeded || Fits(e, st.(loop := false)))
  }

  ghost predicate StepEnds(e: Env, s: Step, st: State) {
    if s.Stop? then s.o.Abort? && Ends(e, s.o, st) else Fits(e, st)
  }

  // ---------------------------------------------------------------- resolver calls

  /** The most calls one counted term makes. */
  function TermCost(e: Env): nat {
    1 + (if e.lim.maxMX > e.lim.maxPTR then e.lim.maxMX else e.lim.maxPTR)
  }

  /** The most calls one p macro makes. */
  function NameCost(e: Env): nat {
    1 + e.lim.maxPTR
  }

  /** Counted terms that were let through. */
  function Passed(e: Env, st: State): nat {
    if st.lookups > e.lim.maxLookups then e.lim.maxLookups else st.lookups
  }

  /** Calls not yet charged to a counted term or to a resolved p macro. */
  function Uncharged(e: Env, st: State): int {
    st.queries - TermCost(e) * Passed(e, st) - NameCost(e) * |st.named|
  }

  /** Going from st to st' leaves at most k more calls uncharged, and resolves the
      p macro of at most one domain per counted term, besides that of domain. */
  ghost predicate Charged(e: Env, domain: string, st: State, st': State, k: nat) {
    && Passed(e, st) <= Passed(e, st')
    && st.lookups <= st'.lookups
    && |st'.named + {domain}| - |st.named + {domain}| <= Passed(e, st') - Passed(e, st)
    && Uncharged(e, st') <= Uncharged(e, st) + k
  }

  lemma ChargedNamed(e: Env, domain: string, asked: bool, st: State)
    ensures Charged(e, domain, st, Named(e, domain, asked, st), 0)
  {
    var st' := Named(e, domain, asked, st);
    if st' != st {
      assert st'.named == st.named + {domain};
      assert |st'.named| == |st.named| + 1;
      assert st'.named + {domain} == st.named + {domain};
      var n := |st.named|;
      assert NameCost(e) * (n + 1) == NameCost(e) * n + NameCost(e);
    }
  }

  lemma ChargedTouch(e: Env, domain: string, t: Term, st: State)
    ensures Charged(e, domain, st, TouchTerm(e, domain, t, st), 0)
  {
    if t.spec.Some? {
      ChargedNamed(e, domain, AsksForP(t.spec.value, ContextOf(e.req, domain), PValue(e, domain)), st);
    }
  }

  /** A counted term brings the calls it may make. */
  lemma CountBrings(e: Env, st: State)
    requires Fits(e, st) && !CountFails(e, st)
    ensures Fits(e, Count(e, st)) && Passed(e, Count(e, st)) == Passed(e, st) + 1
    ensures Uncharged(e, Count(e, st)) == Uncharged(e, st) - TermCost(e)
  {
    var p := Passed(e, st);
    assert TermCost(e) * (p + 1) == TermCost(e) * p + TermCost(e);
  }

  lemma UnionGrowth(a: set<string>, b: set<string>, d: string)
    requires a <= b
    ensures |b + {d}| - |a + {d}| <= |b| - |a|
    ensures |b| - |a| <= |b + {d}| - |a + {d}| + 1
  {
    if d in b {
      assert b + {d} == b;
      if d in a {
        assert a + {d} == a;
      }
    }
  }

  // ---------------------------------------------------------------- the induction

  /** Calls outside a p macro, on top of a change that was paid for. */
  lemma ChargedCalls(e: Env, domain: string, st: State, st1: State, n: nat, st2: State)
    requires Charged(e, domain, st, st1, 0)
    requires st2.lookups == st1.lookups && st2.named == st1.named && st2.queries == st1.queries + n
    ensures Charged(e, domain, st, st2, n)
  {
  }

  lemma PlainStep(e: Env, domain: string, t: Term, st: State)
    requires Fits(e, st)
    ensures var (s, st') := Plain(e, domain, t, st);
            StepEnds(e, s, st') && st.named <= st'.named && st'.lookups == st.lookups
            && Charged(e, domain, st, st', if t.CountsLookup() then TermCost(e) else 0)
  {
    if t.name !in {All, IP4, IP6} {
      var (s, st') := Plain(e, domain, t, st);
      var st1 := TouchTerm(e, domain, t, st);
      ChargedTouch(e, domain, t, st);
      var n := ProbeCost(e.r, e.req.ip, e.lim.maxMX, e.lim.maxPTR, t, Target(e, domain, t));
      ChargedCalls(e, domain, st, st1, n, st');
      PlainEnds(e, domain, t, st);
    }
  }

  /** Resolving a p macro is no lookup of a term. */
  lemma TouchKeeps(e: Env, domain: string, t: Term, st: State)
    ensures var st' := TouchTerm(e, domain, t, st);
            st' == st.(named := st'.named, queries := st'.queries)
  {
    hide AsksForP, PValue, PtrCost;
  }

  lemma PlainEnds(e: Env, domain: string, t: Term, st: State)
    requires Fits(e, st)
    ensures var (s, st') := Plain(e, domain, t, st); StepEnds(e, s, st')
  {
    TouchKeeps(e, domain, t, st);
    hide TouchTerm, Target, ProbeOf, ProbeCost, TooManyMX;
  }

  lemma {:induction false} CheckKeeps(e: Env, domain: string, stack: seq<string>, st: State)
    requires Fits(e, st) && |stack| <= st.lookups
    ensures var (o, st') := Check(e, domain, stack, st);
            Ends(e, o, st') && st.named <= st'.named && st.lookups <= st'.lookups
            && Charged(e, domain, st, st', if stack == [] then 2 else 1)
    decreases Room(e, |stack|), 2, 0
  {
    if ValidInitialDomain(domain) && !(e.detect && OnStack(stack, domain)) && |stack| <= e.lim.maxDepth {
      var st1 := st.(queries := st.queries + 1);
      match Fetch(e.r, domain) {
        case One(Parsed(rec)) => TermsKeep(e, domain, stack, rec, 0, st1);
        case _ =>
      }
    }
  }

  lemma {:induction false} TermsKeep(e: Env, domain: string, stack: seq<string>, rec: Record, i: nat, st: State)
    requires i <= |rec.terms| && |stack| <= e.lim.maxDepth
    requires Fits(e, st) && |stack| <= st.lookups
    ensures var (o, st') := Terms(e, domain, stack, rec, i, st);
            Ends(e, o, st') && st.named <= st'.named && st.lookups <= st'.lookups
            && Charged(e, domain, st, st', if stack == [] then 1 else 0)
    decreases Room(e, |stack|), 1, |rec.terms| - i
  {
    if i == |rec.terms| {
      FinishKeeps(e, domain, stack, rec, st);
    } else {
      var t := rec.terms[i];
      if t.Modifier() {
        TermsKeep(e, domain, stack, rec, i + 1, st);
      } else {
        MatchKeeps(e, domain, stack, t, st);
        var (step, st1) := Match(e, domain, stack, t, st);
        match step {
          case Stop(o) =>
          case Unmatched => TermsKeep(e, domain, stack, rec, i + 1, st1);
          case Matched => AfterMatchKeeps(e, domain, |stack|, rec, t.qualifier.Result(), st1);
        }
      }
    }
  }

  lemma AfterMatchKeeps(e: Env, domain: string, depth: nat, rec: Record, result: Result, st: State)
    requires Fits(e, st)
    ensures var st' := AfterMatch(e, domain, depth, rec, result, st);
            Fits(e, st') && st.named <= st'.named && st.lookups == st'.lookups
            && Charged(e, domain, st, st', if depth == 0 then 1 else 0)
  {
    hide Target, ExpandIn, AsksForP, PValue, ValidInitialDomain;
    if depth == 0 && result == Fail && rec.exp.Some? {
      var st1 := TouchTerm(e, domain, rec.exp.value, st);
      ChargedTouch(e, domain, rec.exp.value, st);
      var target := Target(e, domain, rec.exp.value);
      var st2 := st1.(queries := st1.queries + 1);
      match e.r.txt(target) {
        case Failed(_) =>
        case Data(txts) =>
          if |txts| == 1 && txts[0].explanation.Some? {
            var m := txts[0].explanation.value;
            ChargedNamed(e, domain, AsksForP(m, ContextOf(e.req, domain), PValue(e, domain)), st2);
          }
      }
    }
  }

  lemma {:induction false} MatchKeeps(e: Env, domain: string, stack: seq<string>, t: Term, st: State)
    requires |stack| <= e.lim.maxDepth && Fits(e, st) && |stack| <= st.lookups
    ensures var (s, st') := Match(e, domain, stack, t, st);
            StepEnds(e, s, st') && st.named <= st'.named && st.lookups <= st'.lookups
            && Charged(e, domain, st, st', 0)
    decreases Room(e, |stack|), 0, 2
  {
    if t.CountsLookup() && CountFails(e, st) {
    } else if t.CountsLookup() {
      CountBrings(e, st);
      if t.name.Include? {
        IncludeKeeps(e, domain, stack, t, st);
      } else {
        PlainStep(e, domain, t, Count(e, st));
      }
    } else {
      PlainStep(e, domain, t, st);
    }
  }

  lemma {:induction false} IncludeKeeps(e: Env, domain: string, stack: seq<string>, t: Term, st: State)
    requires |stack| <= e.lim.maxDepth && Fits(e, st) && |stack| <= st.lookups
    requires t.name.Include? && !CountFails(e, st)
    ensures var (o, st') := Descend(e, domain, stack, t, Count(e, st));
            StepEnds(e, IncludeStep(o), st') && st.named <= st'.named && st.lookups <= st'.lookups
            && Charged(e, domain, st, st', 0)
    decreases Room(e, |stack|), 0, 1
  {
    CountBrings(e, st);
    DescendKeeps(e, domain, stack, t, Count(e, st));
  }

  /** Below the top level, a run adds one call of its own and resolves the p macro of
      at most one domain more than it counts terms: its own. */
  lemma {:induction false} DescendKeeps(e: Env, domain: string, stack: seq<string>, t: Term, st: State)
    requires |stack| <= e.lim.maxDepth && Fits(e, st) && |stack| < st.lookups
    ensures var (o, st') := Descend(e, domain, stack, t, st);
            Ends(e, o, st') && st.named <= st'.named && st.lookups <= st'.lookups
            && Passed(e, st) <= Passed(e, st')
            && |st'.named + {domain}| - |st.named + {domain}| <= Passed(e, st') - Passed(e, st) + 1
            && Uncharged(e, st') <= Uncharged(e, st) + 1
    decreases Room(e, |stack|), 0, 0
  {
    var target := Target(e, domain, t);
    var st1 := TouchTerm(e, domain, t, st);
    ChargedTouch(e, domain, t, st);
    if ValidInitialDomain(target) {
      CheckKeeps(e, target, stack + [domain], st1);
      var st2 := Check(e, target, stack + [domain], st1).1;
      UnionGrowth(st1.named, st2.named, target);
      UnionGrowth(st1.named, st2.named, domain);
    }
  }

  lemma {:induction false} FinishKeeps(e: Env, domain: string, stack: seq<string>, rec: Record, st: State)
    requires |stack| <= e.lim.maxDepth && Fits(e, st) && |stack| <= st.lookups
    ensures var (o, st') := Finish(e, domain, stack, rec, st);
            Ends(e, o, st') && st.named <= st'.named && st.lookups <= st'.lookups
            && Charged(e, domain, st, st', 0)
    decreases Room(e, |stack|), 0, 1
  {
    if rec.redirect.Some? && !CountFails(e, st) {
      CountBrings(e, st);
      DescendKeeps(e, domain, stack, rec.redirect.value, Count(e, st));
    }
  }

  // ---------------------------------------------------------------- whole runs

  /** Every run ends with its counters at most one past their limits. A raised flag
      means permerror, and nothing else raises one; a run that stays within the limits
      leaves no counter above its limit. */
  lemma RunKeepsLimits(r: Resolver, lim: Limits, req: Request)
    ensures var (o, st) := Run(r, lim, req);
            var l := Effective(lim);
            && st.lookups <= l.maxLookups + 1
            && st.voids <= l.maxVoids + 1
            && (st.exceeded <==> o == Abort(PermError, OverLimit))
            && (st.loop <==> o == Abort(PermError, OnLoop))
            && (st.exceeded || st.loop ==> o.result == PermError)
            && (!st.exceeded ==> st.lookups <= l.maxLookups && st.voids <= l.maxVoids)
  {
    var e := EnvOf(r, lim, req);
    CheckKeeps(e, e.req.domain, [], START);
  }

  /** Each level of nesting costs a counted term, so the nesting bound decides nothing
      when it is at least the lookup limit, as in the defaults. */
  lemma DepthBoundIsDead(r: Resolver, lim: Limits, req: Request)
    requires Effective(lim).maxLookups <= Effective(lim).maxDepth
    ensures var o := Run(r, lim, req).0; o.Abort? ==> !o.cause.TooDeep?
  {
    var e := EnvOf(r, lim, req);
    CheckKeeps(e, e.req.domain, [], START);
  }

  /** The resolver is called at most 2 + L(1 + max(M, P)) + (1 + L)(1 + P) times in one
      run: the initial record and the explanation, the counted terms, and one p macro
      for every domain visited. */
  lemma RunQueries(r: Resolver, lim: Limits, req: Request)
    ensures var l := Effective(lim);
            var widest := if l.maxMX > l.maxPTR then l.maxMX else l.maxPTR;
            Run(r, lim, req).1.queries <= 2 + l.maxLookups * (1 + widest) + (1 + l.maxLookups) * (1 + l.maxPTR)
  {
    hide Check, Charged, Ends, Passed;
    var e := EnvOf(r, lim, req);
    var st := Check(e, e.req.domain, [], START).1;
    CheckKeeps(e, e.req.domain, [], START);
    TotalCharged(e, e.req.domain, st);
    Widest(TermCost(e), NameCost(e), Passed(e, st), |st.named|, e.lim.maxLookups);
  }

  /** What a run from the start may have cost in all. */
  lemma TotalCharged(e: Env, d: string, st: State)
    requires Charged(e, d, START, st, 2)
    ensures Passed(e, st) <= e.lim.maxLookups && |st.named| <= 1 + e.lim.maxLookups
    ensures st.queries <= 2 + TermCost(e) * Passed(e, st) + NameCost(e) * |st.named|
  {
    assert START.named + {d} == {d};
    UnionGrowth(START.named, st.named, d);
    assert TermCost(e) * 0 == 0 && NameCost(e) * 0 == 0;
  }

  lemma Widest(c: nat, d: nat, p: nat, n: nat, l: nat)
    requires p <= l && n <= 1 + l
    ensures c * p + d * n <= l * c + (1 + l) * d
  {
    assert c * p <= c * l && d * n <= d * (1 + l);
  }

  /** With the default limits, which all zeros stand for, that is 233 calls, and no more than
      the eleventh counted term and the third void lookup are reached. */
  lemma DefaultRunQueries(r: Resolver, req: Request)
    ensures var st := Run(r, Limits(0, 0, 0, 0, 0), req).1; st.queries <= 233 && st.lookups <= 11 && st.voids <= 3
  {
    RunQueries(r, Limits(0, 0, 0, 0, 0), req);
    RunKeepsLimits(r, Limits(0, 0, 0, 0, 0), req);
  }
}
