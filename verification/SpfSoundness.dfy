/** The static lookup count against every run of check_host(). */
module SpfSoundness {
  import opened Ascii
  import opened Names
  import opened Macro
  import opened Spf
  import opened SpfEval
  import opened SpfBounds
  import opened SpfAnalyze

  // ---------------------------------------------------------------- trees that can be trusted

  predicate UsesV(t: Term) {
    t.spec.Some? && exists tok :: tok in t.spec.value && tok.Expand? && tok.letter == 'v'
  }

  /** The includes before "all", and the redirect when there is no "all". */
  function FollowedFrom(rec: Record, i: nat): seq<Term>
    requires i <= |rec.terms|
    decreases |rec.terms| - i
  {
    if i == |rec.terms| then (if rec.redirect.Some? then [rec.redirect.value] else [])
    else
      var t := rec.terms[i];
      if t.name.All? then []
      else if t.name.Include? then [t] + FollowedFrom(rec, i + 1)
      else FollowedFrom(rec, i + 1)
  }

  /** The client is sent to the name that the analyzer follows. */
  predicate SameName(req: Request, s: string, t: Term) {
    EqualFold(TargetIn(ContextOf(req, s), s, t), StaticTarget(s, t))
  }

  /** No node was left unfollowed because its name depends on the message, and the names that
      were followed are those of this client. */
  predicate Static(n: Node, req: Request)
    decreases n
  {
    && !n.dynamic
    && (n.record.Some? ==> forall t :: t in FollowedFrom(n.record.value, 0) && !IsDynamic(t) ==> SameName(req, n.domain, t))
    && forall c :: c in n.children ==> Static(c, req)
  }

  /** The same for every client of an address family: no followed name has a v macro, which
      only matters for IPv4 clients. */
  predicate FamilyFree(n: Node, v4: bool)
    decreases n
  {
    && !n.dynamic
    && (v4 && n.record.Some? ==> forall t :: t in FollowedFrom(n.record.value, 0) ==> !UsesV(t))
    && forall c :: c in n.children ==> FamilyFree(c, v4)
  }

  lemma {:induction false} FamilyFreeIsStatic(n: Node, req: Request)
    requires FamilyFree(n, Unmap(req.ip).V4?)
    ensures Static(n, req)
    decreases n
  {
    hide SameName, UsesV, IsDynamic, Unmap;
    if n.record.Some? {
      forall t | t in FollowedFrom(n.record.value, 0) && !IsDynamic(t)
        ensures SameName(req, n.domain, t)
      {
        SameWithoutV(req, n.domain, t);
      }
    }
    forall c | c in n.children
      ensures Static(c, req)
    {
      FamilyFreeIsStatic(c, req);
    }
  }

  // ---------------------------------------------------------------- the node bound

  /** Every target fetched is the target of a term that was counted. */
  lemma {:induction false} WalkPays(
      r: Resolver, lim: Limits, domain: string, view: SpfView, stack: seq<string>, nodes: nat)
    requires |stack| <= lim.maxDepth
    ensures var (n, after) := Walk(r, lim, domain, view, stack, nodes);
            nodes <= after <= nodes + n.total
    decreases Left(lim, |stack|), 0, 0
  {
    if view.Parsed? {
      WalkTermsPay(r, lim, domain, view.record, 0, stack + [Lower(domain)], nodes);
    }
  }

  lemma {:induction false} SumConcat(a: seq<Node>, b: seq<Node>)
    ensures SumTotals(a + b) == SumTotals(a) + SumTotals(b)
  {
    if a == [] {
      assert a + b == b;
    } else {
      assert (a + b)[1..] == a[1..] + b;
      SumConcat(a[1..], b);
    }
  }

  lemma {:induction false} WalkTermsPay(
      r: Resolver, lim: Limits, domain: string, rec: Record, i: nat, stack: seq<string>, nodes: nat)
    requires i <= |rec.terms|
    ensures var t := WalkTerms(r, lim, domain, rec, i, stack, nodes);
            nodes <= t.nodes <= nodes + t.lookups + SumTotals(t.children)
    decreases Left(lim, |stack|), 2, |rec.terms| - i
  {
    if i == |rec.terms| {
      if rec.redirect.Some? {
        FollowPays(r, lim, rec.redirect.value, domain, stack, nodes);
      }
    } else {
      var t := rec.terms[i];
      if t.name.Include? {
        FollowPays(r, lim, t, domain, stack, nodes);
        var (child, nodes1) := Follow(r, lim, t, domain, stack, nodes);
        var rest := WalkTerms(r, lim, domain, rec, i + 1, stack, nodes1);
        SumConcat([child], rest.children);
        WalkTermsPay(r, lim, domain, rec, i + 1, stack, nodes1);
      } else if !t.name.All? {
        WalkTermsPay(r, lim, domain, rec, i + 1, stack, nodes);
        var rest := WalkTerms(r, lim, domain, rec, i + 1, stack, nodes);
        assert [] + rest.children == rest.children;
      }
    }
  }

  lemma {:induction false} FollowPays(
      r: Resolver, lim: Limits, t: Term, domain: string, stack: seq<string>, nodes: nat)
    ensures var (n, after) := Follow(r, lim, t, domain, stack, nodes);
            nodes <= after <= nodes + 1 + n.total
    decreases Left(lim, |stack|), 1, 0
  {
    var target := StaticTarget(domain, t);
    if !IsDynamic(t) && target !in stack && |stack| <= lim.maxDepth && nodes < MAX_NODES && ValidInitialDomain(target) {
      match Fetch(r, target) {
        case One(view) => WalkPays(r, lim, target, view, stack, nodes + 1);
        case _ =>
      }
    }
  }

  // ---------------------------------------------------------------- static and dynamic targets

  /** lower holds the names of stack in lower case. */
  ghost predicate Mirrors(lower: seq<string>, stack: seq<string>) {
    |lower| == |stack| && forall k :: 0 <= k < |stack| ==> lower[k] == Lower(stack[k])
  }

  lemma MirrorsOnStack(lower: seq<string>, stack: seq<string>, domain: string)
    requires Mirrors(lower, stack)
    ensures OnStack(stack, domain) <==> Lower(domain) in lower
  {
    if OnStack(stack, domain) {
      var d :| d in stack && EqualFold(d, domain);
      var k :| 0 <= k < |stack| && stack[k] == d;
      assert lower[k] == Lower(domain);
    }
    if Lower(domain) in lower {
      var k :| 0 <= k < |lower| && lower[k] == Lower(domain);
      assert stack[k] in stack;
    }
  }

  /** Without a v macro, or for an IPv6 client, the analyzer follows the client's name. */
  lemma SameWithoutV(req: Request, s: string, t: Term)
    requires !IsDynamic(t) && (Unmap(req.ip).V4? ==> !UsesV(t))
    ensures SameName(req, s, t)
  {
    if t.spec.Some? {
      var m, mc, mc' := t.spec.value, ContextOf(req, s), StaticContext(s);
      forall tok | tok in m
        ensures FoldValue(tok, mc, "unknown", mc', "unknown")
      {
        if tok.Expand? {
          FollowedLetters(t);
          if tok.letter == 'v' {
            assert Unmap(mc.ip).V6? && mc'.ip.b[10] == 0 && Unmap(mc'.ip).V6?;
          }
        }
      }
      FoldExpandSpec(m, mc, "unknown", mc', "unknown");
    }
    LowerIdempotent(TargetIn(StaticContext(s), s, t));
  }

  /** The terms that are followed are those whose macros are all d or v. */
  lemma FollowedLetters(t: Term)
    ensures !IsDynamic(t) <==>
              (t.spec.Some? ==> forall tok :: tok in t.spec.value && tok.Expand? ==> tok.letter == 'd' || tok.letter == 'v')
  {
    if t.spec.Some? {
      forall tok | tok in t.spec.value && tok.Expand?
        ensures tok.letter in DYNAMIC_LETTERS <==> tok.letter != 'd' && tok.letter != 'v'
      {
        assert tok.letter !in "crt" && tok.letter in LETTERS;
      }
    }
  }

  /** The analyzer's target of a term is the evaluator's, in lower case. */
  lemma TargetsAgree(e: Env, d: string, s: string, t: Term)
    requires EqualFold(d, s) && !IsDynamic(t) && SameName(e.req, s, t)
    ensures StaticTarget(s, t) == Lower(Target(e, d, t))
  {
    LowerIdempotent(TargetIn(StaticContext(s), s, t));
    if t.spec.Some? {
      var m, mc, mc' := t.spec.value, ContextOf(e.req, d), ContextOf(e.req, s);
      var p := PValue(e, d);
      forall tok | tok in m
        ensures FoldValue(tok, mc, p, mc', "unknown")
      {
        if tok.Expand? {
          FollowedLetters(t);
        }
      }
      FoldExpandSpec(m, mc, p, mc', "unknown");
    }
  }

  // ---------------------------------------------------------------- one run against the tree

  ghost predicate StaticTally(t: Tally, req: Request) {
    forall c :: c in t.children ==> Static(c, req)
  }

  /** An evaluation of domain d and an analysis of s, the same domain in some other case. */
  ghost predicate Setting(e: Env, d: string, stack: seq<string>, s: string, lower: seq<string>) {
    CaseInsensitive(e.r) && e.detect && |stack| <= e.lim.maxDepth
    && EqualFold(d, s) && Mirrors(lower, stack + [d])
  }

  ghost predicate SameNames(e: Env, s: string, rec: Record, i: nat)
    requires i <= |rec.terms|
  {
    forall t :: t in FollowedFrom(rec, i) && !IsDynamic(t) ==> SameName(e.req, s, t)
  }

  /** A target the evaluator goes on to evaluate is fetched by the analyzer too. */
  lemma FollowedAlike(
      e: Env, d: string, stack: seq<string>, t: Term, s: string, lower: seq<string>, nodes: nat)
    requires Setting(e, d, stack, s, lower)
    requires !IsDynamic(t) && SameName(e.req, s, t)
    requires Follow(e.r, e.lim, t, s, lower, nodes).1 < MAX_NODES
    ensures var target, ltarget := Target(e, d, t), StaticTarget(s, t);
            EqualFold(target, ltarget)
            && (ValidInitialDomain(target) && !OnStack(stack + [d], target) && |stack| < e.lim.maxDepth ==>
                  Fetch(e.r, target) == Fetch(e.r, ltarget) && |lower| <= e.lim.maxDepth
                  && (Fetch(e.r, ltarget).One? ==>
                        Follow(e.r, e.lim, t, s, lower, nodes)
                          == Walk(e.r, e.lim, ltarget, Fetch(e.r, ltarget).view, lower, nodes + 1)))
  {
    var target, ltarget := Target(e, d, t), StaticTarget(s, t);
    TargetsAgree(e, d, s, t);
    LowerIdempotent(target);
    FoldValidInitialDomain(target, ltarget);
    MirrorsOnStack(lower, stack + [d], target);
    FollowPays(e.r, e.lim, t, s, lower, nodes);
    assert EqualFold(target, ltarget) && e.r.txt(target) == e.r.txt(ltarget);
  }

  lemma {:induction false} DescendCounted(
      e: Env, d: string, stack: seq<string>, t: Term, st: State, s: string, lower: seq<string>, nodes: nat)
    requires Setting(e, d, stack, s, lower)
    requires Follow(e.r, e.lim, t, s, lower, nodes).1 < MAX_NODES
    requires Static(Follow(e.r, e.lim, t, s, lower, nodes).0, e.req)
    requires !IsDynamic(t) ==> SameName(e.req, s, t)
    ensures Descend(e, d, stack, t, st).1.lookups <= st.lookups + Follow(e.r, e.lim, t, s, lower, nodes).0.total
    decreases Room(e, |stack|), 0, 0, 0
  {
    hide Target, StaticTarget, ValidInitialDomain, OnStack, Walk, Terms;
    FollowedAlike(e, d, stack, t, s, lower, nodes);
    var target := Target(e, d, t);
    if ValidInitialDomain(target) && !OnStack(stack + [d], target) && |stack| < e.lim.maxDepth {
      match Fetch(e.r, target) {
        case One(Parsed(rec)) =>
          var st1 := TouchTerm(e, d, t, st);
          RecordCounted(e, target, stack + [d], rec, st1.(queries := st1.queries + 1), StaticTarget(s, t), lower, nodes + 1);
        case _ =>
      }
    }
  }

  /** The record of d against the node made for it. */
  lemma {:induction false} RecordCounted(
      e: Env, d: string, stack: seq<string>, rec: Record, st: State, s: string, lower: seq<string>, nodes: nat)
    requires Setting(e, d, stack, s, lower + [Lower(s)]) && |lower| == |stack|
    requires Walk(e.r, e.lim, s, Parsed(rec), lower, nodes).1 < MAX_NODES
    requires Static(Walk(e.r, e.lim, s, Parsed(rec), lower, nodes).0, e.req)
    ensures Terms(e, d, stack, rec, 0, st).1.lookups
         <= st.lookups + Walk(e.r, e.lim, s, Parsed(rec), lower, nodes).0.total
    decreases Room(e, |stack|), 2, 0, 0
  {
    TermsCounted(e, d, stack, rec, 0, st, s, lower + [Lower(s)], nodes);
  }

  lemma TermsLookups(e: Env, d: string, stack: seq<string>, rec: Record, i: nat, st: State)
    requires i < |rec.terms| && |stack| <= e.lim.maxDepth && !rec.terms[i].Modifier()
    ensures var (step, st1) := Match(e, d, stack, rec.terms[i], st);
            Terms(e, d, stack, rec, i, st).1.lookups
              == if step.Unmatched? then Terms(e, d, stack, rec, i + 1, st1).1.lookups else st1.lookups
  {
  }

  lemma MatchLookups(e: Env, d: string, stack: seq<string>, t: Term, st: State)
    requires |stack| <= e.lim.maxDepth
    ensures var st1 := Match(e, d, stack, t, st).1;
            if t.name.Include? && !CountFails(e, st) then st1.lookups == Descend(e, d, stack, t, Count(e, st)).1.lookups
            else st1.lookups == st.lookups + (if t.CountsLookup() then 1 else 0)
    ensures t.name.All? ==> Match(e, d, stack, t, st).0.Matched?
  {
    PlainLookups(e, d, t, if t.CountsLookup() then Count(e, st) else st);
  }

  lemma PlainLookups(e: Env, d: string, t: Term, st: State)
    ensures Plain(e, d, t, st).1.lookups == st.lookups
    ensures t.name.All? ==> Plain(e, d, t, st).0.Matched?
  {
    TouchLookups(e, d, t, st);
    var target := Target(e, d, t);
    var probe := ProbeOf(e.r, e.req.ip, e.lim.maxPTR, t, target);
    if t.name !in {All, IP4, IP6} && !TooManyMX(e.r, e.lim.maxMX, t, target) {
      match probe {
        case Hit =>
        case Miss =>
        case Void =>
        case Temp =>
      }
    }
  }

  lemma TouchLookups(e: Env, d: string, t: Term, st: State)
    ensures TouchTerm(e, d, t, st).lookups == st.lookups
  {
  }

  lemma SkipPlain(e: Env, rec: Record, i: nat, s: string, lower: seq<string>, nodes: nat)
    requires i < |rec.terms| && !rec.terms[i].name.Include? && !rec.terms[i].name.All?
    ensures var w, rest := WalkTerms(e.r, e.lim, s, rec, i, lower, nodes), WalkTerms(e.r, e.lim, s, rec, i + 1, lower, nodes);
            w.children == rest.children && w.nodes == rest.nodes
            && w.lookups == rest.lookups + (if !rec.terms[i].Modifier() && rec.terms[i].CountsLookup() then 1 else 0)
    ensures FollowedFrom(rec, i) == FollowedFrom(rec, i + 1)
  {
    var rest := WalkTerms(e.r, e.lim, s, rec, i + 1, lower, nodes);
    assert [] + rest.children == rest.children;
  }

  lemma {:induction false} TermsCounted(
      e: Env, d: string, stack: seq<string>, rec: Record, i: nat, st: State, s: string, lower: seq<string>, nodes: nat)
    requires Setting(e, d, stack, s, lower) && i <= |rec.terms| && SameNames(e, s, rec, i)
    requires WalkTerms(e.r, e.lim, s, rec, i, lower, nodes).nodes < MAX_NODES
    requires StaticTally(WalkTerms(e.r, e.lim, s, rec, i, lower, nodes), e.req)
    ensures Terms(e, d, stack, rec, i, st).1.lookups <= st.lookups + Counted(e, s, rec, i, lower, nodes)
    decreases Room(e, |stack|), 1, |rec.terms| - i, 1
  {
    if i == |rec.terms| {
      RedirectCounted(e, d, stack, rec, st, s, lower, nodes);
    } else {
      var t := rec.terms[i];
      if t.name.Include? {
        IncludeCounted(e, d, stack, rec, i, st, s, lower, nodes);
      } else {
        PlainCounted(e, d, stack, rec, i, st, s, lower, nodes);
      }
    }
  }

  lemma {:induction false} PlainCounted(
      e: Env, d: string, stack: seq<string>, rec: Record, i: nat, st: State, s: string, lower: seq<string>, nodes: nat)
    requires Setting(e, d, stack, s, lower) && i < |rec.terms| && SameNames(e, s, rec, i)
    requires !rec.terms[i].name.Include?
    requires WalkTerms(e.r, e.lim, s, rec, i, lower, nodes).nodes < MAX_NODES
    requires StaticTally(WalkTerms(e.r, e.lim, s, rec, i, lower, nodes), e.req)
    ensures Terms(e, d, stack, rec, i, st).1.lookups <= st.lookups + Counted(e, s, rec, i, lower, nodes)
    decreases Room(e, |stack|), 1, |rec.terms| - i, 0
  {
    var t := rec.terms[i];
    if t.Modifier() {
      SkipPlain(e, rec, i, s, lower, nodes);
      TermsCounted(e, d, stack, rec, i + 1, st, s, lower, nodes);
    } else {
      TermsLookups(e, d, stack, rec, i, st);
      MatchLookups(e, d, stack, t, st);
      if !t.name.All? {
        SkipPlain(e, rec, i, s, lower, nodes);
        TermsCounted(e, d, stack, rec, i + 1, Match(e, d, stack, t, st).1, s, lower, nodes);
      }
    }
  }

  /** What the analyzer counts from the i-th term on. */
  ghost function Counted(e: Env, s: string, rec: Record, i: nat, lower: seq<string>, nodes: nat): nat
    requires i <= |rec.terms|
  {
    var w := WalkTerms(e.r, e.lim, s, rec, i, lower, nodes);
    w.lookups + SumTotals(w.children)
  }

  lemma {:induction false} RedirectCounted(
      e: Env, d: string, stack: seq<string>, rec: Record, st: State, s: string, lower: seq<string>, nodes: nat)
    requires Setting(e, d, stack, s, lower) && SameNames(e, s, rec, |rec.terms|)
    requires WalkTerms(e.r, e.lim, s, rec, |rec.terms|, lower, nodes).nodes < MAX_NODES
    requires StaticTally(WalkTerms(e.r, e.lim, s, rec, |rec.terms|, lower, nodes), e.req)
    ensures Terms(e, d, stack, rec, |rec.terms|, st).1.lookups
         <= st.lookups + Counted(e, s, rec, |rec.terms|, lower, nodes)
    decreases Room(e, |stack|), 1, 0, 0
  {
    assert Terms(e, d, stack, rec, |rec.terms|, st) == Finish(e, d, stack, rec, st);
    if rec.redirect.Some? {
      var t := rec.redirect.value;
      assert t in FollowedFrom(rec, |rec.terms|);
      var w := WalkTerms(e.r, e.lim, s, rec, |rec.terms|, lower, nodes);
      assert w.children == [Follow(e.r, e.lim, t, s, lower, nodes).0] && w.children[0] in w.children;
      DescendCounted(e, d, stack, t, Count(e, st), s, lower, nodes);
    }
  }

  lemma {:induction false} IncludeCounted(
      e: Env, d: string, stack: seq<string>, rec: Record, i: nat, st: State, s: string, lower: seq<string>, nodes: nat)
    requires Setting(e, d, stack, s, lower) && i < |rec.terms| && SameNames(e, s, rec, i)
    requires rec.terms[i].name.Include?
    requires WalkTerms(e.r, e.lim, s, rec, i, lower, nodes).nodes < MAX_NODES
    requires StaticTally(WalkTerms(e.r, e.lim, s, rec, i, lower, nodes), e.req)
    ensures Terms(e, d, stack, rec, i, st).1.lookups <= st.lookups + Counted(e, s, rec, i, lower, nodes)
    decreases Room(e, |stack|), 1, |rec.terms| - i, 0
  {
    hide SameName, StaticTarget, Target, Walk, Terms, IsDynamic, Match, Descend;
    var t := rec.terms[i];
    var (child, nodes1) := Follow(e.r, e.lim, t, s, lower, nodes);
    SplitInclude(e, rec, i, s, lower, nodes);
    TermsLookups(e, d, stack, rec, i, st);
    MatchLookups(e, d, stack, t, st);
    DescendCounted(e, d, stack, t, Count(e, st), s, lower, nodes);
    TermsCounted(e, d, stack, rec, i + 1, Match(e, d, stack, t, st).1, s, lower, nodes1);
  }

  /** The node of an include and the terms after it. */
  lemma SplitInclude(e: Env, rec: Record, i: nat, s: string, lower: seq<string>, nodes: nat)
    requires i < |rec.terms| && SameNames(e, s, rec, i) && rec.terms[i].name.Include?
    requires WalkTerms(e.r, e.lim, s, rec, i, lower, nodes).nodes < MAX_NODES
    requires StaticTally(WalkTerms(e.r, e.lim, s, rec, i, lower, nodes), e.req)
    ensures var t := rec.terms[i];
            var (child, nodes1) := Follow(e.r, e.lim, t, s, lower, nodes);
            var rest := WalkTerms(e.r, e.lim, s, rec, i + 1, lower, nodes1);
            && nodes1 <= rest.nodes < MAX_NODES
            && Static(child, e.req) && StaticTally(rest, e.req)
            && (!IsDynamic(t) ==> SameName(e.req, s, t)) && SameNames(e, s, rec, i + 1)
            && Counted(e, s, rec, i, lower, nodes) == 1 + child.total + Counted(e, s, rec, i + 1, lower, nodes1)
  {
    var t := rec.terms[i];
    var (child, nodes1) := Follow(e.r, e.lim, t, s, lower, nodes);
    var rest := WalkTerms(e.r, e.lim, s, rec, i + 1, lower, nodes1);
    var w := WalkTerms(e.r, e.lim, s, rec, i, lower, nodes);
    assert w == Combine(Tally(1, [child], nodes), rest);
    SumConcat([child], rest.children);
    WalkTermsPay(e.r, e.lim, s, rec, i + 1, lower, nodes1);
    assert FollowedFrom(rec, i)[0] == t && FollowedFrom(rec, i)[1..] == FollowedFrom(rec, i + 1);
    assert w.children[0] == child && w.children[1..] == rest.children;
  }

  // ---------------------------------------------------------------- the theorem

  /** The run of a client counts at most as many DNS-querying terms as the static analysis of
      its domain, if the analysis left no name unfollowed because it depends on the message
      and followed the names of this client; or the total has reached the node bound. */
  lemma RunWithinStaticCount(r: Resolver, lim: Limits, req: Request)
    requires CaseInsensitive(r)
    requires var a := Analyze(r, lim, InitialDomain(req));
             a.tree.Some? ==> Static(a.tree.value, Normalized(req))
    ensures var a := Analyze(r, lim, InitialDomain(req));
            a.total >= 64 || Run(r, lim, req).1.lookups <= a.total
  {
    hide Terms, Walk, Static, ValidInitialDomain, CaseInsensitive, Normalized;
    var e := EnvOf(r, lim, req);
    var d := e.req.domain;
    RootDomain(req);
    match Fetch(r, d) {
      case One(view) =>
        if view.Parsed? && ValidInitialDomain(d) {
          RootCounted(e, d, view.record);
        }
      case _ =>
    }
  }

  /** No run for any client, sender or HELO counts more DNS-querying terms than the static
      analysis of its domain does, if the analysis left no name unfollowed because it
      depends on the message, the followed names do not depend on the address family
      (or the client has an IPv6 address) and the lookup limit is below the node bound. */
  lemma StaticCountBoundsEveryRun(r: Resolver, lim: Limits, req: Request)
    requires CaseInsensitive(r)
    requires Effective(lim).maxLookups < 64
    requires var a := Analyze(r, lim, InitialDomain(req));
             a.tree.Some? ==> FamilyFree(a.tree.value, Unmap(req.ip).V4?)
    ensures Run(r, lim, req).1.lookups <= Analyze(r, lim, InitialDomain(req)).total
  {
    hide Run, Analyze, FamilyFree, Static, CaseInsensitive, Normalized, Unmap;
    RunKeepsLimits(r, lim, req);
    RootDomain(req);
    var a := Analyze(r, lim, InitialDomain(req));
    if a.tree.Some? {
      FamilyFreeIsStatic(a.tree.value, Normalized(req));
    }
    RunWithinStaticCount(r, lim, req);
  }

  /** Evaluator and analyzer start from the same name. */
  lemma RootDomain(req: Request)
    ensures Normalized(req).domain == Trim(InitialDomain(req))
    ensures Normalized(req).ip == Unmap(req.ip) == Unmap(Normalized(req).ip)
  {
  }

  lemma RootCounted(e: Env, d: string, rec: Record)
    requires CaseInsensitive(e.r) && e.detect
    requires Static(Walk(e.r, e.lim, d, Parsed(rec), [], 0).0, e.req)
    ensures var root := Walk(e.r, e.lim, d, Parsed(rec), [], 0).0;
            root.total >= MAX_NODES || Terms(e, d, [], rec, 0, START.(queries := 1)).1.lookups <= root.total
  {
    hide Terms, Walk, Static, CaseInsensitive;
    WalkPays(e.r, e.lim, d, Parsed(rec), [], 0);
    if Walk(e.r, e.lim, d, Parsed(rec), [], 0).1 < MAX_NODES {
      assert [] + [Lower(d)] == [Lower(d)] && [] + [d] == [d];
      RecordCounted(e, d, [], rec, START.(queries := 1), d, [], 0);
    }
  }
}
