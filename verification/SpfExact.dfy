/** The static lookup count is attained: a client whom nothing matches before "all" makes
    exactly as many DNS-querying terms as the analysis counts (internal/spf/analyze.go). */
module SpfExact {
  import opened Ascii
  import opened Spf
  import opened SpfEval
  import opened SpfLimits
  import opened SpfAnalyze
  import opened SpfSoundness

  // ---------------------------------------------------------------- clients whom nothing matches

  /** What a record gives a client whom nothing matches before "all"; last is the result of
      the target of its redirect. */
  function ResultFrom(rec: Record, i: nat, last: Result): Result
    requires i <= |rec.terms|
    decreases |rec.terms| - i
  {
    if i == |rec.terms| then (if rec.redirect.Some? then last else Neutral)
    else if rec.terms[i].name.All? then rec.terms[i].qualifier.Result()
    else ResultFrom(rec, i + 1, last)
  }

  /** The same for a node; the redirect, if it is followed, is its last child. */
  function NodeResult(n: Node): Result
    decreases n
  {
    if n.record.None? then PermError
    else ResultFrom(n.record.value, 0, if n.children == [] then Neutral else NodeResult(n.children[|n.children| - 1]))
  }

  /** The term is looked up without a match, a void answer or an error. */
  predicate Misses(e: Env, s: string, t: Term) {
    var target := Target(e, s, t);
    !TooManyMX(e.r, e.lim.maxMX, t, target) && ProbeOf(e.r, e.req.ip, e.lim.maxPTR, t, target).Miss?
  }

  /** Every mechanism before "all" misses, apart from the includes. */
  predicate AllMiss(e: Env, s: string, rec: Record, i: nat)
    requires i <= |rec.terms|
    decreases |rec.terms| - i
  {
    i == |rec.terms|
    || rec.terms[i].name.All?
    || ((rec.terms[i].Modifier() || rec.terms[i].name.Include? || Misses(e, s, rec.terms[i])) && AllMiss(e, s, rec, i + 1))
  }

  /** No included record gives Pass; the children are the followed terms from the i-th on. */
  predicate NonePass(rec: Record, i: nat, children: seq<Node>)
    requires i <= |rec.terms|
  {
    var terms := FollowedFrom(rec, i);
    |children| == |terms|
    && forall k :: 0 <= k < |terms| && terms[k].name.Include? ==> !NodeResult(children[k]).Pass?
  }

  /** A tree without dynamic, failed or looping nodes, in which nothing matches the client
      before "all" and no included record passes. */
  predicate Quiet(e: Env, n: Node)
    decreases n
  {
    && !n.dynamic && !n.error && !n.loop && n.record.Some?
    && AllMiss(e, n.domain, n.record.value, 0)
    && NonePass(n.record.value, 0, n.children)
    && forall c :: c in n.children ==> Quiet(e, c)
  }

  ghost predicate QuietTally(e: Env, s: string, rec: Record, i: nat, t: Tally)
    requires i <= |rec.terms|
  {
    AllMiss(e, s, rec, i) && NonePass(rec, i, t.children) && SameNames(e, s, rec, i)
    && forall c :: c in t.children ==> Quiet(e, c) && Static(c, e.req)
  }

  function LastResult(children: seq<Node>): Result {
    if children == [] then Neutral else NodeResult(children[|children| - 1])
  }

  // ---------------------------------------------------------------- one run against the tree

  /** A quiet child is the walk of a record that the evaluator goes on to evaluate. */
  lemma QuietIsFollowed(e: Env, d: string, stack: seq<string>, t: Term, s: string, lower: seq<string>, nodes: nat)
    requires Setting(e, d, stack, s, lower) && (!IsDynamic(t) ==> SameName(e.req, s, t))
    requires Quiet(e, Follow(e.r, e.lim, t, s, lower, nodes).0)
    ensures var target, ltarget := Target(e, d, t), StaticTarget(s, t);
            && EqualFold(target, ltarget) && ValidInitialDomain(target) && !OnStack(stack + [d], target)
            && |lower| <= e.lim.maxDepth && |stack| < e.lim.maxDepth
            && Fetch(e.r, target) == Fetch(e.r, ltarget) && Fetch(e.r, target).One? && Fetch(e.r, target).view.Parsed?
            && Follow(e.r, e.lim, t, s, lower, nodes) == Walk(e.r, e.lim, ltarget, Fetch(e.r, target).view, lower, nodes + 1)
  {
    var target, ltarget := Target(e, d, t), StaticTarget(s, t);
    TargetsAgree(e, d, s, t);
    LowerIdempotent(target);
    FoldValidInitialDomain(target, ltarget);
    MirrorsOnStack(lower, stack + [d], target);
    assert EqualFold(target, ltarget) && e.r.txt(target) == e.r.txt(ltarget);
    if |lower| <= e.lim.maxDepth && Fetch(e.r, ltarget).One? {
      UnreadableFails(e.r, e.lim, ltarget, Fetch(e.r, ltarget).view, lower, nodes + 1);
    }
  }

  lemma UnreadableFails(r: Resolver, lim: Limits, domain: string, view: SpfView, stack: seq<string>, nodes: nat)
    requires |stack| <= lim.maxDepth
    ensures !view.Parsed? ==> Walk(r, lim, domain, view, stack, nodes).0.error
  {
    hide WalkTerms;
  }

  /** Nothing matches a term under one spelling of the domain that does not under the other. */
  lemma MissesAlike(e: Env, d: string, s: string, t: Term)
    requires CaseInsensitive(e.r) && EqualFold(d, s)
    ensures Misses(e, d, t) == Misses(e, s, t)
  {
    hide Target, ProbeOf;
    FoldTarget(e, d, s, t);
    FoldProbe(e, t, Target(e, d, t), Target(e, s, t));
    assert e.r.mx(Target(e, d, t)) == e.r.mx(Target(e, s, t));
  }

  lemma {:induction false} DescendExact(
      e: Env, d: string, stack: seq<string>, t: Term, st: State, s: string, lower: seq<string>, nodes: nat)
    requires Setting(e, d, stack, s, lower) && (!IsDynamic(t) ==> SameName(e.req, s, t))
    requires Quiet(e, Follow(e.r, e.lim, t, s, lower, nodes).0) && Static(Follow(e.r, e.lim, t, s, lower, nodes).0, e.req)
    requires st.lookups + Follow(e.r, e.lim, t, s, lower, nodes).0.total <= e.lim.maxLookups
    ensures var (o, st') := Descend(e, d, stack, t, st);
            var n := Follow(e.r, e.lim, t, s, lower, nodes).0;
            o == Done(NodeResult(n)) && st'.lookups == st.lookups + n.total
    decreases Room(e, |stack|), 0, 0, 0
  {
    hide Target, StaticTarget, ValidInitialDomain, OnStack, Walk, Terms, Quiet, Static, NodeResult, Follow, Fetch,
         CaseInsensitive, SameName, IsDynamic, TouchTerm;
    QuietIsFollowed(e, d, stack, t, s, lower, nodes);
    var target, st1 := Target(e, d, t), TouchTerm(e, d, t, st);
    TouchLookups(e, d, t, st);
    var rec := Fetch(e.r, target).view.record;
    RecordExact(e, target, stack + [d], rec, st1.(queries := st1.queries + 1), StaticTarget(s, t), lower, nodes + 1);
  }

  /** The record of d against the node made for it. */
  lemma {:induction false} RecordExact(
      e: Env, d: string, stack: seq<string>, rec: Record, st: State, s: string, lower: seq<string>, nodes: nat)
    requires Setting(e, d, stack, s, lower + [Lower(s)]) && |lower| == |stack|
    requires var n := Walk(e.r, e.lim, s, Parsed(rec), lower, nodes).0;
             Quiet(e, n) && Static(n, e.req) && st.lookups + n.total <= e.lim.maxLookups
    ensures var (o, st') := Terms(e, d, stack, rec, 0, st);
            var n := Walk(e.r, e.lim, s, Parsed(rec), lower, nodes).0;
            o == Done(NodeResult(n)) && st'.lookups == st.lookups + n.total
    decreases Room(e, |stack|), 2, 0, 0
  {
    TermsExact(e, d, stack, rec, 0, st, s, lower + [Lower(s)], nodes);
  }

  lemma {:induction false} TermsExact(
      e: Env, d: string, stack: seq<string>, rec: Record, i: nat, st: State, s: string, lower: seq<string>, nodes: nat)
    requires Setting(e, d, stack, s, lower) && i <= |rec.terms|
    requires QuietTally(e, s, rec, i, WalkTerms(e.r, e.lim, s, rec, i, lower, nodes))
    requires st.lookups + Counted(e, s, rec, i, lower, nodes) <= e.lim.maxLookups
    ensures var (o, st') := Terms(e, d, stack, rec, i, st);
            var w := WalkTerms(e.r, e.lim, s, rec, i, lower, nodes);
            o == Done(ResultFrom(rec, i, LastResult(w.children)))
            && st'.lookups == st.lookups + Counted(e, s, rec, i, lower, nodes)
    decreases Room(e, |stack|), 1, |rec.terms| - i, 1
  {
    if i == |rec.terms| {
      RedirectExact(e, d, stack, rec, st, s, lower, nodes);
    } else if rec.terms[i].name.Include? {
      IncludeExact(e, d, stack, rec, i, st, s, lower, nodes);
    } else {
      PlainExact(e, d, stack, rec, i, st, s, lower, nodes);
    }
  }

  lemma {:induction false} PlainExact(
      e: Env, d: string, stack: seq<string>, rec: Record, i: nat, st: State, s: string, lower: seq<string>, nodes: nat)
    requires Setting(e, d, stack, s, lower) && i < |rec.terms| && !rec.terms[i].name.Include?
    requires QuietTally(e, s, rec, i, WalkTerms(e.r, e.lim, s, rec, i, lower, nodes))
    requires st.lookups + Counted(e, s, rec, i, lower, nodes) <= e.lim.maxLookups
    ensures var (o, st') := Terms(e, d, stack, rec, i, st);
            var w := WalkTerms(e.r, e.lim, s, rec, i, lower, nodes);
            o == Done(ResultFrom(rec, i, LastResult(w.children)))
            && st'.lookups == st.lookups + Counted(e, s, rec, i, lower, nodes)
    decreases Room(e, |stack|), 1, |rec.terms| - i, 0
  {
    hide Walk, Quiet, Static, NodeResult, Target, SameName;
    var t := rec.terms[i];
    if t.name.All? {
      AllMatches(e, d, stack, rec, i, st);
    } else {
      SkipPlain(e, rec, i, s, lower, nodes);
      if t.Modifier() {
        TermsExact(e, d, stack, rec, i + 1, st, s, lower, nodes);
      } else {
        MissesAlike(e, d, s, t);
        PlainMisses(e, d, stack, rec, i, st);
        TermsExact(e, d, stack, rec, i + 1, Match(e, d, stack, t, st).1, s, lower, nodes);
      }
    }
  }

  lemma AllMatches(e: Env, d: string, stack: seq<string>, rec: Record, i: nat, st: State)
    requires i < |rec.terms| && rec.terms[i].name.All? && |stack| <= e.lim.maxDepth
    ensures var (o, st') := Terms(e, d, stack, rec, i, st);
            o == Done(rec.terms[i].qualifier.Result()) && st'.lookups == st.lookups
  {
    TermsLookups(e, d, stack, rec, i, st);
    MatchLookups(e, d, stack, rec.terms[i], st);
    hide Descend, Target, TouchTerm;
  }

  lemma PlainMisses(e: Env, d: string, stack: seq<string>, rec: Record, i: nat, st: State)
    requires i < |rec.terms| && |stack| <= e.lim.maxDepth && Misses(e, d, rec.terms[i])
    requires var t := rec.terms[i];
             !t.Modifier() && !t.name.Include? && !t.name.All? && (t.CountsLookup() ==> !CountFails(e, st))
    ensures var t := rec.terms[i];
            var (step, st1) := Match(e, d, stack, t, st);
            step.Unmatched? && st1.lookups == st.lookups + (if t.CountsLookup() then 1 else 0)
            && Terms(e, d, stack, rec, i, st) == Terms(e, d, stack, rec, i + 1, st1)
  {
    MatchLookups(e, d, stack, rec.terms[i], st);
    hide Descend, Target, TouchTerm, TooManyMX, MatchAddrs, SamePrefix, LookupAddrs, PtrValidated, MxProbe;
    if rec.terms[i].name.IP4? || rec.terms[i].name.IP6? {
      TargetsOfNetworks(e, d, rec.terms[i]);
    }
  }

  /** A network is looked at without a target. */
  lemma TargetsOfNetworks(e: Env, d: string, t: Term)
    requires t.name.IP4? || t.name.IP6?
    ensures ProbeOf(e.r, e.req.ip, e.lim.maxPTR, t, Target(e, d, t)) == ProbeOf(e.r, e.req.ip, e.lim.maxPTR, t, d)
  {
  }

  lemma {:induction false} RedirectExact(
      e: Env, d: string, stack: seq<string>, rec: Record, st: State, s: string, lower: seq<string>, nodes: nat)
    requires Setting(e, d, stack, s, lower)
    requires QuietTally(e, s, rec, |rec.terms|, WalkTerms(e.r, e.lim, s, rec, |rec.terms|, lower, nodes))
    requires st.lookups + Counted(e, s, rec, |rec.terms|, lower, nodes) <= e.lim.maxLookups
    ensures var (o, st') := Terms(e, d, stack, rec, |rec.terms|, st);
            var w := WalkTerms(e.r, e.lim, s, rec, |rec.terms|, lower, nodes);
            o == Done(ResultFrom(rec, |rec.terms|, LastResult(w.children)))
            && st'.lookups == st.lookups + Counted(e, s, rec, |rec.terms|, lower, nodes)
    decreases Room(e, |stack|), 1, 0, 0
  {
    hide Walk, Quiet, Static, SameName, Descend, Follow, NodeResult, IsDynamic, Terms, Mirrors, CaseInsensitive;
    TermsDone(e, d, stack, rec, st);
    if rec.redirect.Some? {
      var t := rec.redirect.value;
      var child := Follow(e.r, e.lim, t, s, lower, nodes).0;
      OnlyRedirect(e, rec, s, lower, nodes);
      DescendExact(e, d, stack, t, Count(e, st), s, lower, nodes);
      QuietResult(e, child);
    }
  }

  lemma TermsDone(e: Env, d: string, stack: seq<string>, rec: Record, st: State)
    requires |stack| <= e.lim.maxDepth
    ensures Terms(e, d, stack, rec, |rec.terms|, st) == Finish(e, d, stack, rec, st)
  {
  }

  lemma OnlyRedirect(e: Env, rec: Record, s: string, lower: seq<string>, nodes: nat)
    requires rec.redirect.Some?
    requires QuietTally(e, s, rec, |rec.terms|, WalkTerms(e.r, e.lim, s, rec, |rec.terms|, lower, nodes))
    ensures var t := rec.redirect.value;
            var child := Follow(e.r, e.lim, t, s, lower, nodes).0;
            && WalkTerms(e.r, e.lim, s, rec, |rec.terms|, lower, nodes).children == [child]
            && Quiet(e, child) && Static(child, e.req) && (!IsDynamic(t) ==> SameName(e.req, s, t))
            && Counted(e, s, rec, |rec.terms|, lower, nodes) == 1 + child.total
  {
    hide Quiet, Static, SameName, Follow, NodeResult, IsDynamic;
    var t := rec.redirect.value;
    assert t in FollowedFrom(rec, |rec.terms|);
    var children := WalkTerms(e.r, e.lim, s, rec, |rec.terms|, lower, nodes).children;
    assert children[0] in children && children[1..] == [];
    assert SumTotals(children) == children[0].total + SumTotals([]);
  }

  /** A quiet node has a result other than None. */
  lemma {:induction false} QuietResult(e: Env, n: Node)
    requires Quiet(e, n)
    ensures NodeResult(n) in {Pass, Fail, SoftFail, Neutral}
    decreases n
  {
    var rec := n.record.value;
    if n.children != [] {
      QuietResult(e, n.children[|n.children| - 1]);
    }
    DefiniteFrom(rec, 0, LastResult(n.children));
  }

  lemma {:induction false} DefiniteFrom(rec: Record, i: nat, last: Result)
    requires i <= |rec.terms| && last in {Pass, Fail, SoftFail, Neutral}
    ensures ResultFrom(rec, i, last) in {Pass, Fail, SoftFail, Neutral}
    decreases |rec.terms| - i
  {
    if i < |rec.terms| {
      DefiniteFrom(rec, i + 1, last);
    }
  }

  /** Where no term is followed, the last child does not matter. */
  lemma {:induction false} NothingFollowed(rec: Record, i: nat, a: Result, b: Result)
    requires i <= |rec.terms| && FollowedFrom(rec, i) == []
    ensures ResultFrom(rec, i, a) == ResultFrom(rec, i, b)
    decreases |rec.terms| - i
  {
    if i < |rec.terms| && !rec.terms[i].name.All? {
      NothingFollowed(rec, i + 1, a, b);
    }
  }

  lemma {:induction false} IncludeExact(
      e: Env, d: string, stack: seq<string>, rec: Record, i: nat, st: State, s: string, lower: seq<string>, nodes: nat)
    requires Setting(e, d, stack, s, lower) && i < |rec.terms| && rec.terms[i].name.Include?
    requires QuietTally(e, s, rec, i, WalkTerms(e.r, e.lim, s, rec, i, lower, nodes))
    requires st.lookups + Counted(e, s, rec, i, lower, nodes) <= e.lim.maxLookups
    ensures var (o, st') := Terms(e, d, stack, rec, i, st);
            var w := WalkTerms(e.r, e.lim, s, rec, i, lower, nodes);
            o == Done(ResultFrom(rec, i, LastResult(w.children)))
            && st'.lookups == st.lookups + Counted(e, s, rec, i, lower, nodes)
    decreases Room(e, |stack|), 1, |rec.terms| - i, 0
  {
    hide SameName, StaticTarget, Target, Walk, Terms, IsDynamic, Match, Descend, Quiet, Static, NodeResult;
    var t := rec.terms[i];
    var (child, nodes1) := Follow(e.r, e.lim, t, s, lower, nodes);
    SplitQuiet(e, rec, i, s, lower, nodes);
    DescendExact(e, d, stack, t, Count(e, st), s, lower, nodes);
    QuietResult(e, child);
    IncludeUnmatched(e, d, stack, rec, i, st, NodeResult(child));
    TermsExact(e, d, stack, rec, i + 1, Match(e, d, stack, t, st).1, s, lower, nodes1);
  }

  lemma IncludeUnmatched(e: Env, d: string, stack: seq<string>, rec: Record, i: nat, st: State, result: Result)
    requires i < |rec.terms| && rec.terms[i].name.Include? && |stack| <= e.lim.maxDepth && !CountFails(e, st)
    requires Descend(e, d, stack, rec.terms[i], Count(e, st)).0 == Done(result) && result in {Fail, SoftFail, Neutral}
    ensures var (step, st1) := Match(e, d, stack, rec.terms[i], st);
            step.Unmatched? && st1 == Descend(e, d, stack, rec.terms[i], Count(e, st)).1
            && Terms(e, d, stack, rec, i, st) == Terms(e, d, stack, rec, i + 1, st1)
  {
    hide Descend;
  }

  /** The node of an include and the terms after it. */
  lemma SplitQuiet(e: Env, rec: Record, i: nat, s: string, lower: seq<string>, nodes: nat)
    requires i < |rec.terms| && rec.terms[i].name.Include?
    requires QuietTally(e, s, rec, i, WalkTerms(e.r, e.lim, s, rec, i, lower, nodes))
    ensures var t := rec.terms[i];
            var (child, nodes1) := Follow(e.r, e.lim, t, s, lower, nodes);
            var w, rest := WalkTerms(e.r, e.lim, s, rec, i, lower, nodes), WalkTerms(e.r, e.lim, s, rec, i + 1, lower, nodes1);
            && Quiet(e, child) && Static(child, e.req) && !NodeResult(child).Pass? && (!IsDynamic(t) ==> SameName(e.req, s, t))
            && QuietTally(e, s, rec, i + 1, rest)
            && Counted(e, s, rec, i, lower, nodes) == 1 + child.total + Counted(e, s, rec, i + 1, lower, nodes1)
            && ResultFrom(rec, i, LastResult(w.children)) == ResultFrom(rec, i + 1, LastResult(rest.children))
  {
    hide SameName, StaticTarget, Follow, IsDynamic, Quiet, Static, NodeResult, WalkTerms, Counted, FollowedFrom,
         NonePass, LastResult, ResultFrom, SameNames;
    var t := rec.terms[i];
    var (child, nodes1) := Follow(e.r, e.lim, t, s, lower, nodes);
    var rest := WalkTerms(e.r, e.lim, s, rec, i + 1, lower, nodes1);
    SplitTally(e, rec, i, s, lower, nodes);
    SplitChildren(e, s, rec, i, child, rest.children);
    assert ([child] + rest.children)[0] == child;
  }

  /** The same for the lists of terms and children. */
  lemma SplitChildren(e: Env, s: string, rec: Record, i: nat, child: Node, rest: seq<Node>)
    requires i < |rec.terms| && rec.terms[i].name.Include?
    requires FollowedFrom(rec, i) == [rec.terms[i]] + FollowedFrom(rec, i + 1)
    requires NonePass(rec, i, [child] + rest) && SameNames(e, s, rec, i)
    ensures !NodeResult(child).Pass? && NonePass(rec, i + 1, rest) && SameNames(e, s, rec, i + 1)
    ensures !IsDynamic(rec.terms[i]) ==> SameName(e.req, s, rec.terms[i])
    ensures ResultFrom(rec, i, LastResult([child] + rest)) == ResultFrom(rec, i + 1, LastResult(rest))
  {
    hide SameName, SameNames, IsDynamic, NodeResult, FollowedFrom, NonePass, ResultFrom, LastResult;
    TailPasses(rec, i, child, rest);
    SameLength(rec, i + 1, rest);
    TailNames(e, s, rec, i);
    TailResult(rec, i, child, rest);
  }

  lemma SameLength(rec: Record, i: nat, children: seq<Node>)
    requires i <= |rec.terms| && NonePass(rec, i, children)
    ensures |children| == |FollowedFrom(rec, i)|
  {
    hide FollowedFrom, NodeResult;
  }

  lemma TailPasses(rec: Record, i: nat, child: Node, rest: seq<Node>)
    requires i < |rec.terms| && rec.terms[i].name.Include?
    requires FollowedFrom(rec, i) == [rec.terms[i]] + FollowedFrom(rec, i + 1) && NonePass(rec, i, [child] + rest)
    ensures !NodeResult(child).Pass? && NonePass(rec, i + 1, rest)
  {
    hide NodeResult, FollowedFrom;
    var all, terms, more := [child] + rest, FollowedFrom(rec, i), FollowedFrom(rec, i + 1);
    assert terms[0] == rec.terms[i] && all[0] == child;
    forall k | 0 <= k < |more| && more[k].name.Include?
      ensures !NodeResult(rest[k]).Pass?
    {
      assert terms[k + 1] == more[k] && all[k + 1] == rest[k];
    }
  }

  lemma TailNames(e: Env, s: string, rec: Record, i: nat)
    requires i < |rec.terms| && FollowedFrom(rec, i) == [rec.terms[i]] + FollowedFrom(rec, i + 1) && SameNames(e, s, rec, i)
    ensures SameNames(e, s, rec, i + 1) && (!IsDynamic(rec.terms[i]) ==> SameName(e.req, s, rec.terms[i]))
  {
    hide SameName, IsDynamic, FollowedFrom;
    assert rec.terms[i] in FollowedFrom(rec, i);
  }

  lemma TailResult(rec: Record, i: nat, child: Node, rest: seq<Node>)
    requires i < |rec.terms| && rec.terms[i].name.Include? && |rest| == |FollowedFrom(rec, i + 1)|
    ensures ResultFrom(rec, i, LastResult([child] + rest)) == ResultFrom(rec, i + 1, LastResult(rest))
  {
    hide NodeResult, FollowedFrom;
    if rest == [] {
      NothingFollowed(rec, i + 1, LastResult([child] + rest), LastResult(rest));
    } else {
      assert ([child] + rest)[|rest|] == rest[|rest| - 1];
    }
  }

  lemma SplitTally(e: Env, rec: Record, i: nat, s: string, lower: seq<string>, nodes: nat)
    requires i < |rec.terms| && rec.terms[i].name.Include?
    ensures var t := rec.terms[i];
            var (child, nodes1) := Follow(e.r, e.lim, t, s, lower, nodes);
            var w, rest := WalkTerms(e.r, e.lim, s, rec, i, lower, nodes), WalkTerms(e.r, e.lim, s, rec, i + 1, lower, nodes1);
            && w.children == [child] + rest.children && FollowedFrom(rec, i) == [t] + FollowedFrom(rec, i + 1)
            && Counted(e, s, rec, i, lower, nodes) == 1 + child.total + Counted(e, s, rec, i + 1, lower, nodes1)
  {
    hide Follow, StaticTarget;
    var t := rec.terms[i];
    var (child, nodes1) := Follow(e.r, e.lim, t, s, lower, nodes);
    var rest := WalkTerms(e.r, e.lim, s, rec, i + 1, lower, nodes1);
    var w := WalkTerms(e.r, e.lim, s, rec, i, lower, nodes);
    assert w == Combine(Tally(1, [child], nodes), rest);
    SumConcat([child], rest.children);
    SumOne(child);
  }

  lemma SumOne(child: Node)
    ensures SumTotals([child]) == child.total
  {
    assert [child][1..] == [];
  }

  // ---------------------------------------------------------------- nodes without a record

  /** Every node without a record is marked as failed or as dynamic, and counts nothing. */
  predicate Reported(n: Node)
    decreases n
  {
    && (n.record.None? <==> n.error || n.dynamic) && (n.loop ==> n.error)
    && (n.record.None? ==> n.total == 0 && n.children == [])
    && (n.record.Some? ==> n.total == n.lookups + SumTotals(n.children))
    && forall c :: c in n.children ==> Reported(c)
  }

  lemma {:induction false} WalkReported(
      r: Resolver, lim: Limits, domain: string, view: SpfView, stack: seq<string>, nodes: nat)
    requires |stack| <= lim.maxDepth
    ensures Reported(Walk(r, lim, domain, view, stack, nodes).0)
    decreases Left(lim, |stack|), 0, 0
  {
    if view.Parsed? {
      TermsReported(r, lim, domain, view.record, 0, stack + [Lower(domain)], nodes);
    }
  }

  lemma {:induction false} TermsReported(
      r: Resolver, lim: Limits, domain: string, rec: Record, i: nat, stack: seq<string>, nodes: nat)
    requires i <= |rec.terms|
    ensures forall c :: c in WalkTerms(r, lim, domain, rec, i, stack, nodes).children ==> Reported(c)
    decreases Left(lim, |stack|), 2, |rec.terms| - i
  {
    hide Reported, Follow;
    if i == |rec.terms| {
      if rec.redirect.Some? {
        FollowReported(r, lim, rec.redirect.value, domain, stack, nodes);
      }
    } else {
      var t := rec.terms[i];
      if t.name.Include? {
        FollowReported(r, lim, t, domain, stack, nodes);
        TermsReported(r, lim, domain, rec, i + 1, stack, Follow(r, lim, t, domain, stack, nodes).1);
      } else if !t.name.All? {
        TermsReported(r, lim, domain, rec, i + 1, stack, nodes);
      }
    }
  }

  lemma {:induction false} FollowReported(
      r: Resolver, lim: Limits, t: Term, domain: string, stack: seq<string>, nodes: nat)
    ensures Reported(Follow(r, lim, t, domain, stack, nodes).0)
    decreases Left(lim, |stack|), 1, 0
  {
    hide Walk, IsDynamic, ValidInitialDomain;
    var target := StaticTarget(domain, t);
    if !IsDynamic(t) && target !in stack && |stack| <= lim.maxDepth && nodes < MAX_NODES && ValidInitialDomain(target) {
      match Fetch(r, target) {
        case One(view) => WalkReported(r, lim, target, view, stack, nodes + 1);
        case _ =>
      }
    }
  }

  // ---------------------------------------------------------------- the theorem

  /** For a client whom nothing matches before "all", whom no included record passes, and who
      is sent to the names that were followed, the run counts exactly the total of the
      analysis, if the limit allows for it; and its result can be read off the tree. */
  lemma StaticCountIsAttained(r: Resolver, lim: Limits, req: Request)
    requires CaseInsensitive(r) && ValidInitialDomain(Normalized(req).domain)
    requires var a := Analyze(r, lim, InitialDomain(req));
             && a.tree.Some? && a.total <= Effective(lim).maxLookups
             && Static(a.tree.value, Normalized(req)) && Quiet(EnvOf(r, lim, req), a.tree.value)
    ensures var a := Analyze(r, lim, InitialDomain(req));
            Run(r, lim, req).1.lookups == a.total && Run(r, lim, req).0 == Done(NodeResult(a.tree.value))
  {
    hide Terms, Walk, Static, Quiet, NodeResult, ValidInitialDomain, CaseInsensitive, Normalized;
    var e := EnvOf(r, lim, req);
    var d := e.req.domain;
    RootDomain(req);
    QuietHasRecord(e, Analyze(r, lim, InitialDomain(req)).tree.value);
    match Fetch(r, d) {
      case One(view) => RootExact(e, d, view);
      case _ =>
    }
  }

  lemma QuietHasRecord(e: Env, n: Node)
    requires Quiet(e, n)
    ensures n.record.Some? && !n.error
  {
  }

  lemma RootExact(e: Env, d: string, view: SpfView)
    requires CaseInsensitive(e.r) && e.detect
    requires var root := Walk(e.r, e.lim, d, view, [], 0).0;
             Quiet(e, root) && Static(root, e.req) && root.total <= e.lim.maxLookups
    ensures view.Parsed?
    ensures var root := Walk(e.r, e.lim, d, view, [], 0).0;
            var (o, st) := Terms(e, d, [], view.record, 0, START.(queries := 1));
            o == Done(NodeResult(root)) && st.lookups == root.total
  {
    hide Terms, Static, CaseInsensitive, NodeResult, WalkTerms;
    QuietHasRecord(e, Walk(e.r, e.lim, d, view, [], 0).0);
    hide Quiet;
    assert [] + [Lower(d)] == [Lower(d)] && [] + [d] == [d];
    RecordExact(e, d, [], view.record, START.(queries := 1), d, [], 0);
  }
}
