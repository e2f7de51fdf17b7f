/** Why StaticCountBoundsEveryRun asks about the v macro: the analyzer does not treat it
    as dynamic, although its value depends on the client's address family. */
module SpfVMacro {
  import opened Wrappers
  import opened Ascii
  import opened Names
  import opened Macro
  import opened Spf
  import opened SpfEval
  import opened SpfAnalyze
  import opened SpfSoundness
  import MacroParse

  const ANY: Addr := V4([192, 0, 2, 1])

  function Mechanism(name: Name, spec: Option<DomainSpec>): Term {
    Term(name, Qualifier.Plus, spec, ANY, 0, -1, -1)
  }

  function TextOf(rec: Record): Answer<Txt> {
    Data([Txt(Parsed(rec), None)])
  }

  /** "v=spf1 include:m" */
  function Root(m: DomainSpec): Record {
    Record([Mechanism(Include, Some(m))], None, None)
  }

  /** "v=spf1 a" */
  const COUNTED := Record([Mechanism(A, None)], None, None)

  /** The record of d includes m, x has a record of its own, and nothing else exists. */
  function ZoneText(d: string, x: string, m: DomainSpec, name: string): Answer<Txt> {
    if EqualFold(name, d) then TextOf(Root(m)) else if EqualFold(name, x) then TextOf(COUNTED) else Data([])
  }

  function Zone(d: string, x: string, m: DomainSpec): Resolver {
    Resolver(name => ZoneText(d, x, m, name), _ => Data([]), _ => Data([]), _ => Data([]), _ => Data([]))
  }

  lemma ZoneIsCaseInsensitive(d: string, x: string, m: DomainSpec)
    ensures CaseInsensitive(Zone(d, x, m))
  {
  }

  /** Both records are found, and nothing under any other name. */
  lemma ZoneFetches(d: string, x: string, m: DomainSpec, name: string)
    requires !EqualFold(x, d)
    ensures Fetch(Zone(d, x, m), name) ==
            if EqualFold(name, d) then One(Parsed(Root(m)))
            else if EqualFold(name, x) then One(Parsed(COUNTED)) else NoRecord
  {
    var rec := if EqualFold(name, d) then Root(m) else COUNTED;
    var txts := [Txt(Parsed(rec), None)];
    assert txts[1..] == [] && SpfTexts(txts[1..]) == [];
  }

  /** The name the client is sent to. */
  function ClientName(req: Request, m: DomainSpec): string {
    var d := Normalized(req).domain;
    TargetIn(ContextOf(Normalized(req), d), d, Mechanism(Include, Some(m)))
  }

  /** The name the analyzer follows. */
  function AnalyzedName(req: Request, m: DomainSpec): string {
    StaticTarget(Normalized(req).domain, Mechanism(Include, Some(m)))
  }

  /** The client is sent to another name than the analyzer is, and both start from a domain. */
  ghost predicate Diverges(req: Request, m: DomainSpec) {
    var d, x := Normalized(req).domain, ClientName(req, m);
    && ValidInitialDomain(d) && Lower(d) == d && ValidInitialDomain(x) && !EqualFold(x, d)
    && !EqualFold(x, AnalyzedName(req, m))
    && !IsDynamic(Mechanism(Include, Some(m)))
  }

  // ---------------------------------------------------------------- the analysis

  lemma StaticChild(req: Request, lim: Limits, m: DomainSpec)
    requires Diverges(req, m) && lim.maxDepth > 0
    ensures var d := Normalized(req).domain;
            var (leaf, _) := Follow(Zone(d, ClientName(req, m), m), lim, Mechanism(Include, Some(m)), d, [d], 0);
            leaf.total == 0 && leaf.record.None? && !leaf.dynamic && leaf.children == []
  {
    hide ClientName, IsDynamic, ValidInitialDomain, StaticTarget, Zone, Walk, Fetch;
    var d, target := Normalized(req).domain, AnalyzedName(req, m);
    AnalyzedIsLower(req, m);
    ZoneFetches(d, ClientName(req, m), m, target);
    assert EqualFold(target, ClientName(req, m)) ==> EqualFold(ClientName(req, m), target);
  }

  lemma AnalyzedIsLower(req: Request, m: DomainSpec)
    ensures Lower(AnalyzedName(req, m)) == AnalyzedName(req, m)
  {
    hide ExpandSpec, TruncateDomain;
    var name := TruncateDomain(ExpandSpec(m, StaticContext(Normalized(req).domain), "unknown"));
    LowerIdempotent(name);
  }

  lemma StaticPart(req: Request, lim: Limits, m: DomainSpec)
    requires Diverges(req, m) && Effective(lim).maxDepth > 0
    ensures var d := Normalized(req).domain;
            var a := Analyze(Zone(d, ClientName(req, m), m), lim, InitialDomain(req));
            a.tree.Some? && a.total == 1 && !a.tree.value.dynamic
            && forall c :: c in a.tree.value.children ==> !c.dynamic && c.record.None?
  {
    hide Follow, Zone, ClientName, IsDynamic, ValidInitialDomain, Fetch, StaticTarget;
    var d := Normalized(req).domain;
    var r, t, l := Zone(d, ClientName(req, m), m), Mechanism(Include, Some(m)), Effective(lim);
    assert d == Trim(InitialDomain(req));
    ZoneFetches(d, ClientName(req, m), m, d);
    StaticChild(req, l, m);
    var (leaf, nodes) := Follow(r, l, t, d, [d], 0);
    assert [] + [Lower(d)] == [d] && [leaf] + [] == [leaf] && [leaf][1..] == [];
    assert WalkTerms(r, l, d, Root(m), 1, [d], nodes) == Tally(0, [], nodes);
    assert WalkTerms(r, l, d, Root(m), 0, [d], 0) == Tally(1, [leaf], nodes);
    assert SumTotals([leaf]) == 0;
  }

  // ---------------------------------------------------------------- the run

  /** The record of the client's name counts one more term. */
  lemma CountedRun(e: Env, x: string, stack: seq<string>, st: State)
    requires Fetch(e.r, x) == One(Parsed(COUNTED)) && ValidInitialDomain(x) && !OnStack(stack, x)
    requires |stack| <= e.lim.maxDepth
    ensures Check(e, x, stack, st).1.lookups == st.lookups + 1
  {
    hide ValidInitialDomain, Fetch, OnStack, Match;
    var st1 := st.(queries := st.queries + 1);
    TermsLookups(e, x, stack, COUNTED, 0, st1);
    MatchLookups(e, x, stack, COUNTED.terms[0], st1);
    var st2 := Match(e, x, stack, COUNTED.terms[0], st1).1;
    assert Terms(e, x, stack, COUNTED, 1, st2) == Finish(e, x, stack, COUNTED, st2);
  }

  /** The record of d counts its include and whatever its target counts. */
  lemma RootRun(e: Env, d: string, m: DomainSpec, st: State)
    requires Fetch(e.r, d) == One(Parsed(Root(m))) && ValidInitialDomain(d) && !CountFails(e, st)
    ensures var t := Root(m).terms[0];
            Check(e, d, [], st).1.lookups
              == Descend(e, d, [], t, Count(e, st.(queries := st.queries + 1))).1.lookups
  {
    hide ValidInitialDomain, Fetch, Match, Descend;
    var rec, st1 := Root(m), st.(queries := st.queries + 1);
    TermsLookups(e, d, [], rec, 0, st1);
    MatchLookups(e, d, [], rec.terms[0], st1);
    var st2 := Match(e, d, [], rec.terms[0], st1).1;
    assert Terms(e, d, [], rec, 1, st2) == Finish(e, d, [], rec, st2);
  }

  lemma NameOfClient(e: Env, req: Request, m: DomainSpec)
    requires e.req == Normalized(req) && e.r.ptr(e.req.ip) == Data([])
    ensures Target(e, e.req.domain, Mechanism(Include, Some(m))) == ClientName(req, m)
  {
    hide ExpandSpec, TruncateDomain;
    NoNames(e, e.req.domain);
  }

  lemma NoNames(e: Env, d: string)
    requires e.r.ptr(e.req.ip) == Data([])
    ensures PValue(e, d) == "unknown"
  {
  }

  lemma DynamicPart(req: Request, lim: Limits, m: DomainSpec)
    requires Diverges(req, m) && Effective(lim).maxDepth > 0 && Effective(lim).maxLookups > 0
    ensures Run(Zone(Normalized(req).domain, ClientName(req, m), m), lim, req).1.lookups == 2
  {
    hide ClientName, IsDynamic, ValidInitialDomain, Fetch, Check, AnalyzedName, Target, Normalized;
    var d, x := Normalized(req).domain, ClientName(req, m);
    var e, t := EnvOf(Zone(d, x, m), lim, req), Mechanism(Include, Some(m));
    ZoneFetches(d, x, m, d);
    ZoneFetches(d, x, m, x);
    NameOfClient(e, req, m);
    RootRun(e, d, m, START);
    var st := TouchTerm(e, d, t, Count(e, START.(queries := 1)));
    TouchLookups(e, d, t, Count(e, START.(queries := 1)));
    assert [] + [d] == [d];
    NotOnStack(d, x);
    CountedRun(e, x, [d], st);
  }

  lemma NotOnStack(d: string, x: string)
    requires !EqualFold(x, d)
    ensures !OnStack([d], x)
  {
  }

  // ---------------------------------------------------------------- the theorem

  /** Whenever a domain-spec without dynamic letters takes a client to another valid name than
      the one the analyzer follows, some case-insensitive resolver has a policy for which the
      analysis, without a dynamic node, counts one term and the run of that client counts
      two. Only the v macro can have that effect, and only for IPv4 clients. */
  lemma DivergingNamesBreakTheBound(req: Request, lim: Limits, m: DomainSpec)
    requires Diverges(req, m) && Effective(lim).maxDepth > 0 && Effective(lim).maxLookups > 0
    ensures var r := Zone(Normalized(req).domain, ClientName(req, m), m);
            var a := Analyze(r, lim, InitialDomain(req));
            && CaseInsensitive(r)
            && a.tree.Some? && !a.tree.value.dynamic && (forall c :: c in a.tree.value.children ==> !c.dynamic)
            && a.total == 1 && Run(r, lim, req).1.lookups == 2
    ensures Unmap(req.ip).V4? && UsesV(Mechanism(Include, Some(m)))
  {
    hide Zone, Analyze, Run, CaseInsensitive, Diverges, ClientName, Normalized, UsesV, Unmap;
    ZoneIsCaseInsensitive(Normalized(req).domain, ClientName(req, m), m);
    StaticPart(req, lim, m);
    DynamicPart(req, lim, m);
    OnlyTheFamily(req, m);
  }

  lemma OnlyTheFamily(req: Request, m: DomainSpec)
    requires Diverges(req, m)
    ensures Unmap(req.ip).V4? && UsesV(Mechanism(Include, Some(m)))
  {
    hide ClientName, AnalyzedName, UsesV, IsDynamic, ValidInitialDomain, Normalized;
    if !(Unmap(req.ip).V4? && UsesV(Mechanism(Include, Some(m)))) {
      NamesAgree(req, m);
    }
  }

  /** Without a v macro, or for an IPv6 client, the two names are the same up to letter case. */
  lemma NamesAgree(req: Request, m: DomainSpec)
    requires !IsDynamic(Mechanism(Include, Some(m)))
    requires Unmap(req.ip).V4? ==> !UsesV(Mechanism(Include, Some(m)))
    ensures EqualFold(ClientName(req, m), AnalyzedName(req, m))
  {
    UnmappedTwice(req);
    hide IsDynamic, UsesV, StaticTarget, Normalized, Unmap;
    SameWithoutV(Normalized(req), Normalized(req).domain, Mechanism(Include, Some(m)));
  }

  lemma UnmappedTwice(req: Request)
    ensures Normalized(req).ip == Unmap(req.ip) == Unmap(Normalized(req).ip)
  {
  }

  // ---------------------------------------------------------------- an example

  /** "%{v}.t" */
  const FAMILY_SPEC: DomainSpec := [Expand('v', false, 0, false, ""), Literal(".t")]

  const REQUEST := Request(ANY, "", "", "d.t", "", "", "")

  ghost predicate OneOf(s: string) {
    s == "d.t" || s == "in-addr.t" || s == "ip6.t"
  }

  lemma TwoLabels(head: string, s: string)
    requires s == head + ".t" && ValidLabel(head) && '.' !in head && Lower(head) == head
    ensures TrimDot(s) == s && Lower(s) == s && '.' in s && |s| == |head| + 2
    ensures Split(s, ".") == [head, "t"]
  {
    assert s == head + ['.'] + "t";
    SplitPrefix(head, '.', "t", ".");
    SplitPlain("t", ".");
    LowerConcat(head, ".t");
    assert s[|head|] == '.';
  }

  lemma HeadOf(s: string) returns (head: string)
    requires OneOf(s)
    ensures s == head + ".t" && ValidLabel(head) && '.' !in head && Lower(head) == head && |head| <= 7
  {
    head := if s == "d.t" then "d" else if s == "in-addr.t" then "in-addr" else "ip6";
  }

  lemma LabelsOf(s: string)
    requires OneOf(s)
    ensures Lower(s) == s && TrimDot(s) == s && ValidInitialDomain(s)
    ensures DropLabels(s) == s
  {
    hide Split, TrimDot, Lower, OneOf;
    var head := HeadOf(s);
    TwoLabels(head, s);
    assert ValidLabel("t");
  }

  lemma SpecExpansions(mc: Context, p: string)
    ensures ExpandSpec(FAMILY_SPEC, mc, p) == if Unmap(mc.ip).V4? then "in-addr.t" else "ip6.t"
  {
    var v: Token := Expand('v', false, 0, false, "");
    var dot: Token := Literal(".t");
    var front := Piece(v, mc, p);
    assert front == if Unmap(mc.ip).V4? then "in-addr" else "ip6";
    assert Piece(dot, mc, p) == ".t";
    assert [v, dot][1..] == [dot] && [dot][1..] == [];
    assert "" + front == front;
    assert ExpandFrom([v, dot], mc, p, "") == ExpandFrom([dot], mc, p, front);
    assert ExpandFrom([dot], mc, p, front) == ExpandFrom([], mc, p, front + ".t");
    assert "in-addr" + ".t" == "in-addr.t" && "ip6" + ".t" == "ip6.t";
  }

  lemma ExampleRequest()
    ensures Normalized(REQUEST).domain == "d.t" && Normalized(REQUEST).ip == ANY
  {
    LabelsOf("d.t");
    hide ValidInitialDomain, DropLabels, TrimDot;
    assert InitialDomain(REQUEST) == "d.t" && Trim("d.t") == "d.t";
  }

  lemma ExampleClient()
    ensures ClientName(REQUEST, FAMILY_SPEC) == "in-addr.t"
  {
    ExampleRequest();
    LabelsOf("in-addr.t");
    hide ValidInitialDomain, DropLabels, TrimDot, ExpandSpec, Normalized;
    SpecExpansions(ContextOf(Normalized(REQUEST), "d.t"), "unknown");
  }

  lemma ExampleAnalyzed()
    ensures AnalyzedName(REQUEST, FAMILY_SPEC) == "ip6.t"
  {
    ExampleRequest();
    LabelsOf("ip6.t");
    NoFamilyKnown("d.t");
    hide ValidInitialDomain, DropLabels, TrimDot, ExpandSpec, Normalized, StaticContext, Unmap;
    SpecExpansions(StaticContext("d.t"), "unknown");
  }

  lemma NoFamilyKnown(d: string)
    ensures Unmap(StaticContext(d).ip).V6?
  {
    assert StaticContext(d).ip.b[10] == 0;
  }

  lemma FamilySpecIsStatic()
    ensures !IsDynamic(Mechanism(Include, Some(FAMILY_SPEC)))
  {
  }

  lemma NamesDiffer()
    ensures !EqualFold("in-addr.t", "d.t") && !EqualFold("in-addr.t", "ip6.t")
  {
    assert |Lower("in-addr.t")| == 9 && |Lower("d.t")| == 3 && |Lower("ip6.t")| == 5;
  }

  /** "v=spf1 include:%{v}.t" is such a policy for an IPv4 client. */
  lemma VMacroBreaksTheBound()
    ensures Diverges(REQUEST, FAMILY_SPEC)
    ensures var r := Zone("d.t", "in-addr.t", FAMILY_SPEC);
            var a := Analyze(r, DEFAULT_LIMITS, InitialDomain(REQUEST));
            && CaseInsensitive(r)
            && a.tree.Some? && !a.tree.value.dynamic && (forall c :: c in a.tree.value.children ==> !c.dynamic)
            && Run(r, DEFAULT_LIMITS, REQUEST).1.lookups > a.total
  {
    ExampleRequest();
    ExampleClient();
    ExampleAnalyzed();
    FamilySpecIsStatic();
    LabelsOf("d.t");
    LabelsOf("in-addr.t");
    NamesDiffer();
    hide Analyze, Run, Zone, CaseInsensitive, Normalized, ClientName, AnalyzedName, IsDynamic, ValidInitialDomain,
         EqualFold, TrimDot, DropLabels, Lower;
    DivergingNamesBreakTheBound(REQUEST, DEFAULT_LIMITS, FAMILY_SPEC);
  }

  /** It is what the record parser makes of that text. */
  lemma FamilySpecIsParsed()
    ensures MacroParse.DomainSpecOf("%{v}.t") == Some(FAMILY_SPEC)
  {
    FamilySpecIsCanonical();
    PrintedFamilySpec();
    MacroParse.CanonicalIsParsed(FAMILY_SPEC, false);
    EndsInT();
    hide MacroParse.Parse, MacroParse.TopLabel, MacroParse.TextEnd, MacroParse.Print;
  }

  lemma FamilySpecIsCanonical()
    ensures MacroParse.Canonical(FAMILY_SPEC, false)
  {
    var dot: Token := Literal(".t");
    assert FAMILY_SPEC[1..] == [dot] && [dot][1..] == [];
    assert MacroParse.Canonical([dot], false);
  }

  lemma EndsInT()
    ensures MacroParse.TextEnd(".t") == Some("t") && MacroParse.TopLabel("t")
  {
    assert ".t" == "" + "." + "t";
    assert IsAlpha("t"[0]);
    MacroParse.TextEndIs(".t", "", "t");
  }

  lemma PrintedFamilySpec()
    ensures MacroParse.Print(FAMILY_SPEC) == "%{v}.t"
  {
    var v: Token, dot: Token := Expand('v', false, 0, false, ""), Literal(".t");
    assert ".t"[1..] == "t" && "t"[1..] == "";
    assert MacroParse.PrintText("t") == "t";
    assert MacroParse.PrintText(".t") == "." + "t";
    assert FAMILY_SPEC[1..] == [dot] && [dot][1..] == [];
    assert MacroParse.Print([dot]) == MacroParse.PrintToken(dot) + "";
    assert MacroParse.PrintToken(v) == "%{v}";
    assert MacroParse.Print(FAMILY_SPEC) == MacroParse.PrintToken(v) + MacroParse.Print([dot]);
  }
}
