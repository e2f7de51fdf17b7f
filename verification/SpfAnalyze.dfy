/** The static analysis of a domain's SPF policy (internal/spf/analyze.go): every
    include and redirect is followed, without a client, to count the lookups a
    receiver may need. */
module SpfAnalyze {
  import opened Wrappers
  import opened Ascii
  import opened Names
  import opened Macro
  import opened Spf

  const MAX_NODES := 64

  const DYNAMIC_LETTERS := "slopih"

  predicate IsDynamic(t: Term) {
    t.spec.Some? && exists tok :: tok in t.spec.value && tok.Expand? && tok.letter in DYNAMIC_LETTERS
  }

  /** A record in the dependency tree. total includes all descendants. */
  datatype Node = Node(
    domain: string, record: Option<Record>, lookups: nat, total: nat,
    error: bool, loop: bool, dynamic: bool, children: seq<Node>)

  function Leaf(domain: string, error: bool, loop: bool, dynamic: bool): Node {
    Node(domain, None, 0, 0, error, loop, dynamic, [])
  }

  function SumTotals(children: seq<Node>): nat {
    if children == [] then 0 else children[0].total + SumTotals(children[1..])
  }

  /** Without a client only the d macro has its value; v is taken for an IPv6 client. */
  function StaticContext(domain: string): Context {
    Context(V6(seq(16, _ => 0)), "", domain, "", "", "", "")
  }

  /** What a term makes of domain, when it asks for no p macro. */
  function TargetIn(mc: Context, domain: string, t: Term): string {
    match t.spec
    case None => domain
    case Some(m) => TruncateDomain(ExpandSpec(m, mc, "unknown"))
  }

  function StaticTarget(domain: string, t: Term): string {
    Lower(TargetIn(StaticContext(domain), domain, t))
  }

  /** Lookups and children found from some term on, and the node count after them. */
  datatype Tally = Tally(lookups: nat, children: seq<Node>, nodes: nat)

  function Left(lim: Limits, depth: nat): nat {
    if depth > lim.maxDepth then 0 else lim.maxDepth - depth + 1
  }

  /** The node of domain; stack holds the domains above it. */
  function Walk(r: Resolver, lim: Limits, domain: string, view: SpfView, stack: seq<string>, nodes: nat): (Node, nat)
    requires |stack| <= lim.maxDepth
    decreases Left(lim, |stack|), 0, 0
  {
    if !view.Parsed? then (Leaf(domain, true, false, false), nodes)
    else
      var t := WalkTerms(r, lim, domain, view.record, 0, stack + [Lower(domain)], nodes);
      (Node(domain, Some(view.record), t.lookups, t.lookups + SumTotals(t.children), false, false, false, t.children),
       t.nodes)
  }

  /** The terms of a record from the i-th on: those after "all" never count, and redirect
      counts only without it. */
  function WalkTerms(r: Resolver, lim: Limits, domain: string, rec: Record, i: nat, stack: seq<string>, nodes: nat): Tally
    requires i <= |rec.terms|
    decreases Left(lim, |stack|), 2, |rec.terms| - i
  {
    if i == |rec.terms| then
      if rec.redirect.None? then Tally(0, [], nodes)
      else
        var (child, nodes1) := Follow(r, lim, rec.redirect.value, domain, stack, nodes);
        Tally(1, [child], nodes1)
    else
      var t := rec.terms[i];
      if t.Modifier() then WalkTerms(r, lim, domain, rec, i + 1, stack, nodes)
      else if t.name.All? then Tally(0, [], nodes)
      else if t.name.Include? then
        var (child, nodes1) := Follow(r, lim, t, domain, stack, nodes);
        Combine(Tally(1, [child], nodes), WalkTerms(r, lim, domain, rec, i + 1, stack, nodes1))
      else
        Combine(Tally(if t.CountsLookup() then 1 else 0, [], nodes), WalkTerms(r, lim, domain, rec, i + 1, stack, nodes))
  }

  function Combine(a: Tally, b: Tally): Tally {
    Tally(a.lookups + b.lookups, a.children + b.children, b.nodes)
  }

  /** Taking one more term into what has been found so far. */
  lemma CombineStep(acc: Tally, r: Resolver, lim: Limits, domain: string, rec: Record, i: nat, stack: seq<string>)
    requires i < |rec.terms| && !rec.terms[i].Modifier()
    ensures var t := rec.terms[i];
            Combine(acc, WalkTerms(r, lim, domain, rec, i, stack, acc.nodes)) ==
              if t.name.All? then acc
              else if t.name.Include? then
                var (child, nodes) := Follow(r, lim, t, domain, stack, acc.nodes);
                Combine(Tally(acc.lookups + 1, acc.children + [child], nodes),
                        WalkTerms(r, lim, domain, rec, i + 1, stack, nodes))
              else
                Combine(Tally(acc.lookups + (if t.CountsLookup() then 1 else 0), acc.children, acc.nodes),
                        WalkTerms(r, lim, domain, rec, i + 1, stack, acc.nodes))
  {
    var t := rec.terms[i];
    if t.name.All? {
      assert acc.children + [] == acc.children;
    } else if t.name.Include? {
      var (child, nodes) := Follow(r, lim, t, domain, stack, acc.nodes);
      var rest := WalkTerms(r, lim, domain, rec, i + 1, stack, nodes);
      assert acc.children + ([child] + rest.children) == acc.children + [child] + rest.children;
    } else {
      var rest := WalkTerms(r, lim, domain, rec, i + 1, stack, acc.nodes);
      assert [] + rest.children == rest.children;
    }
  }

  /** A modifier among the terms is passed over. */
  lemma CombineSkip(acc: Tally, r: Resolver, lim: Limits, domain: string, rec: Record, i: nat, stack: seq<string>)
    requires i < |rec.terms| && rec.terms[i].Modifier()
    ensures Combine(acc, WalkTerms(r, lim, domain, rec, i, stack, acc.nodes))
         == Combine(acc, WalkTerms(r, lim, domain, rec, i + 1, stack, acc.nodes))
  {
    hide Follow;
  }

  /** After the last term comes the redirect. */
  lemma CombineLast(acc: Tally, r: Resolver, lim: Limits, domain: string, rec: Record, stack: seq<string>)
    ensures Combine(acc, WalkTerms(r, lim, domain, rec, |rec.terms|, stack, acc.nodes)) ==
            if rec.redirect.None? then acc
            else
              var (child, nodes) := Follow(r, lim, rec.redirect.value, domain, stack, acc.nodes);
              Tally(acc.lookups + 1, acc.children + [child], nodes)
  {
    hide Follow;
    assert acc.children + [] == acc.children;
  }

  lemma CombineFirst(t: Tally)
    ensures Combine(Tally(0, [], t.nodes), t) == t
  {
    assert [] + t.children == t.children;
  }

  /** The node of the target of an include or redirect. */
  function Follow(r: Resolver, lim: Limits, t: Term, domain: string, stack: seq<string>, nodes: nat): (Node, nat)
    decreases Left(lim, |stack|), 1, 0
  {
    var target := StaticTarget(domain, t);
    if IsDynamic(t) then (Leaf("", false, false, true), nodes)
    else if target in stack then (Leaf(target, true, true, false), nodes)
    else if |stack| > lim.maxDepth || nodes >= MAX_NODES then (Leaf(target, true, false, false), nodes)
    else if !ValidInitialDomain(target) then (Leaf(target, true, false, false), nodes + 1)
    else
      match Fetch(r, target)
      case One(view) => Walk(r, lim, target, view, stack, nodes + 1)
      case _ => (Leaf(target, true, false, false), nodes + 1)
  }

  datatype Analysis = Analysis(tree: Option<Node>, total: nat)

  /** The analysis of domain; no tree when there is no single record to walk. */
  function Analyze(r: Resolver, limits: Limits, domain: string): Analysis {
    var d := Trim(domain);
    match Fetch(r, d)
    case One(view) =>
      var node := Walk(r, Effective(limits), d, view, [], 0).0;
      Analysis(Some(node), node.total)
    case Several => Analysis(Some(Leaf(d, true, false, false)), 0)
    case _ => Analysis(None, 0)
  }

  /** The state of one analysis: the record targets fetched so far. */
  class AnalysisState {
    const r: Resolver
    const lim: Limits
    var nodes: nat

    constructor (r: Resolver, lim: Limits)
      ensures this.r == r && this.lim == lim && nodes == 0
    {
      this.r, this.lim, nodes := r, lim, 0;
    }

    method WalkRecord(domain: string, view: SpfView, stack: seq<string>) returns (node: Node)
      requires |stack| <= lim.maxDepth
      modifies this
      ensures (node, nodes) == Walk(r, lim, domain, view, stack, old(nodes))
      decreases Left(lim, |stack|), 0
    {
      if !view.Parsed? {
        return Leaf(domain, true, false, false);
      }
      var rec := view.record;
      var below := stack + [Lower(domain)];
      var lookups, children, allSeen := 0, [], false;
      ghost var full := WalkTerms(r, lim, domain, rec, 0, below, nodes);
      CombineFirst(full);
      hide Walk, WalkTerms, Combine, Follow, SumTotals;
      for i := 0 to |rec.terms|
        invariant full == if allSeen then Tally(lookups, children, nodes)
                          else Combine(Tally(lookups, children, nodes), WalkTerms(r, lim, domain, rec, i, below, nodes))
      {
        var t := rec.terms[i];
        if t.Modifier() {
          CombineSkip(Tally(lookups, children, nodes), r, lim, domain, rec, i, below);
        } else if !allSeen {
          CombineStep(Tally(lookups, children, nodes), r, lim, domain, rec, i, below);
          if t.CountsLookup() {
            lookups := lookups + 1;
          }
          if t.name.All? {
            allSeen := true;
          } else if t.name.Include? {
            var child := FollowTerm(t, domain, below);
            children := children + [child];
          }
        }
      }
      CombineLast(Tally(lookups, children, nodes), r, lim, domain, rec, below);
      if rec.redirect.Some? && !allSeen {
        lookups := lookups + 1;
        var child := FollowTerm(rec.redirect.value, domain, below);
        children := children + [child];
      }
      assert full == Tally(lookups, children, nodes);
      var total := TotalOf(lookups, children);
      node := Node(domain, Some(rec), lookups, total, false, false, false, children);
    }

    method TotalOf(lookups: nat, children: seq<Node>) returns (total: nat)
      ensures total == lookups + SumTotals(children)
    {
      total := lookups;
      for i := 0 to |children|
        invariant total + SumTotals(children[i..]) == lookups + SumTotals(children)
      {
        total := total + children[i].total;
      }
    }

    method FollowTerm(t: Term, domain: string, stack: seq<string>) returns (node: Node)
      modifies this
      ensures (node, nodes) == Follow(r, lim, t, domain, stack, old(nodes))
      decreases Left(lim, |stack|), 1
    {
      if IsDynamic(t) {
        return Leaf("", false, false, true);
      }
      var target := StaticTarget(domain, t);
      for i := 0 to |stack|
        invariant target !in stack[..i]
      {
        if stack[i] == target {
          return Leaf(target, true, true, false);
        }
      }
      assert stack[..|stack|] == stack;
      if |stack| > lim.maxDepth || nodes >= MAX_NODES {
        return Leaf(target, true, false, false);
      }
      nodes := nodes + 1;
      if !ValidInitialDomain(target) {
        return Leaf(target, true, false, false);
      }
      var fetched := Fetch(r, target);
      match fetched {
        case One(view) => node := WalkRecord(target, view, stack);
        case _ => node := Leaf(target, true, false, false);
      }
    }
  }

  method AnalyzeDomain(r: Resolver, limits: Limits, domain: string) returns (res: Analysis)
    ensures res == Analyze(r, limits, domain)
  {
    var lim := if limits == Limits(0, 0, 0, 0, 0) then DEFAULT_LIMITS else limits;
    var d := Trim(domain);
    var fetched := Fetch(r, d);
    match fetched {
      case One(view) =>
        var st := new AnalysisState(r, lim);
        var node := st.WalkRecord(d, view, []);
        res := Analysis(Some(node), node.total);
      case Several => res := Analysis(Some(Leaf(d, true, false, false)), 0);
      case _ => res := Analysis(None, 0);
    }
  }
}
