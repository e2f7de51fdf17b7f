/** Identifier alignment and the DMARC verdict on a message (internal/dmarc/alignment.go,
    evaluate.go; sections 3.1 and 6.6.2 of RFC 7489). The Public Suffix List is given from
    outside. */
module DmarcVerdict {
  import opened Ascii
  import opened Wrappers

  datatype Mode = Relaxed | Strict
  datatype Policy = NoAction | Quarantine | Reject

  // ---------------------------------------------------------------- alignment

  function TrimSpace(s: string): string {
    TrimSet(s, " \t\n\r")
  }

  function Normalize(d: string): string {
    Lower(TrimDot(TrimSpace(d)))
  }

  /** The public suffix and one label, where the list has them. */
  type SuffixList = string -> Option<string>

  function OrganizationalDomain(psl: SuffixList, d: string): string {
    var n := Normalize(d);
    if n == "" then ""
    else match psl(n)
         case None => n
         case Some(org) => org
  }

  predicate Aligned(psl: SuffixList, auth: string, from: string, mode: Mode) {
    var a, f := Normalize(auth), Normalize(from);
    a != "" && f != ""
    && (a == f || (mode.Relaxed? && OrganizationalDomain(psl, a) == OrganizationalDomain(psl, f)))
  }

  // ---------------------------------------------------------------- inputs

  datatype DkimInput = DkimInput(domain: string, result: string)

  /** spfResult is empty when SPF was not evaluated. */
  datatype Input = Input(spfResult: string, spfDomain: string, dkim: seq<DkimInput>)

  /** The policy that applies to the From domain. */
  datatype Applied = Applied(from: string, aspf: Mode, adkim: Mode, policy: Policy)

  datatype MessageResult = Pass | Fail | TempError | Indeterminate

  datatype Evaluation = Evaluation(
    result: MessageResult, spfAligned: bool, dkimAligned: bool, dkimDomain: string, disposition: Option<Policy>)

  predicate SpfAligns(psl: SuffixList, p: Applied, domain: string) {
    Aligned(psl, domain, p.from, p.aspf)
  }

  predicate DkimAligns(psl: SuffixList, p: Applied, d: DkimInput) {
    Aligned(psl, d.domain, p.from, p.adkim)
  }

  /** An input that passes, and for a domain aligned with the From domain. */
  predicate SpfCounts(psl: SuffixList, p: Applied, x: Input) {
    x.spfResult == "pass" && SpfAligns(psl, p, x.spfDomain)
  }

  predicate DkimCounts(psl: SuffixList, p: Applied, d: DkimInput) {
    d.result == "pass" && DkimAligns(psl, p, d)
  }

  // ---------------------------------------------------------------- the evaluation

  /** The i-th signature is the first that counts. */
  predicate FirstThatCounts(psl: SuffixList, p: Applied, dkim: seq<DkimInput>, i: nat) {
    i < |dkim| && DkimCounts(psl, p, dkim[i]) && forall k :: 0 <= k < i ==> !DkimCounts(psl, p, dkim[k])
  }

  method AlignedDkim(psl: SuffixList, p: Applied, dkim: seq<DkimInput>) returns (aligned: bool, domain: string)
    ensures aligned == exists d :: d in dkim && DkimCounts(psl, p, d)
    ensures aligned ==> exists i: nat :: FirstThatCounts(psl, p, dkim, i) && domain == Lower(dkim[i].domain)
  {
    hide Aligned;
    aligned, domain := false, "";
    ghost var first: nat := 0;
    for i := 0 to |dkim|
      invariant aligned ==> first < i && FirstThatCounts(psl, p, dkim, first) && domain == Lower(dkim[first].domain)
      invariant !aligned ==> forall j :: 0 <= j < i ==> !DkimCounts(psl, p, dkim[j])
    {
      var d := dkim[i];
      if d.result == "pass" && !aligned && Aligned(psl, d.domain, p.from, p.adkim) {
        aligned, domain, first := true, Lower(d.domain), i;
      }
    }
    if aligned {
      assert dkim[first] in dkim;
    }
  }

  /** Whether a temporary error, or an incomplete evaluation, stands in the way of a fail. */
  method OpenInputs(psl: SuffixList, p: Applied, x: Input) returns (temp: bool, incomplete: bool)
    ensures temp == (SpfTemp(psl, p, x) || exists d :: d in x.dkim && DkimTemp(psl, p, d))
    ensures incomplete == (x.spfResult == "" || exists d :: d in x.dkim && DkimPartial(psl, p, d))
  {
    hide Aligned;
    temp, incomplete := false, false;
    if x.spfResult == "" {
      incomplete := true;
    } else if x.spfResult == "temperror" && Aligned(psl, x.spfDomain, p.from, p.aspf) {
      temp := true;
    }
    for i := 0 to |x.dkim|
      invariant temp == (SpfTemp(psl, p, x) || exists d :: d in x.dkim[..i] && DkimTemp(psl, p, d))
      invariant incomplete == (x.spfResult == "" || exists d :: d in x.dkim[..i] && DkimPartial(psl, p, d))
    {
      var d := x.dkim[i];
      assert x.dkim[..i + 1] == x.dkim[..i] + [d];
      if Aligned(psl, d.domain, p.from, p.adkim) {
        match d.result {
          case "temperror" => temp := true;
          case "neutral" => incomplete := true;
          case _ =>
        }
      }
      assert d in x.dkim[..i + 1];
    }
    assert x.dkim[..|x.dkim|] == x.dkim;
  }

  method Evaluate(psl: SuffixList, p: Applied, x: Input) returns (ev: Evaluation)
    ensures ev.spfAligned == SpfCounts(psl, p, x)
    ensures ev.dkimAligned == exists d :: d in x.dkim && DkimCounts(psl, p, d)
    ensures ev.dkimAligned ==> exists i: nat :: FirstThatCounts(psl, p, x.dkim, i) && ev.dkimDomain == Lower(x.dkim[i].domain)
    ensures ev.result == Verdict(psl, p, x)
    ensures ev.disposition == if ev.result.Fail? then Some(p.policy) else None
  {
    hide Aligned, DkimCounts, DkimTemp, DkimPartial;
    var spfAligned := false;
    if x.spfResult == "pass" {
      spfAligned := Aligned(psl, x.spfDomain, p.from, p.aspf);
    }
    var dkimAligned, dkimDomain := AlignedDkim(psl, p, x.dkim);
    ev := Evaluation(Pass, spfAligned, dkimAligned, dkimDomain, None);
    if spfAligned || dkimAligned {
      return ev;
    }
    var temp, incomplete := OpenInputs(psl, p, x);
    if temp {
      ev := ev.(result := TempError);
    } else if incomplete {
      ev := ev.(result := Indeterminate);
    } else {
      ev := ev.(result := Fail, disposition := Some(p.policy));
    }
  }

  predicate SpfTemp(psl: SuffixList, p: Applied, x: Input) {
    x.spfResult == "temperror" && SpfAligns(psl, p, x.spfDomain)
  }

  predicate DkimTemp(psl: SuffixList, p: Applied, d: DkimInput) {
    d.result == "temperror" && DkimAligns(psl, p, d)
  }

  predicate DkimPartial(psl: SuffixList, p: Applied, d: DkimInput) {
    d.result == "neutral" && DkimAligns(psl, p, d)
  }

  function Verdict(psl: SuffixList, p: Applied, x: Input): MessageResult {
    if Passes(psl, p, x) then Pass
    else if SpfTemp(psl, p, x) || exists d :: d in x.dkim && DkimTemp(psl, p, d) then TempError
    else if x.spfResult == "" || exists d :: d in x.dkim && DkimPartial(psl, p, d) then Indeterminate
    else Fail
  }

  // ---------------------------------------------------------------- the meaning of the verdict

  /** Some identifier passes and is aligned. */
  predicate Passes(psl: SuffixList, p: Applied, x: Input) {
    SpfCounts(psl, p, x) || exists d :: d in x.dkim && DkimCounts(psl, p, d)
  }

  predicate SpfKnown(result: string) {
    result != "" && result != "temperror"
  }

  predicate DkimKnown(result: string) {
    result != "temperror" && result != "neutral"
  }

  /** c is x with every unknown input decided one way or another. SPF that was not evaluated
      may turn out to be about any domain. */
  ghost predicate Completes(x: Input, c: Input) {
    && SpfKnown(c.spfResult)
    && (x.spfResult != "" ==> c.spfDomain == x.spfDomain)
    && (SpfKnown(x.spfResult) ==> c.spfResult == x.spfResult)
    && |c.dkim| == |x.dkim|
    && forall i :: 0 <= i < |x.dkim| ==>
         && c.dkim[i].domain == x.dkim[i].domain && DkimKnown(c.dkim[i].result)
         && (DkimKnown(x.dkim[i].result) ==> c.dkim[i].result == x.dkim[i].result)
  }

  /** A completion in which whatever was only not looked at, or only partly verified, does
      not pass: just temporary errors are decided freely. */
  ghost predicate CompletesErrors(x: Input, c: Input) {
    && Completes(x, c)
    && (x.spfResult == "" ==> c.spfResult != "pass")
    && forall i :: 0 <= i < |x.dkim| && x.dkim[i].result == "neutral" ==> c.dkim[i].result != "pass"
  }

  /** x with every unknown input decided as spf and as choose says. */
  ghost function Decided(x: Input, spf: string, domain: string, choose: DkimInput -> string): Input {
    Input(if SpfKnown(x.spfResult) then x.spfResult else spf,
          if x.spfResult == "" then domain else x.spfDomain,
          seq(|x.dkim|, i requires 0 <= i < |x.dkim| =>
            if DkimKnown(x.dkim[i].result) then x.dkim[i] else DkimInput(x.dkim[i].domain, choose(x.dkim[i]))))
  }

  lemma PassStays(psl: SuffixList, p: Applied, x: Input, c: Input)
    requires Completes(x, c) && Passes(psl, p, x)
    ensures Passes(psl, p, c)
  {
    if !SpfCounts(psl, p, x) {
      var d :| d in x.dkim && DkimCounts(psl, p, d);
      var i :| 0 <= i < |x.dkim| && x.dkim[i] == d;
      assert c.dkim[i] == d && c.dkim[i] in c.dkim;
    }
  }

  /** The completion in which every unknown input fails. */
  lemma FailingCompletion(psl: SuffixList, p: Applied, x: Input) returns (c: Input)
    requires !Passes(psl, p, x)
    ensures CompletesErrors(x, c) && !Passes(psl, p, c)
  {
    c := Decided(x, "fail", "", _ => "fail");
    forall d | d in c.dkim
      ensures !DkimCounts(psl, p, d)
    {
      var i :| 0 <= i < |c.dkim| && c.dkim[i] == d;
      assert x.dkim[i] in x.dkim && !DkimCounts(psl, p, x.dkim[i]);
    }
  }

  lemma DecidedCompletes(x: Input, spf: string, domain: string, choose: DkimInput -> string)
    requires SpfKnown(spf) && forall d :: DkimKnown(choose(d))
    ensures Completes(x, Decided(x, spf, domain, choose))
  {
  }

  /** A completion in which everything open passes. */
  lemma PassingCompletion(psl: SuffixList, p: Applied, x: Input) returns (c: Input)
    requires Normalize(p.from) != "" && !Verdict(psl, p, x).Fail?
    ensures Completes(x, c) && Passes(psl, p, c)
  {
    hide Aligned, Normalize, Decided, Completes;
    var choose := (d: DkimInput) => "pass";
    c := Decided(x, "pass", p.from, choose);
    DecidedCompletes(x, "pass", p.from, choose);
    if Passes(psl, p, x) {
      PassStays(psl, p, x, c);
    } else if SpfTemp(psl, p, x) || x.spfResult == "" {
      OpenSpfPasses(psl, p, x, choose);
    } else {
      OpenDkimPasses(psl, p, x, choose);
    }
  }

  lemma OpenSpfPasses(psl: SuffixList, p: Applied, x: Input, choose: DkimInput -> string)
    requires Normalize(p.from) != "" && (SpfTemp(psl, p, x) || x.spfResult == "")
    ensures Passes(psl, p, Decided(x, "pass", p.from, choose))
  {
    SelfAligned(psl, p);
    hide Aligned;
    assert SpfCounts(psl, p, Decided(x, "pass", p.from, choose));
  }

  lemma SelfAligned(psl: SuffixList, p: Applied)
    requires Normalize(p.from) != ""
    ensures SpfAligns(psl, p, p.from)
  {
  }

  lemma OpenDkimPasses(psl: SuffixList, p: Applied, x: Input, choose: DkimInput -> string)
    requires exists d :: d in x.dkim && (DkimTemp(psl, p, d) || DkimPartial(psl, p, d))
    requires forall d :: choose(d) == "pass"
    ensures Passes(psl, p, Decided(x, "pass", p.from, choose))
  {
    hide Aligned, Passes, Decided;
    var d :| d in x.dkim && (DkimTemp(psl, p, d) || DkimPartial(psl, p, d));
    OpenPasses(psl, p, x, d, "pass", p.from, choose);
  }

  lemma OpenPasses(
    psl: SuffixList, p: Applied, x: Input, d: DkimInput, spf: string, domain: string, choose: DkimInput -> string)
    requires d in x.dkim && DkimAligns(psl, p, d) && !DkimKnown(d.result) && choose(d) == "pass"
    ensures Passes(psl, p, Decided(x, spf, domain, choose))
  {
    hide Aligned;
    var c := Decided(x, spf, domain, choose);
    var i :| 0 <= i < |x.dkim| && x.dkim[i] == d;
    assert c.dkim[i] in c.dkim && DkimCounts(psl, p, c.dkim[i]);
  }

  lemma FailStays(psl: SuffixList, p: Applied, x: Input, c: Input)
    requires Completes(x, c) && Verdict(psl, p, x).Fail?
    ensures !Passes(psl, p, c)
  {
    forall d | d in c.dkim
      ensures !DkimCounts(psl, p, d)
    {
      var i :| 0 <= i < |c.dkim| && c.dkim[i] == d;
      assert x.dkim[i] in x.dkim;
      assert !DkimCounts(psl, p, x.dkim[i]) && !DkimTemp(psl, p, x.dkim[i]) && !DkimPartial(psl, p, x.dkim[i]);
    }
  }

  lemma ErrorsStay(psl: SuffixList, p: Applied, x: Input, c: Input)
    requires CompletesErrors(x, c) && Verdict(psl, p, x).Indeterminate?
    ensures !Passes(psl, p, c)
  {
    forall d | d in c.dkim
      ensures !DkimCounts(psl, p, d)
    {
      var i :| 0 <= i < |c.dkim| && c.dkim[i] == d;
      assert x.dkim[i] in x.dkim;
      assert !DkimCounts(psl, p, x.dkim[i]) && !DkimTemp(psl, p, x.dkim[i]);
    }
  }

  lemma ErrorsCanPass(psl: SuffixList, p: Applied, x: Input) returns (c: Input)
    requires Verdict(psl, p, x).TempError?
    ensures CompletesErrors(x, c) && Passes(psl, p, c)
  {
    hide Aligned;
    var spf := if x.spfResult == "" then "fail" else "pass";
    var choose := (d: DkimInput) => if d.result == "temperror" then "pass" else "fail";
    c := Decided(x, spf, "", choose);
    assert CompletesErrors(x, c);
    if SpfTemp(psl, p, x) {
      assert SpfCounts(psl, p, c);
    } else {
      var d :| d in x.dkim && DkimTemp(psl, p, d);
      OpenPasses(psl, p, x, d, spf, "", choose);
    }
  }

  /** The verdict is exact whatever is unknown: pass if and only if every way of deciding
      the unknown inputs passes, fail if and only if none does, and one of the two open
      verdicts if and only if some do and some do not. Of these it is temperror if and only
      if deciding the temporary errors alone could make it a pass. */
  lemma VerdictIsExact(psl: SuffixList, p: Applied, x: Input)
    requires Normalize(p.from) != ""
    ensures var v := Verdict(psl, p, x);
            && (v.Pass? <==> forall c :: Completes(x, c) ==> Passes(psl, p, c))
            && (v.Fail? <==> forall c :: Completes(x, c) ==> !Passes(psl, p, c))
            && (v.TempError? || v.Indeterminate? <==>
                  (exists c :: Completes(x, c) && Passes(psl, p, c)) && (exists c :: Completes(x, c) && !Passes(psl, p, c)))
            && (v.TempError? <==> !v.Pass? && exists c :: CompletesErrors(x, c) && Passes(psl, p, c))
  {
    var v := Verdict(psl, p, x);
    if v.Pass? {
      forall c | Completes(x, c)
        ensures Passes(psl, p, c)
      {
        PassStays(psl, p, x, c);
      }
    } else {
      var f := FailingCompletion(psl, p, x);
    }
    if v.Fail? {
      forall c | Completes(x, c)
        ensures !Passes(psl, p, c)
      {
        FailStays(psl, p, x, c);
      }
    } else {
      var c := PassingCompletion(psl, p, x);
    }
    if v.TempError? {
      var c := ErrorsCanPass(psl, p, x);
    } else if v.Indeterminate? {
      forall c | CompletesErrors(x, c)
        ensures !Passes(psl, p, c)
      {
        ErrorsStay(psl, p, x, c);
      }
    }
  }

  // ---------------------------------------------------------------- the two modes

  /** A name as it is after normalizing. */
  predicate IsName(d: string) {
    d != "" && Normalize(d) == d
  }

  /** The same letter, if it is a capital one the small one. */
  function Small(c: char): char {
    if 'A' <= c <= 'Z' then (c as int + 32) as char else c
  }

  ghost predicate AllSpace(s: string) {
    forall i :: 0 <= i < |s| ==> s[i] == ' ' || s[i] == '\t' || s[i] == '\n' || s[i] == '\r'
  }

  lemma {:induction false} SpaceTrimmed(w: string, s: string, w': string)
    requires AllSpace(w) && AllSpace(w') && s != "" && !AllSpace([s[0]]) && !AllSpace([s[|s| - 1]])
    ensures TrimSpace(w + s + w') == s
    decreases |w| + |w'|
  {
    var all := w + s + w';
    if w != "" {
      assert all[1..] == w[1..] + s + w';
      SpaceTrimmed(w[1..], s, w');
    } else if w' != "" {
      assert all[|all| - 1] == w'[|w'| - 1];
      assert all[..|all| - 1] == w + s + w'[..|w'| - 1];
      assert all[0] == s[0] && [s[0]][0] == s[0];
      SpaceTrimmed(w, s, w'[..|w'| - 1]);
    } else {
      assert all == s;
      assert [s[0]][0] == s[0] && [s[|s| - 1]][0] == s[|s| - 1];
    }
  }

  /** White space around a name, one final dot and the case of its letters do not matter. */
  lemma NormalizeIsExact(w: string, name: string, dot: bool, w': string)
    requires AllSpace(w) && AllSpace(w') && name != "" && name[|name| - 1] != '.'
    requires !AllSpace([name[0]]) && !AllSpace([name[|name| - 1]])
    ensures var n := Normalize(w + (name + if dot then "." else "") + w');
            |n| == |name| && forall i :: 0 <= i < |name| ==> n[i] == Small(name[i])
  {
    var s := name + if dot then "." else "";
    assert s[0] == name[0] && s[|s| - 1] == if dot then '.' else name[|name| - 1];
    assert dot ==> [s[|s| - 1]][0] == '.';
    SpaceTrimmed(w, s, w');
    hide TrimSpace;
    assert TrimDot(s) == name;
  }

  /** What the list makes of a name. */
  function OrganizationOf(psl: SuffixList, name: string): string {
    if psl(name).Some? then psl(name).value else name
  }

  /** Strict alignment is equality of names, relaxed alignment that of their organizations. */
  lemma AlignedIsExact(psl: SuffixList, a: string, f: string)
    requires IsName(a) && IsName(f)
    ensures Aligned(psl, a, f, Strict) <==> a == f
    ensures Aligned(psl, a, f, Relaxed) <==> OrganizationOf(psl, a) == OrganizationOf(psl, f)
  {
  }

  /** q is p with some of its strict modes relaxed. */
  predicate Relaxes(p: Applied, q: Applied) {
    q == p.(aspf := q.aspf, adkim := q.adkim) && (q.aspf.Relaxed? || q.aspf == p.aspf) && (q.adkim.Relaxed? || q.adkim == p.adkim)
  }

  lemma AlignedRelaxed(psl: SuffixList, auth: string, from: string, mode: Mode)
    requires Aligned(psl, auth, from, mode)
    ensures Aligned(psl, auth, from, Relaxed)
  {
  }

  /** Relaxing a mode never loses a pass, and never makes a fail of what was open. */
  lemma RelaxingKeepsPass(psl: SuffixList, p: Applied, q: Applied, x: Input)
    requires Relaxes(p, q)
    ensures Verdict(psl, p, x).Pass? ==> Verdict(psl, q, x).Pass?
    ensures Verdict(psl, q, x).Fail? ==> Verdict(psl, p, x).Fail?
  {
    hide Aligned;
    forall auth, mode | Aligned(psl, auth, p.from, mode)
      ensures Aligned(psl, auth, p.from, Relaxed)
    {
      AlignedRelaxed(psl, auth, p.from, mode);
    }
    assert SpfCounts(psl, p, x) ==> SpfCounts(psl, q, x);
    assert SpfTemp(psl, p, x) ==> SpfTemp(psl, q, x);
    forall d | d in x.dkim
      ensures DkimCounts(psl, p, d) ==> DkimCounts(psl, q, d)
      ensures DkimTemp(psl, p, d) ==> DkimTemp(psl, q, d)
      ensures DkimPartial(psl, p, d) ==> DkimPartial(psl, q, d)
    {
    }
  }

  /** An identifier that passes, be it by SPF or by DKIM. */
  predicate PassingName(x: Input, name: string) {
    (x.spfResult == "pass" && x.spfDomain == name) || exists d :: d in x.dkim && d.result == "pass" && d.domain == name
  }

  /** With both modes strict a message passes exactly when an identifier passes for the From
      domain itself; with both relaxed, when one does for its organization. */
  lemma PassIsExact(psl: SuffixList, p: Applied, x: Input)
    requires IsName(p.from) && forall name :: PassingName(x, name) ==> IsName(name)
    ensures p.aspf.Strict? && p.adkim.Strict? ==> (Verdict(psl, p, x).Pass? <==> PassingName(x, p.from))
    ensures p.aspf.Relaxed? && p.adkim.Relaxed? ==>
              (Verdict(psl, p, x).Pass?
               <==> exists name :: PassingName(x, name) && OrganizationOf(psl, name) == OrganizationOf(psl, p.from))
  {
    hide Aligned, OrganizationOf, IsName;
    forall name | PassingName(x, name)
      ensures Aligned(psl, name, p.from, Strict) <==> name == p.from
      ensures Aligned(psl, name, p.from, Relaxed) <==> OrganizationOf(psl, name) == OrganizationOf(psl, p.from)
    {
      AlignedIsExact(psl, name, p.from);
    }
    assert SpfCounts(psl, p, x) ==> PassingName(x, x.spfDomain);
    forall d | d in x.dkim && DkimCounts(psl, p, d)
      ensures PassingName(x, d.domain)
    {
    }
    if p.aspf == p.adkim {
      PassingAligned(psl, p, x);
    }
  }

  lemma PassingAligned(psl: SuffixList, p: Applied, x: Input)
    requires p.aspf == p.adkim
    ensures Passes(psl, p, x) <==> exists name :: PassingName(x, name) && Aligned(psl, name, p.from, p.aspf)
  {
    hide Aligned;
    if SpfCounts(psl, p, x) {
      assert PassingName(x, x.spfDomain);
    }
    forall d | d in x.dkim && DkimCounts(psl, p, d)
      ensures PassingName(x, d.domain)
    {
    }
  }

  /** One identifier passes, for another name of the From domain's organization: the message
      passes under relaxed modes and does not under strict ones. */
  lemma SubdomainNeedsRelaxed(psl: SuffixList, p: Applied, x: Input, name: string)
    requires IsName(p.from) && IsName(name) && name != p.from && OrganizationOf(psl, name) == OrganizationOf(psl, p.from)
    requires forall n :: PassingName(x, n) <==> n == name
    ensures Verdict(psl, p.(aspf := Relaxed, adkim := Relaxed), x).Pass?
    ensures !Verdict(psl, p.(aspf := Strict, adkim := Strict), x).Pass?
  {
    hide Verdict, OrganizationOf, IsName, PassingName;
    PassIsExact(psl, p.(aspf := Relaxed, adkim := Relaxed), x);
    PassIsExact(psl, p.(aspf := Strict, adkim := Strict), x);
    assert PassingName(x, name);
  }

  // ---------------------------------------------------------------- the From domain

  predicate DomainChar(c: char) {
    IsAlpha(c) || IsDigit(c) || c == '-' || c == '_'
  }

  /** validDomain: what the From domain has to satisfy before any policy is looked up. */
  predicate ValidDomain(domain: string) {
    var d := TrimDot(domain);
    d != "" && |d| <= 253 && '.' in d
    && var labels := Split(d, "."); forall i :: 0 <= i < |labels| ==>
         1 <= |labels[i]| <= 63 && forall k :: 0 <= k < |labels[i]| ==> DomainChar(labels[i][k])
  }

  lemma {:induction false} LabelsAreAll(s: string)
    requires forall i :: 0 <= i < |Split(s, ".")| ==>
               forall k :: 0 <= k < |Split(s, ".")[i]| ==> DomainChar(Split(s, ".")[i][k])
    ensures forall k :: 0 <= k < |s| ==> DomainChar(s[k]) || s[k] == '.'
  {
    if s != "" {
      var rest := Split(s[1..], ".");
      var all := Split(s, ".");
      if s[0] == '.' {
        assert forall i :: 0 <= i < |rest| ==> rest[i] == all[i + 1];
      } else {
        assert all[0] == [s[0]] + rest[0];
        assert s[0] == all[0][0];
        assert forall k :: 0 <= k < |rest[0]| ==> rest[0][k] == all[0][k + 1];
        assert forall i :: 1 <= i < |rest| ==> rest[i] == all[i];
      }
      LabelsAreAll(s[1..]);
      assert s == [s[0]] + s[1..];
    }
  }

  /** A From domain that was accepted is a domain alignment can be decided for. */
  lemma ValidFromIsUsable(domain: string)
    requires ValidDomain(domain)
    ensures Normalize(domain) != ""
  {
    var d := TrimDot(domain);
    LabelsAreAll(d);
    assert d[0] !in " \t\n\r" && d[|d| - 1] !in " \t\n\r";
    assert domain == d || domain == d + ".";
    assert TrimSpace(domain) == domain;
  }

  /** A label of 1 to 63 letters, digits, hyphens and underscores. */
  ghost predicate IsDomainLabel(l: string) {
    1 <= |l| <= 63
    && forall i :: 0 <= i < |l| ==>
         'a' <= l[i] <= 'z' || 'A' <= l[i] <= 'Z' || '0' <= l[i] <= '9' || l[i] == '-' || l[i] == '_'
  }

  /** A From domain is accepted exactly when it has at least two such labels and at most 253
      characters, a final dot aside. */
  lemma FromDomainIsExact(labels: seq<string>, dot: bool)
    requires labels != [] && forall i :: 0 <= i < |labels| ==> '.' !in labels[i]
    ensures var name := Join(labels, ".");
            TrimDot(name) == name ==>
              (ValidDomain(name + if dot then "." else "")
               <==> |labels| >= 2 && |name| <= 253 && forall i :: 0 <= i < |labels| ==> IsDomainLabel(labels[i]))
  {
    var name := Join(labels, ".");
    if TrimDot(name) == name {
      var text := name + if dot then "." else "";
      assert TrimDot(text) == name by {
        assert dot ==> text[..|name|] == name;
      }
      SplitJoin(labels, '.');
      assert ['.'] == ".";
      DotsOfJoin(labels);
      hide TrimDot, Split, Join;
      forall i | 0 <= i < |labels|
        ensures IsDomainLabel(labels[i]) <==>
                1 <= |labels[i]| <= 63 && forall k :: 0 <= k < |labels[i]| ==> DomainChar(labels[i][k])
      {
        LabelChars(labels[i]);
      }
    }
  }

  lemma LabelChars(l: string)
    ensures IsDomainLabel(l) <==> 1 <= |l| <= 63 && forall k :: 0 <= k < |l| ==> DomainChar(l[k])
  {
  }

  lemma DotsOfJoin(labels: seq<string>)
    requires labels != [] && forall i :: 0 <= i < |labels| ==> '.' !in labels[i]
    ensures '.' in Join(labels, ".") <==> |labels| >= 2
    ensures |labels| >= 2 ==> Join(labels, ".") != ""
    ensures |labels| == 1 ==> Join(labels, ".") == labels[0]
  {
    if |labels| >= 2 {
      assert Join(labels, ".")[|labels[0]|] == '.';
    }
  }
}
