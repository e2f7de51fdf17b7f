/** The dual-cidr-length behind the domain-specs of the program itself: a printed argument that
    is not parsed back is refused, and never read differently. */
module CidrDomain {
  import opened Ascii
  import opened Names
  import opened Macro
  import opened MacroParse
  import opened Wrappers
  import DualCidr

  // ---------------------------------------------------------------- slashes in a domain-spec

  predicate OpenAt(s: string, k: nat) {
    k < |s| && s[k] == '/' && forall q :: k < q < |s| ==> s[q] != '.'
  }

  /** It has a slash with no dot behind it. */
  ghost predicate Open(s: string) {
    exists k: nat :: OpenAt(s, k)
  }

  lemma OpenGrows(lit: string, text: string)
    requires Open(lit) && '.' !in text
    ensures Open(lit + text)
  {
    var k: nat :| OpenAt(lit, k);
    assert OpenAt(lit + text, k);
  }

  /** The end of a domain-spec, unless nothing is left of it. */
  predicate EndsWell(m: MacroString) {
    m == [] || ValidDomainEnd(m)
  }

  lemma NoSlashInTop(top: string, k: nat)
    requires k < |top| && top[k] == '/'
    ensures !TopLabel(top)
  {
    assert !LabelChar(top[k]);
  }

  lemma OpenIsTrimmed(lit: string, k: nat)
    requires OpenAt(lit, k)
    ensures TrimDot(lit) == lit && LastIndex(lit, '.') < k
  {
    LastIndexFacts(lit, '.');
    hide LastIndex;
    assert lit[|lit| - 1] == '.' ==> k == |lit| - 1;
  }

  /** What follows the last dot has the slash in it. */
  lemma OpenTop(lit: string, k: nat)
    requires OpenAt(lit, k) && TextEnd(lit).Some?
    ensures !TopLabel(TextEnd(lit).value)
  {
    OpenIsTrimmed(lit, k);
    hide TopLabel, LastIndex, TrimDot, HasSuffix;
    var i := LastIndex(lit, '.');
    assert lit[i + 1..][k - i - 1] == lit[k];
    NoSlashInTop(lit[i + 1..], k - i - 1);
  }

  /** A toplabel has no slash, and a dot stands in front of it. */
  lemma OpenIsNoEnd(lit: string)
    requires Open(lit)
    ensures !EndsWell(Flush(lit))
  {
    hide TopLabel, TextEnd;
    var k: nat :| OpenAt(lit, k);
    if TextEnd(lit).Some? {
      OpenTop(lit, k);
    }
  }

  /** Behind an open slash a domain-spec has a dot. */
  lemma {:induction false} DotFollows(s: string, lit: string)
    requires Tokens(s, lit, false).Some? && EndsWell(Tokens(s, lit, false).value)
    requires Open(lit) && '}' !in s
    ensures '.' in s
    decreases |s|
  {
    hide Open, EndsWell, ParseExpand, Flush;
    if s == "" {
      OpenIsNoEnd(lit);
    } else if s[0] != '.' {
      if s[0] != '%' {
        OpenGrows(lit, [s[0]]);
        DotFollows(s[1..], lit + [s[0]]);
      } else if s[1] != '{' {
        OpenGrows(lit, Unescape(s[1]).value);
        DotFollows(s[2..], lit + Unescape(s[1]).value);
      } else {
        IndexFacts(s[1..], '}');
      }
    }
  }

  lemma EndOfRest(front: MacroString, m: MacroString)
    requires EndsWell(front + m)
    ensures EndsWell(m)
  {
  }

  /** Behind a slash that no macro follows a domain-spec has a dot. */
  lemma {:induction false} DotBehindSlash(s: string, lit: string, j: nat)
    requires Tokens(s, lit, false).Some? && EndsWell(Tokens(s, lit, false).value)
    requires j < |s| && s[j] == '/' && forall q :: j < q < |s| ==> s[q] != '}'
    ensures '.' in s[j + 1..]
    decreases |s|
  {
    hide EndsWell, ParseExpand, Flush;
    if s[0] == '%' && s[1] == '{' {
      var end := IndexOf(s[1..], '}');
      IndexFacts(s[1..], '}');
      assert s[1 + end] == '}';
      var t := ParseExpand(s[2..1 + end], false).value;
      EndOfRest(Flush(lit) + [t], Tokens(s[2 + end..], "", false).value);
      Behind(s, 2 + end, j);
      DotBehindSlash(s[2 + end..], "", j - 2 - end);
    } else if s[0] == '%' {
      Behind(s, 2, j);
      DotBehindSlash(s[2..], lit + Unescape(s[1]).value, j - 2);
    } else if j > 0 {
      Behind(s, 1, j);
      DotBehindSlash(s[1..], lit + [s[0]], j - 1);
    } else {
      assert OpenAt(lit + ['/'], |lit|);
      assert s[0..] == s;
      DotFollows(s[1..], lit + ['/']);
    }
  }

  lemma Behind(s: string, n: nat, j: nat)
    requires n <= j < |s|
    ensures s[n..][j - n..] == s[j..] && s[n..][j - n + 1..] == s[j + 1..]
  {
  }

  // ---------------------------------------------------------------- what is refused

  predicate IsSpec(s: string) {
    DomainSpecOf(s).Some?
  }

  lemma DotIsNoLength(s: string, n: nat, max: nat)
    requires n <= |s| && '.' in s[n..]
    ensures DualCidr.Length(s[n..], max).None?
  {
  }

  lemma DotStays(d: string, tail: string, n: nat, k: nat)
    requires n <= k <= |d| && '.' in d[k..]
    ensures '.' in (d + tail)[n..]
  {
    var q :| k <= q < |d| && d[q] == '.';
    assert (d + tail)[n..][q - n] == '.';
  }

  /** A domain-spec has a dot behind its last slash, if no brace follows that one. */
  lemma SpecTail(d: string)
    requires IsSpec(d) && LastIndex(d, '}') < LastIndex(d, '/')
    ensures '.' in d[LastIndex(d, '/') + 1..]
  {
    hide Tokens, ValidDomainEnd;
    var j := LastIndex(d, '/');
    LastIndexFacts(d, '/');
    LastIndexFacts(d, '}');
    DotBehindSlash(d, "", j);
  }

  /** No "//" of d: then d is ambiguous only for want of an ip4-cidr-length. */
  lemma NoDoubleInDomain(d: string, tail: string, a: DualCidr.Arg)
    requires DualCidr.Domain(a) == d && LastIndex(d, '}') < LastIndex(d, '/') < |d| - 1
    requires forall k: nat :: LastIndex(d, '}') < k < LastIndex(d, '/') ==> !DualCidr.DoubleAt(d + tail, k)
    ensures !DualCidr.Unambiguous(a) ==> a.cidr4.None?
  {
    LastIndexFacts(d, '/');
    var base := LastIndex(d, '}') + 1;
    hide LastIndex;
    forall k: nat | base <= k
      ensures !DualCidr.DoubleAt(d, k)
    {
      assert k < LastIndex(d, '/') ==> !DualCidr.DoubleAt(d + tail, k);
    }
  }

  lemma PrintedCidr6(m: Option<nat>)
    ensures var six := DualCidr.PrintCidr6(m); if m.None? then six == "" else |six| > 2 && six[0] == '/' && six[1] == '/'
  {
  }

  /** The first "//" behind the last slash of d is that of an ip6-cidr-length. */
  lemma DoubleBehind(d: string, six: string, j: nat, i: int)
    requires j < |d| - 1 && (forall k :: j < k < |d| ==> d[k] != '/') && i < |d + six|
    requires six != "" ==> |six| > 2 && six[0] == '/' && six[1] == '/'
    requires if i < 0 then forall k: nat :: j <= k ==> !DualCidr.DoubleAt(d + six, k)
             else DualCidr.DoubleAt(d + six, i) && forall k: nat :: j <= k < i ==> !DualCidr.DoubleAt(d + six, k)
    ensures i < 0 ==> six == ""
    ensures j <= i ==> six != "" && i == |d|
  {
    var s := d + six;
    if six != "" {
      assert s[|d|] == six[0] && s[|d| + 1] == six[1];
      assert DualCidr.DoubleAt(s, |d|);
    }
  }

  /** Where the program finds the first "//" of a printed argument with slashes behind its last
      brace: within the domain-spec, unless there is no ip4-cidr-length. */
  lemma PrintedDoubles(d: string, tail: string, a: DualCidr.Arg)
    requires DualCidr.Domain(a) == d && LastIndex(d, '}') < LastIndex(d, '/') < |d| - 1 && !DualCidr.Unambiguous(a)
    ensures var i := DualCidr.FindDouble(d + tail, LastIndex(d, '}') + 1);
            i < 0 || LastIndex(d, '/') <= i ==> a.cidr4.None?
  {
    DualCidr.DoubleFound(d + tail, LastIndex(d, '}') + 1);
    hide LastIndex, DualCidr.FindDouble, DualCidr.Unambiguous, DualCidr.DoubleAt;
    var i := DualCidr.FindDouble(d + tail, LastIndex(d, '}') + 1);
    if i < 0 || LastIndex(d, '/') <= i {
      NoDoubleInDomain(d, tail, a);
    }
  }

  lemma DoublesWithoutCidr4(d: string, m: Option<nat>)
    requires LastIndex(d, '}') < LastIndex(d, '/') < |d| - 1
    ensures var i := DualCidr.FindDouble(d + DualCidr.PrintCidr6(m), LastIndex(d, '}') + 1);
            && (i < 0 ==> m.None?) && (LastIndex(d, '/') <= i ==> m.Some? && i == |d|)
  {
    LastIndexFacts(d, '/');
    PrintedCidr6(m);
    hide LastIndex, DualCidr.FindDouble, Decimal, DualCidr.PrintCidr6, DualCidr.DoubleAt;
    var s, from := d + DualCidr.PrintCidr6(m), LastIndex(d, '}') + 1;
    DualCidr.DoubleFound(s, from);
    DoubleBehind(d, DualCidr.PrintCidr6(m), LastIndex(d, '/'), DualCidr.FindDouble(s, from));
  }

  lemma RestIsRefused(d: string, m: Option<nat>)
    requires LastIndex(d, '}') < LastIndex(d, '/') && '.' in d[LastIndex(d, '/') + 1..]
    ensures DualCidr.ParseRest(IsSpec, ':', LastIndex(d, '}') + 1, d, m).Err?
  {
    hide LastIndex, DualCidr.Length, DualCidr.ParseDomain, IsSpec;
    DotIsNoLength(d, LastIndex(d, '/') + 1, DualCidr.MAX_CIDR4);
  }

  /** What follows the colon of an argument. */
  lemma ArgWithDomain(s: string)
    ensures var base := LastIndex(s, '}') + 1;
            var i := DualCidr.FindDouble(s, base);
            DualCidr.ParseArg(IsSpec, ":" + s)
              == if i < 0 then DualCidr.ParseRest(IsSpec, ':', base, s, None)
                 else match DualCidr.Length(s[i + 2..], DualCidr.MAX_CIDR6)
                      case None => Err(DualCidr.BadCidr6)
                      case Some(m) => DualCidr.ParseRest(IsSpec, ':', base, s[..i], Some(m))
  {
    hide LastIndex, DualCidr.FindDouble, DualCidr.Length, DualCidr.ParseRest;
    assert (":" + s)[1..] == s;
  }

  lemma BracePrinted(d: string, a: DualCidr.Arg)
    ensures LastIndex(d + (DualCidr.PrintCidr4(a.cidr4) + DualCidr.PrintCidr6(a.cidr6)), '}') == LastIndex(d, '}')
  {
    var tail := DualCidr.PrintCidr4(a.cidr4) + DualCidr.PrintCidr6(a.cidr6);
    assert forall k :: 0 <= k < |tail| ==> tail[k] != '}';
    LastIndexFacts(d, '}');
    LastIndexIs(d + tail, '}', LastIndex(d, '}'));
  }

  lemma WithoutCidr4(d: string, m: Option<nat>)
    ensures var tail := DualCidr.PrintCidr4(None) + DualCidr.PrintCidr6(m);
            tail == DualCidr.PrintCidr6(m) && (d + tail)[..|d|] == d && (m.None? ==> d + tail == d)
  {
  }

  function Lengths(a: DualCidr.Arg): string {
    DualCidr.PrintCidr4(a.cidr4) + DualCidr.PrintCidr6(a.cidr6)
  }

  lemma AmbiguousParts(a: DualCidr.Arg)
    requires DualCidr.Valid(IsSpec, a) && !DualCidr.Unambiguous(a)
    ensures var d := DualCidr.Domain(a);
            LastIndex(d, '}') < LastIndex(d, '/') && '.' in d[LastIndex(d, '/') + 1..]
            && DualCidr.Print(a) == ":" + (d + Lengths(a))
  {
    hide IsSpec, LastIndex, DualCidr.PrintCidr4, DualCidr.PrintCidr6;
    SpecTail(DualCidr.Domain(a));
  }

  /** The printed form of a valid argument that does not show where its lengths begin. */
  lemma AmbiguousIsRefused(a: DualCidr.Arg)
    requires DualCidr.Valid(IsSpec, a) && !DualCidr.Unambiguous(a)
    ensures DualCidr.ParseArg(IsSpec, DualCidr.Print(a)).Err?
  {
    hide IsSpec, LastIndex, DualCidr.FindDouble, DualCidr.Length, DualCidr.ParseRest, DualCidr.ParseArg, DualCidr.Print,
         DualCidr.PrintCidr4, DualCidr.PrintCidr6, DualCidr.Unambiguous, DualCidr.Valid, DualCidr.Domain;
    AmbiguousParts(a);
    var d := DualCidr.Domain(a);
    BracePrinted(d, a);
    PrintedDoubles(d, Lengths(a), a);
    ArgWithDomain(d + Lengths(a));
    var i := DualCidr.FindDouble(d + Lengths(a), LastIndex(d, '}') + 1);
    if 0 <= i < LastIndex(d, '/') {
      DotStays(d, Lengths(a), i + 2, LastIndex(d, '/') + 1);
      DotIsNoLength(d + Lengths(a), i + 2, DualCidr.MAX_CIDR6);
    } else {
      WithoutCidr4(d, a.cidr6);
      DoublesWithoutCidr4(d, a.cidr6);
      RestIsRefused(d, if i < 0 then None else DualCidr.Length((d + Lengths(a))[i + 2..], DualCidr.MAX_CIDR6));
    }
  }

  /** A valid argument, once printed, is parsed back if it shows where its lengths begin, and
      refused if it does not. */
  lemma PrintedIsParsedOrRefused(a: DualCidr.Arg)
    requires DualCidr.Valid(IsSpec, a)
    ensures match DualCidr.ParseArg(IsSpec, DualCidr.Print(a))
            case Ok(b) => DualCidr.Unambiguous(a) && a == b
            case Err(_) => !DualCidr.Unambiguous(a)
  {
    hide DualCidr.Valid, DualCidr.ParseArg, DualCidr.Print, DualCidr.Unambiguous;
    if DualCidr.Unambiguous(a) {
      DualCidr.ParsePrinted(IsSpec, a);
    } else {
      AmbiguousIsRefused(a);
    }
  }

  // ---------------------------------------------------------------- an example

  const SLASHED := "a/b.c"

  lemma SlashedIsSpec()
    ensures IsSpec(SLASHED)
  {
    SlashedIsCanonical();
    SlashedIsPrinted();
    SlashedEnds();
    hide Canonical, Print, Parse, TextEnd, TopLabel;
    CanonicalIsParsed([Literal(SLASHED)], false);
  }

  lemma SlashedIsCanonical()
    ensures Canonical([Literal(SLASHED)], false)
  {
    var t: Token := Literal(SLASHED);
    assert [t][1..] == [];
  }

  lemma {:induction false} PrintPlain(text: string)
    requires '%' !in text && ' ' !in text
    ensures PrintText(text) == text
  {
    if text != "" {
      PrintPlain(text[1..]);
      assert text == [text[0]] + text[1..];
    }
  }

  lemma SlashedIsPrinted()
    ensures Print([Literal(SLASHED)]) == SLASHED
  {
    PrintPlain(SLASHED);
    hide PrintText;
    var t: Token := Literal(SLASHED);
    assert [t][1..] == [];
    assert Print([t]) == PrintToken(t) + "";
  }

  lemma SlashedEnds()
    ensures TextEnd(SLASHED) == Some("c") && TopLabel("c")
  {
    assert SLASHED == "a/b" + "." + "c";
    assert IsAlpha("c"[0]);
    TextEndIs(SLASHED, "a/b", "c");
  }

  lemma SlashedArgs(a: DualCidr.Arg, b: DualCidr.Arg)
    requires a == DualCidr.Arg(Some(SLASHED), Some(24), None) && b == DualCidr.Arg(Some(SLASHED), None, None)
    ensures DualCidr.Print(a) == ":a/b.c/24" && DualCidr.Print(b) == ":a/b.c"
  {
    assert Decimal(24) == Decimal(2) + "4" == "24";
    assert DualCidr.Print(a) == ":" + SLASHED + ("/" + "24") + "" == ":a/b.c/24";
    assert DualCidr.Print(b) == ":" + SLASHED + "" + "" == ":a/b.c";
  }

  /** The domain-spec a/b.c is accepted with /24 behind it, and refused by itself. */
  lemma SlashedNeedsLength()
    ensures var a := DualCidr.Arg(Some(SLASHED), Some(24), None);
            DualCidr.Print(a) == ":a/b.c/24" && DualCidr.ParseArg(IsSpec, ":a/b.c/24") == Ok(a)
    ensures DualCidr.ParseArg(IsSpec, ":a/b.c").Err?
  {
    SlashedIsSpec();
    var a, b := DualCidr.Arg(Some(SLASHED), Some(24), None), DualCidr.Arg(Some(SLASHED), None, None);
    SlashedArgs(a, b);
    LastIndexIs(SLASHED, '}', -1);
    LastIndexIs(SLASHED, '/', 1);
    hide IsSpec, LastIndex, DualCidr.ParseArg, DualCidr.Print;
    PrintedIsParsedOrRefused(a);
    PrintedIsParsedOrRefused(b);
  }
}
