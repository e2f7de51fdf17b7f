/** The argument of the a and mx mechanisms: an optional domain-spec and a dual-cidr-length
    (parseDomainAndCIDR and parseCIDR of internal/spf/record.go; sections 5.3, 5.4 and 5.6 of
    RFC 7208). Which domain-specs are valid is given from outside. */
module DualCidr {
  import opened Ascii
  import opened Names
  import opened Wrappers

  const MAX_CIDR4 := 32
  const MAX_CIDR6 := 128

  /** A term without a length has none, where the program keeps -1. */
  datatype Arg = Arg(domain: Option<string>, cidr4: Option<nat>, cidr6: Option<nat>)

  datatype ArgError = Unexpected | BadCidr4 | BadCidr6 | EmptyDomain | BadDomain

  // ---------------------------------------------------------------- one length

  predicate AllDigits(s: string) {
    forall i :: 0 <= i < |s| ==> IsDigit(s[i])
  }

  /** The number that the digits of s stand for. */
  function Number(s: string): nat
    requires AllDigits(s)
  {
    if s == "" then 0 else 10 * Number(s[..|s| - 1]) + (s[|s| - 1] as int - '0' as int)
  }

  lemma {:induction false} NumberOfDecimal(n: nat)
    ensures Number(Decimal(n)) == n
    ensures |Decimal(n)| > 1 ==> Decimal(n)[0] != '0'
  {
    if n >= 10 {
      NumberOfDecimal(n / 10);
      var s := Decimal(n);
      assert s[..|s| - 1] == Decimal(n / 10);
      if n / 10 < 10 {
        assert s[0] == Digit(n / 10);
      }
    }
  }

  lemma {:induction false} DecimalOfNumber(s: string)
    requires s != "" && AllDigits(s) && (|s| > 1 ==> s[0] != '0')
    ensures Decimal(Number(s)) == s
    ensures |s| > 1 ==> Number(s) >= 10
  {
    var d := s[|s| - 1];
    if |s| == 1 {
      assert s == [d] && Number(s[..0]) == 0;
    } else {
      var head := s[..|s| - 1];
      DecimalOfNumber(head);
      if |head| == 1 {
        assert head == [s[0]] && Number(head[..0]) == 0;
      }
      assert s == head + [d];
    }
  }

  function Length(s: string, max: nat): Option<nat> {
    if s != "" && !(|s| > 1 && s[0] == '0') && AllDigits(s) && Number(s) <= max then Some(Number(s)) else None
  }

  /** A length is written in exactly one way: without sign and without leading zeros. */
  lemma LengthIs(s: string, max: nat, n: nat)
    ensures Length(s, max) == Some(n) <==> n <= max && s == Decimal(n)
  {
    NumberOfDecimal(n);
    if Length(s, max).Some? {
      DecimalOfNumber(s);
    }
  }

  method ParseCidr(s: string, max: nat) returns (r: Option<nat>)
    ensures r == Length(s, max)
  {
    if s == "" || (|s| > 1 && s[0] == '0') {
      return None;
    }
    for i := 0 to |s|
      invariant AllDigits(s[..i])
    {
      if !IsDigit(s[i]) {
        return None;
      }
    }
    assert s[..|s|] == s;
    var n := Number(s);
    return if n > max then None else Some(n);
  }

  // ---------------------------------------------------------------- the argument

  /** The position of the first "//" of s at or after from, or -1. */
  function FindDouble(s: string, from: nat): (i: int)
    ensures i == -1 || from <= i < |s| - 1
    decreases |s| - from
  {
    if from + 1 >= |s| then -1
    else if s[from] == '/' && s[from + 1] == '/' then from
    else FindDouble(s, from + 1)
  }

  predicate DoubleAt(s: string, i: nat) {
    i + 1 < |s| && s[i] == '/' && s[i + 1] == '/'
  }

  /** No "//" of s begins at or after from. */
  ghost predicate NoDouble(s: string, from: nat) {
    forall k: nat :: from <= k ==> !DoubleAt(s, k)
  }

  lemma {:induction false} DoubleIs(s: string, from: nat, at: nat)
    requires from <= at && (DoubleAt(s, at) || at >= |s|) && forall k :: from <= k < at ==> !DoubleAt(s, k)
    ensures FindDouble(s, from) == if DoubleAt(s, at) then at else -1
    decreases |s| - from
  {
    if from < at && from + 1 < |s| {
      assert !DoubleAt(s, from);
      DoubleIs(s, from + 1, at);
    }
  }

  lemma {:induction false} DoubleFound(s: string, from: nat)
    ensures var i := FindDouble(s, from);
            && (i >= 0 ==> DoubleAt(s, i))
            && forall k: nat :: from <= k && (i < 0 || k < i) ==> !DoubleAt(s, k)
    decreases |s| - from
  {
    if from + 1 < |s| && !DoubleAt(s, from) {
      DoubleFound(s, from + 1);
    }
  }

  function ParseArg(valid: string -> bool, arg: string): ParseResult<Arg, ArgError> {
    if arg == "" then Ok(Arg(None, None, None))
    else if arg[0] != ':' && arg[0] != '/' then Err(Unexpected)
    else
      var spec := if arg[0] == ':' then arg[1..] else arg;
      var base := LastIndex(spec, '}') + 1;
      var i := FindDouble(spec, base);
      if i < 0 then ParseRest(valid, arg[0], base, spec, None)
      else match Length(spec[i + 2..], MAX_CIDR6)
           case None => Err(BadCidr6)
           case Some(m) => ParseRest(valid, arg[0], base, spec[..i], Some(m))
  }

  /** Once the ip6-cidr-length is gone. */
  function ParseRest(valid: string -> bool, first: char, base: nat, spec: string, cidr6: Option<nat>)
    : ParseResult<Arg, ArgError>
  {
    var j := LastIndex(spec, '/');
    if j < base then ParseDomain(valid, first, spec, None, cidr6)
    else match Length(spec[j + 1..], MAX_CIDR4)
         case None => Err(BadCidr4)
         case Some(n) => ParseDomain(valid, first, spec[..j], Some(n), cidr6)
  }

  function ParseDomain(valid: string -> bool, first: char, spec: string, cidr4: Option<nat>, cidr6: Option<nat>)
    : ParseResult<Arg, ArgError>
  {
    if first == ':' then
      if spec == "" then Err(EmptyDomain)
      else if valid(spec) then Ok(Arg(Some(spec), cidr4, cidr6)) else Err(BadDomain)
    else if spec != "" then Err(Unexpected)
    else Ok(Arg(None, cidr4, cidr6))
  }

  // ---------------------------------------------------------------- printing

  function PrintCidr4(n: Option<nat>): string {
    if n.Some? then "/" + Decimal(n.value) else ""
  }

  function PrintCidr6(m: Option<nat>): string {
    if m.Some? then "//" + Decimal(m.value) else ""
  }

  function Domain(a: Arg): string {
    if a.domain.Some? then a.domain.value else ""
  }

  function Print(a: Arg): string {
    (if a.domain.Some? then ":" else "") + Domain(a) + PrintCidr4(a.cidr4) + PrintCidr6(a.cidr6)
  }

  /** What section 5.6 of RFC 7208 calls a domain-spec and lengths in range. */
  predicate Valid(valid: string -> bool, a: Arg) {
    && (a.domain.Some? ==> a.domain.value != "" && valid(a.domain.value))
    && (a.cidr4.Some? ==> a.cidr4.value <= 32)
    && (a.cidr6.Some? ==> a.cidr6.value <= 128)
  }

  /** No slash after the last macro of the domain-spec; or single ones, not at its end, when
      an ip4-cidr-length follows. */
  ghost predicate Unambiguous(a: Arg) {
    var d := Domain(a);
    var base := LastIndex(d, '}') + 1;
    LastIndex(d, '/') < base
    || (a.cidr4.Some? && d[|d| - 1] != '/' && NoDouble(d, base))
  }

  lemma NoDoubleBefore(a: Arg)
    requires Unambiguous(a)
    ensures var d, four := Domain(a), PrintCidr4(a.cidr4);
            forall k: nat :: LastIndex(d, '}') < k < |d + four| ==> !DoubleAt(d + four + PrintCidr6(a.cidr6), k)
  {
    var d, four, six := Domain(a), PrintCidr4(a.cidr4), PrintCidr6(a.cidr6);
    var s := d + four + six;
    LastIndexFacts(d, '/');
    forall k: nat | LastIndex(d, '}') < k < |d + four|
      ensures !DoubleAt(s, k)
    {
      assert k < |d| - 1 ==> (DoubleAt(s, k) <==> DoubleAt(d, k));
    }
  }

  /** Where the program looks for the lengths of a printed argument. */
  lemma PrintedParts(a: Arg)
    requires Unambiguous(a)
    ensures var d, four, six := Domain(a), PrintCidr4(a.cidr4), PrintCidr6(a.cidr6);
            var base := LastIndex(d, '}') + 1;
            && LastIndex(d + four + six, '}') + 1 == base
            && FindDouble(d + four + six, base) == (if a.cidr6.Some? then |d + four| else -1)
            && LastIndex(d + four, '/') == (if a.cidr4.Some? then |d| else LastIndex(d, '/'))
            && (a.cidr4.None? ==> LastIndex(d, '/') < base)
  {
    var d, four, six := Domain(a), PrintCidr4(a.cidr4), PrintCidr6(a.cidr6);
    var base := LastIndex(d, '}') + 1;
    var s := d + four + six;
    LastIndexFacts(d, '}');
    LastIndexFacts(d, '/');
    LastIndexIs(s, '}', base - 1);
    DoublePrinted(a);
    hide FindDouble, Unambiguous, LastIndex, Decimal;
    if a.cidr4.Some? {
      LastIndexIs(d + four, '/', |d|);
    } else {
      assert d + four == d;
    }
  }

  lemma DoublePrinted(a: Arg)
    requires Unambiguous(a)
    ensures var spec := Domain(a) + PrintCidr4(a.cidr4);
            FindDouble(spec + PrintCidr6(a.cidr6), LastIndex(Domain(a), '}') + 1)
              == if a.cidr6.Some? then |spec| else -1
  {
    NoDoubleBefore(a);
    hide Unambiguous, LastIndex, Decimal, PrintCidr4;
    var base := LastIndex(Domain(a), '}') + 1;
    var spec := Domain(a) + PrintCidr4(a.cidr4);
    var s := spec + PrintCidr6(a.cidr6);
    DoubleIs(s, base, if a.cidr6.Some? then |spec| else |s|);
  }

  predicate StartsRight(a: Arg, first: char) {
    a.domain.Some? <==> first == ':'
  }

  lemma RestPrinted(valid: string -> bool, a: Arg, first: char)
    requires Valid(valid, a) && Unambiguous(a) && StartsRight(a, first)
    ensures ParseRest(valid, first, LastIndex(Domain(a), '}') + 1, Domain(a) + PrintCidr4(a.cidr4), a.cidr6) == Ok(a)
  {
    hide Unambiguous, LastIndex, Length, FindDouble;
    PrintedParts(a);
    var d, four := Domain(a), PrintCidr4(a.cidr4);
    if a.cidr4.Some? {
      assert (d + four)[|d| + 1..] == Decimal(a.cidr4.value) && (d + four)[..|d|] == d;
      LengthIs(Decimal(a.cidr4.value), MAX_CIDR4, a.cidr4.value);
    } else {
      assert d + four == d;
    }
  }

  lemma TailPrinted(a: Arg)
    requires Valid(_ => true, a) && a.cidr6.Some?
    ensures var spec := Domain(a) + PrintCidr4(a.cidr4);
            var s := spec + PrintCidr6(a.cidr6);
            s[..|spec|] == spec && Length(s[|spec| + 2..], MAX_CIDR6) == a.cidr6
  {
    var spec := Domain(a) + PrintCidr4(a.cidr4);
    assert (spec + PrintCidr6(a.cidr6))[|spec| + 2..] == Decimal(a.cidr6.value);
    LengthIs(Decimal(a.cidr6.value), MAX_CIDR6, a.cidr6.value);
  }

  lemma ArgParts(valid: string -> bool, arg: string, s: string, spec: string, cidr6: Option<nat>)
    requires arg != "" && arg[0] in ":/" && s == (if arg[0] == ':' then arg[1..] else arg)
    requires var i := FindDouble(s, LastIndex(s, '}') + 1);
             if i < 0 then spec == s && cidr6 == None
             else spec == s[..i] && cidr6.Some? && Length(s[i + 2..], MAX_CIDR6) == cidr6
    ensures LastIndex(s, '}') < |spec|
    ensures ParseArg(valid, arg) == ParseRest(valid, arg[0], LastIndex(s, '}') + 1, spec, cidr6)
  {
    hide LastIndex, FindDouble, Length, ParseRest;
  }

  /** A printed argument, and what follows its colon. */
  lemma PrintedText(a: Arg)
    ensures var arg, s := Print(a), Domain(a) + PrintCidr4(a.cidr4) + PrintCidr6(a.cidr6);
            if arg == "" then a == Arg(None, None, None)
            else && arg[0] in ":/" && StartsRight(a, arg[0])
                 && (a.domain.None? ==> arg[0] == '/') && s == if arg[0] == ':' then arg[1..] else arg
  {
  }

  /** What was printed is parsed back. */
  lemma ParsePrinted(valid: string -> bool, a: Arg)
    requires Valid(valid, a) && Unambiguous(a)
    ensures ParseArg(valid, Print(a)) == Ok(a)
  {
    hide Print, ParseRest, LastIndex, FindDouble, Length, Unambiguous, PrintCidr4, StartsRight;
    PrintedText(a);
    if Print(a) != "" {
      hide ParseArg;
      PrintedParts(a);
      var spec := Domain(a) + PrintCidr4(a.cidr4);
      RestPrinted(valid, a, Print(a)[0]);
      if a.cidr6.Some? {
        TailPrinted(a);
      } else {
        assert spec + PrintCidr6(a.cidr6) == spec;
      }
      ArgParts(valid, Print(a), spec + PrintCidr6(a.cidr6), spec, a.cidr6);
    }
  }

  /** Cutting s off after its last c leaves that c the last one. */
  lemma LastIndexCut(s: string, c: char, n: nat)
    requires LastIndex(s, c) < n <= |s|
    ensures LastIndex(s[..n], c) == LastIndex(s, c)
  {
    LastIndexFacts(s, c);
    LastIndexIs(s[..n], c, LastIndex(s, c));
  }

  lemma NoDoubleCut(s: string, from: nat, n: nat)
    requires n <= |s| && forall k: nat :: from <= k < n ==> !DoubleAt(s, k)
    ensures NoDouble(s[..n], from)
  {
    forall k: nat | from <= k
      ensures !DoubleAt(s[..n], k)
    {
      assert k < n ==> !DoubleAt(s, k);
    }
  }

  lemma CutIsUnambiguous(spec: string, j: nat, a: Arg)
    requires var base := LastIndex(spec, '}') + 1; NoDouble(spec, base) && base <= j < |spec| && spec[j] == '/'
    requires Domain(a) == spec[..j] && a.cidr4.Some?
    ensures Unambiguous(a)
  {
    var base := LastIndex(spec, '}') + 1;
    LastIndexCut(spec, '}', j);
    NoDoubleCut(spec, base, j);
    if base < j {
      assert !DoubleAt(spec, j - 1);
    }
  }

  lemma DomainParsed(
    valid: string -> bool, first: char, d: string, cidr4: Option<nat>, cidr6: Option<nat>, a: Arg)
    requires first in ":/" && ParseDomain(valid, first, d, cidr4, cidr6) == Ok(a)
    ensures Domain(a) == d && a.cidr4 == cidr4 && a.cidr6 == cidr6 && StartsRight(a, first)
    ensures a.domain.Some? ==> d != "" && valid(d)
  {
  }

  lemma Cidr4Parsed(valid: string -> bool, first: char, spec: string, cidr6: Option<nat>, a: Arg)
    requires var base := LastIndex(spec, '}') + 1;
             NoDouble(spec, base) && base <= LastIndex(spec, '/')
             && ParseRest(valid, first, base, spec, cidr6) == Ok(a)
    requires first in ":/"
    ensures a.cidr6 == cidr6 && spec == Domain(a) + PrintCidr4(a.cidr4) && StartsRight(a, first)
    ensures Valid(valid, a.(cidr6 := None)) && Unambiguous(a)
  {
    hide LastIndex, Length, Unambiguous, ParseDomain, StartsRight;
    var j := LastIndex(spec, '/');
    LastIndexFacts(spec, '/');
    var n := Length(spec[j + 1..], MAX_CIDR4);
    DomainParsed(valid, first, spec[..j], n, cidr6, a);
    LengthIs(spec[j + 1..], MAX_CIDR4, n.value);
    assert spec == spec[..j] + "/" + spec[j + 1..];
    CutIsUnambiguous(spec, j, a);
  }

  lemma NoCidr4Parsed(valid: string -> bool, first: char, spec: string, cidr6: Option<nat>, a: Arg)
    requires first in ":/" && LastIndex(spec, '/') <= LastIndex(spec, '}')
    requires ParseDomain(valid, first, spec, None, cidr6) == Ok(a)
    ensures a.cidr6 == cidr6 && spec == Domain(a) + PrintCidr4(a.cidr4) && StartsRight(a, first)
    ensures Valid(valid, a.(cidr6 := None)) && Unambiguous(a)
  {
    hide LastIndex, Length;
    DomainParsed(valid, first, spec, None, cidr6, a);
    assert spec == Domain(a) + "";
  }

  lemma PrintedOf(arg: string, s: string, a: Arg)
    requires arg != "" && arg[0] in ":/" && s == (if arg[0] == ':' then arg[1..] else arg)
    requires StartsRight(a, arg[0]) && s == Domain(a) + PrintCidr4(a.cidr4) + PrintCidr6(a.cidr6)
    ensures arg == Print(a)
  {
    assert arg == (if a.domain.Some? then ":" else "") + s;
  }

  /** The argument around its ip6-cidr-length. */
  lemma Cidr6Parsed(valid: string -> bool, arg: string, a: Arg) returns (spec: string, cidr6: Option<nat>)
    requires arg != "" && ParseArg(valid, arg) == Ok(a)
    ensures arg[0] in ":/" && (if arg[0] == ':' then arg[1..] else arg) == spec + PrintCidr6(cidr6)
    ensures cidr6.Some? ==> cidr6.value <= MAX_CIDR6
    ensures NoDouble(spec, LastIndex(spec, '}') + 1)
    ensures ParseRest(valid, arg[0], LastIndex(spec, '}') + 1, spec, cidr6) == Ok(a)
  {
    hide LastIndex, FindDouble, Length, ParseRest, Decimal, DoubleAt;
    var s := if arg[0] == ':' then arg[1..] else arg;
    var base := LastIndex(s, '}') + 1;
    var i := FindDouble(s, base);
    DoubleFound(s, base);
    if i < 0 {
      spec, cidr6 := s, None;
      assert s == s + "";
    } else {
      spec, cidr6 := s[..i], Length(s[i + 2..], MAX_CIDR6);
      LengthIs(s[i + 2..], MAX_CIDR6, cidr6.value);
      assert s == s[..i] + ("//" + s[i + 2..]);
      LastIndexCut(s, '}', i);
      NoDoubleCut(s, base, i);
    }
  }

  /** Whatever is accepted is the printed form of what it is parsed as. */
  lemma ParsedIsPrinted(valid: string -> bool, arg: string, a: Arg)
    requires ParseArg(valid, arg) == Ok(a)
    ensures arg == Print(a) && Valid(valid, a) && Unambiguous(a)
  {
    if arg != "" {
      hide LastIndex, ParseArg, ParseDomain, Length, FindDouble, Domain, Unambiguous, PrintCidr4, PrintCidr6, StartsRight;
      var spec, cidr6 := Cidr6Parsed(valid, arg, a);
      if LastIndex(spec, '}') < LastIndex(spec, '/') {
        Cidr4Parsed(valid, arg[0], spec, cidr6, a);
      } else {
        NoCidr4Parsed(valid, arg[0], spec, cidr6, a);
      }
      PrintedOf(arg, spec + PrintCidr6(cidr6), a);
    }
  }

  /** Parsing and printing are inverse to each other: an argument is accepted as a exactly
      when it is the printed form of a, a is valid and its domain-spec leaves no doubt where
      the lengths begin. */
  lemma ParseIsExact(valid: string -> bool, arg: string, a: Arg)
    ensures ParseArg(valid, arg) == Ok(a) <==> arg == Print(a) && Valid(valid, a) && Unambiguous(a)
  {
    if ParseArg(valid, arg) == Ok(a) {
      ParsedIsPrinted(valid, arg, a);
    } else if Valid(valid, a) && Unambiguous(a) {
      ParsePrinted(valid, a);
    }
  }
}
