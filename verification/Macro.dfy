/** Macro strings and their expansion (internal/spf/expand.go), section 7 of RFC 7208. */
module Macro {
  import opened Ascii
  import opened Names

  const LETTERS := "slodiphvcrt"
  const DELIMITERS := ".-+,/_="

  datatype RawToken =
    | Literal(text: string)
    | Expand(letter: char, urlEscape: bool, digits: nat, reverse: bool, delims: string)

  /** What the macro-string parser lets through: known letters, known delimiters. */
  predicate WellFormed(t: RawToken) {
    t.Expand? ==> t.letter in LETTERS && forall c :: c in t.delims ==> c in DELIMITERS
  }

  type Token = t: RawToken | WellFormed(t) witness Literal("")
  type MacroString = seq<Token>

  /** The values available to an expansion, except the p macro, which needs lookups. */
  datatype Context = Context(
    ip: Addr, sender: string, domain: string, helo: string, receiver: string, ipText: string, time: string)

  const MAX_EXPANSION := 4096

  // ---------------------------------------------------------------- values

  /** The local part of a MAIL FROM; an empty one becomes postmaster. */
  function LocalPart(sender: string): string {
    var i := LastIndex(sender, '@');
    if i <= 0 then "postmaster" else sender[..i]
  }

  function DomainPart(sender: string): string {
    sender[LastIndex(sender, '@') + 1..]
  }

  function Nibbles(b: seq<Octet>): seq<string> {
    if b == [] then [] else [[HEX_DIGITS[b[0] / 16]], [HEX_DIGITS[b[0] % 16]]] + Nibbles(b[1..])
  }

  function Decimals(b: seq<Octet>): seq<string> {
    if b == [] then [] else [Decimal(b[0])] + Decimals(b[1..])
  }

  /** Dotted quad for IPv4, dot-separated nibbles for IPv6. */
  function DottedIP(ip: Addr): string {
    var a := Unmap(ip);
    Join(if a.V4? then Decimals(a.b) else Nibbles(a.b), ".")
  }

  /** The value of a macro letter; p is the validated name of the client. */
  function Value(mc: Context, letter: char, p: string): string {
    match letter
    case 's' => mc.sender
    case 'l' => LocalPart(mc.sender)
    case 'o' => DomainPart(mc.sender)
    case 'd' => mc.domain
    case 'i' => DottedIP(mc.ip)
    case 'p' => p
    case 'v' => if Unmap(mc.ip).V4? then "in-addr" else "ip6"
    case 'h' => mc.helo
    case 'c' => mc.ipText
    case 'r' => if mc.receiver == "" then "unknown" else mc.receiver
    case 't' => mc.time
    case _ => ""
  }

  // ---------------------------------------------------------------- transformers

  function NonEmpty(parts: seq<string>): seq<string> {
    if parts == [] then []
    else if parts[0] == "" then NonEmpty(parts[1..])
    else [parts[0]] + NonEmpty(parts[1..])
  }

  function Reversed<T>(s: seq<T>): (r: seq<T>)
    ensures |r| == |s|
    ensures forall i :: 0 <= i < |s| ==> r[i] == s[|s| - 1 - i]
  {
    if s == [] then [] else Reversed(s[1..]) + [s[0]]
  }

  /** The fields of v: empty fields are kept only when v begins or ends with a delimiter. */
  function Fields(v: string, delims: string): seq<string> {
    var parts := Split(v, delims);
    if v != "" && (v[0] in delims || v[|v| - 1] in delims) then parts else NonEmpty(parts)
  }

  /** The last n parts; all of them when n is zero. */
  function KeepLast(parts: seq<string>, n: nat): seq<string> {
    if 0 < n < |parts| then parts[|parts| - n..] else parts
  }

  function Transform(v: string, t: Token): string
    requires t.Expand?
  {
    if t.digits == 0 && !t.reverse && t.delims == "" then v
    else
      var fields := Fields(v, if t.delims == "" then "." else t.delims);
      Join(KeepLast(if t.reverse then Reversed(fields) else fields, t.digits), ".")
  }

  predicate Unreserved(c: char) {
    IsAlpha(c) || IsDigit(c) || c in "-._~"
  }

  const UPPER_HEX := "0123456789ABCDEF"

  function EscapeChar(c: char): string {
    if Unreserved(c) then [c] else ['%', UPPER_HEX[c as int / 16 % 16], UPPER_HEX[c as int % 16]]
  }

  function UrlEscape(s: string): string {
    if s == "" then "" else EscapeChar(s[0]) + UrlEscape(s[1..])
  }

  // ---------------------------------------------------------------- expansion

  /** What one token contributes. */
  function Piece(t: Token, mc: Context, p: string): string {
    if t.Literal? then t.text
    else
      var v := Transform(Value(mc, t.letter, p), t);
      if t.urlEscape then UrlEscape(v) else v
  }

  function ExpandFrom(m: MacroString, mc: Context, p: string, done: string): string {
    if m == [] then done
    else
      var b := done + Piece(m[0], mc, p);
      if |b| > MAX_EXPANSION then "" else ExpandFrom(m[1..], mc, p, b)
  }

  /** The expansion of m, or "" when it is longer than MAX_EXPANSION. */
  function ExpandSpec(m: MacroString, mc: Context, p: string): string {
    ExpandFrom(m, mc, p, "")
  }

  /** Whether expanding m asks for the p macro before the length bound stops it. */
  predicate AsksFrom(m: MacroString, mc: Context, p: string, done: string) {
    m != []
    && ((m[0].Expand? && m[0].letter == 'p')
        || var b := done + Piece(m[0], mc, p);
           |b| <= MAX_EXPANSION && AsksFrom(m[1..], mc, p, b))
  }

  predicate AsksForP(m: MacroString, mc: Context, p: string) {
    AsksFrom(m, mc, p, "")
  }

  /** Labels are dropped on the left until at most 253 octets are left. */
  function DropLabels(d: string): (r: string)
    ensures |r| <= 253
    ensures |d| <= 253 ==> r == d
  {
    if |d| <= 253 then d
    else if IndexOf(d, '.') < 0 then ""
    else DropLabels(d[IndexOf(d, '.') + 1..])
  }

  function TruncateDomain(d: string): string {
    DropLabels(TrimDot(d))
  }

  // ---------------------------------------------------------------- the loops

  method SplitAny(s: string, delims: string) returns (parts: seq<string>)
    ensures parts == Split(s, delims)
  {
    hide Split;
    parts := [];
    var start := 0;
    for i := 0 to |s|
      invariant 0 <= start <= i
      invariant forall k :: start <= k < i ==> s[k] !in delims
      invariant parts + Split(s[start..], delims) == Split(s, delims)
    {
      if s[i] in delims {
        assert s[start..] == s[start..i] + [s[i]] + s[i + 1..];
        SplitPrefix(s[start..i], s[i], s[i + 1..], delims);
        parts := parts + [s[start..i]];
        start := i + 1;
      }
    }
    SplitPlain(s[start..], delims);
    parts := parts + [s[start..]];
  }

  method Escape(s: string) returns (r: string)
    ensures r == UrlEscape(s)
  {
    r := "";
    for i := 0 to |s|
      invariant r + UrlEscape(s[i..]) == UrlEscape(s)
    {
      r := r + EscapeChar(s[i]);
    }
  }

  method Truncate(domain: string) returns (d: string)
    ensures d == TruncateDomain(domain)
  {
    d := TrimDot(domain);
    while |d| > 253
      invariant DropLabels(d) == TruncateDomain(domain)
    {
      var i := IndexOf(d, '.');
      if i < 0 {
        return "";
      }
      d := d[i + 1..];
    }
  }

  /** Only a p macro depends on the value of the p macro. */
  lemma ValueWithoutP(letter: char, mc: Context, v: string, p: string)
    requires letter == 'p' ==> v == p
    ensures Value(mc, letter, v) == Value(mc, letter, p)
  {
  }

  lemma PieceWithoutP(t: Token, mc: Context, v: string, p: string)
    requires t.Expand? && t.letter == 'p' ==> v == p
    ensures Piece(t, mc, v) == Piece(t, mc, p)
  {
    if t.Expand? {
      ValueWithoutP(t.letter, mc, v, p);
    }
  }

  lemma {:induction false} FromWithoutP(m: MacroString, mc: Context, v: string, p: string, done: string)
    requires !AsksFrom(m, mc, v, done)
    ensures ExpandFrom(m, mc, v, done) == ExpandFrom(m, mc, p, done) && !AsksFrom(m, mc, p, done)
  {
    hide Piece;
    if m != [] {
      PieceWithoutP(m[0], mc, v, p);
      var b := done + Piece(m[0], mc, v);
      if |b| <= MAX_EXPANSION {
        FromWithoutP(m[1..], mc, v, p, b);
      }
    }
  }

  /** An expansion that does not reach a p macro is the same for every value of it, and does
      not reach one for any. */
  lemma ExpansionWithoutP(m: MacroString, mc: Context, v: string, p: string)
    requires !AsksForP(m, mc, v)
    ensures ExpandSpec(m, mc, v) == ExpandSpec(m, mc, p) && !AsksForP(m, mc, p)
  {
    FromWithoutP(m, mc, v, p, "");
  }

  // ---------------------------------------------------------------- letter case

  lemma {:induction false} FoldNonEmpty(a: seq<string>, b: seq<string>)
    requires FoldAll(a, b)
    ensures FoldAll(NonEmpty(a), NonEmpty(b))
  {
    if a != [] {
      FoldNonEmpty(a[1..], b[1..]);
      assert |a[0]| == |Lower(a[0])| == |b[0]|;
    }
  }

  lemma FoldFields(a: string, b: string, delims: string)
    requires EqualFold(a, b)
    requires forall c :: c in delims ==> !IsAlpha(c)
    ensures FoldAll(Fields(a, delims), Fields(b, delims))
  {
    FoldSplit(a, b, delims);
    FoldNonEmpty(Split(a, delims), Split(b, delims));
    assert |a| == |Lower(a)| == |b|;
    if a != "" {
      FoldAt(a, b, 0);
      FoldAt(a, b, |a| - 1);
    }
  }

  lemma FoldKeepLast(a: seq<string>, b: seq<string>, n: nat)
    requires FoldAll(a, b)
    ensures FoldAll(KeepLast(a, n), KeepLast(b, n))
  {
  }

  lemma FoldReversed(a: seq<string>, b: seq<string>)
    requires FoldAll(a, b)
    ensures FoldAll(Reversed(a), Reversed(b))
  {
  }

  lemma DelimitersAreNotLetters(t: Token)
    ensures t.Expand? ==> forall c :: c in (if t.delims == "" then "." else t.delims) ==> !IsAlpha(c)
  {
  }

  lemma FoldTransform(a: string, b: string, t: Token)
    requires t.Expand? && EqualFold(a, b)
    ensures EqualFold(Transform(a, t), Transform(b, t))
  {
    var delims := if t.delims == "" then "." else t.delims;
    DelimitersAreNotLetters(t);
    FoldFields(a, b, delims);
    var fa, fb := Fields(a, delims), Fields(b, delims);
    FoldReversed(fa, fb);
    var pa, pb := if t.reverse then Reversed(fa) else fa, if t.reverse then Reversed(fb) else fb;
    FoldKeepLast(pa, pb, t.digits);
    FoldJoin(KeepLast(pa, t.digits), KeepLast(pb, t.digits), ".");
  }

  lemma {:induction false} FoldEscape(a: string, b: string)
    requires EqualFold(a, b)
    ensures EqualFold(UrlEscape(a), UrlEscape(b))
  {
    assert |a| == |Lower(a)| == |b|;
    if a != "" {
      assert Lower(a[1..]) == Lower(a)[1..] && Lower(b[1..]) == Lower(b)[1..];
      FoldEscape(a[1..], b[1..]);
      FoldAt(a, b, 0);
      assert EqualFold(EscapeChar(a[0]), EscapeChar(b[0]));
      FoldConcat(EscapeChar(a[0]), EscapeChar(b[0]), UrlEscape(a[1..]), UrlEscape(b[1..]));
    }
  }

  /** Every value a token of t can ask for is the same up to letter case. */
  ghost predicate FoldValue(t: Token, mc: Context, p: string, mc': Context, p': string) {
    t.Expand? ==> EqualFold(Value(mc, t.letter, p), Value(mc', t.letter, p'))
  }

  lemma {:induction false} FoldExpandFrom(
      m: MacroString, mc: Context, p: string, mc': Context, p': string, done: string, done': string)
    requires EqualFold(done, done')
    requires forall t :: t in m ==> FoldValue(t, mc, p, mc', p')
    ensures EqualFold(ExpandFrom(m, mc, p, done), ExpandFrom(m, mc', p', done'))
  {
    if m != [] {
      var t := m[0];
      assert t in m && FoldValue(t, mc, p, mc', p');
      if t.Expand? {
        FoldTransform(Value(mc, t.letter, p), Value(mc', t.letter, p'), t);
        FoldEscape(Transform(Value(mc, t.letter, p), t), Transform(Value(mc', t.letter, p'), t));
      }
      var b, b' := done + Piece(t, mc, p), done' + Piece(t, mc', p');
      FoldConcat(done, done', Piece(t, mc, p), Piece(t, mc', p'));
      assert |b| == |Lower(b)| == |Lower(b')| == |b'|;
      FoldExpandFrom(m[1..], mc, p, mc', p', b, b');
    }
  }

  lemma {:induction false} FoldDropLabels(a: string, b: string)
    requires EqualFold(a, b)
    ensures EqualFold(DropLabels(a), DropLabels(b))
    decreases |a|
  {
    assert |a| == |Lower(a)| == |b|;
    forall k | 0 <= k < |a|
      ensures a[k] == '.' <==> b[k] == '.'
    {
      FoldAt(a, b, k);
    }
    IndexFacts(a, '.');
    IndexFacts(b, '.');
    var i := IndexOf(a, '.');
    assert i == IndexOf(b, '.');
    if |a| > 253 && i >= 0 {
      assert Lower(a[i + 1..]) == Lower(a)[i + 1..] && Lower(b[i + 1..]) == Lower(b)[i + 1..];
      FoldDropLabels(a[i + 1..], b[i + 1..]);
    }
  }

  /** Expansion respects letter case: contexts that differ in case only expand a
      domain-spec to domains that differ in case only. */
  lemma FoldExpandSpec(m: MacroString, mc: Context, p: string, mc': Context, p': string)
    requires forall t :: t in m ==> FoldValue(t, mc, p, mc', p')
    ensures EqualFold(TruncateDomain(ExpandSpec(m, mc, p)), TruncateDomain(ExpandSpec(m, mc', p')))
  {
    FoldExpandFrom(m, mc, p, mc', p', "", "");
    FoldTrimDot(ExpandSpec(m, mc, p), ExpandSpec(m, mc', p'));
    FoldDropLabels(TrimDot(ExpandSpec(m, mc, p)), TrimDot(ExpandSpec(m, mc', p')));
  }
}
