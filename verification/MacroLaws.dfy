/** What the transformers of a macro do to a value, part by part (section 7.3 of RFC 7208). */
module MacroLaws {
  import opened Ascii
  import opened Macro

  // ---------------------------------------------------------------- parts

  /** The parts with a delimiter between any two of them. */
  function Interleave(parts: seq<string>, seps: string): string
    requires |parts| == |seps| + 1
  {
    if seps == "" then parts[0] else parts[0] + [seps[0]] + Interleave(parts[1..], seps[1..])
  }

  /** Parts that are not empty and have no delimiter in them. */
  ghost predicate PlainParts(parts: seq<string>, delims: string) {
    forall i :: 0 <= i < |parts| ==> parts[i] != "" && forall c :: c in parts[i] ==> c !in delims
  }

  /** The parts that are kept: the n rightmost, or for a reversed value the n leftmost from
      right to left; all of them without n. */
  function Kept(parts: seq<string>, n: nat, reverse: bool): seq<string> {
    var k := if n == 0 || n > |parts| then |parts| else n;
    seq(k, i requires 0 <= i < k => if reverse then parts[k - 1 - i] else parts[|parts| - k + i])
  }

  lemma {:induction false} SplitInterleaved(parts: seq<string>, seps: string, delims: string)
    requires |parts| == |seps| + 1 && PlainParts(parts, delims) && forall i :: 0 <= i < |seps| ==> seps[i] in delims
    ensures Split(Interleave(parts, seps), delims) == parts
    ensures var v := Interleave(parts, seps); v != "" && v[0] !in delims && v[|v| - 1] !in delims
  {
    hide Split;
    assert parts[0] != "" && parts[0][0] in parts[0] && parts[0][|parts[0]| - 1] in parts[0];
    if seps == "" {
      SplitPlain(parts[0], delims);
      assert [parts[0]] == parts;
    } else {
      SplitInterleaved(parts[1..], seps[1..], delims);
      SplitPrefix(parts[0], seps[0], Interleave(parts[1..], seps[1..]), delims);
      assert [parts[0]] + parts[1..] == parts;
    }
  }

  lemma {:induction false} NothingEmpty(parts: seq<string>)
    requires forall i :: 0 <= i < |parts| ==> parts[i] != ""
    ensures NonEmpty(parts) == parts
  {
    if parts != [] {
      NothingEmpty(parts[1..]);
    }
  }

  lemma {:induction false} DottedIsJoin(parts: seq<string>, seps: string)
    requires |parts| == |seps| + 1 && forall i :: 0 <= i < |seps| ==> seps[i] in "."
    ensures Interleave(parts, seps) == Join(parts, ".")
  {
    if seps != "" {
      assert [seps[0]] == ".";
      DottedIsJoin(parts[1..], seps[1..]);
    }
  }

  lemma KeptIs(parts: seq<string>, n: nat, reverse: bool)
    ensures KeepLast(if reverse then Reversed(parts) else parts, n) == Kept(parts, n, reverse)
  {
  }

  /** For every value made of parts and delimiters, and every digit count: the parts that are
      kept, in their order or the reverse one, with dots between them. */
  lemma TransformIsExact(parts: seq<string>, seps: string, t: Token)
    requires t.Expand? && |parts| == |seps| + 1
    requires var delims := if t.delims == "" then "." else t.delims;
             PlainParts(parts, delims) && forall i :: 0 <= i < |seps| ==> seps[i] in delims
    ensures Transform(Interleave(parts, seps), t) == Join(Kept(parts, t.digits, t.reverse), ".")
  {
    var delims := if t.delims == "" then "." else t.delims;
    SplitInterleaved(parts, seps, delims);
    NothingEmpty(parts);
    KeptIs(parts, t.digits, t.reverse);
    hide Split, Join, Interleave, Kept, KeepLast, Reversed, PlainParts, NonEmpty;
    if t.digits == 0 && !t.reverse && t.delims == "" {
      DottedIsJoin(parts, seps);
      AllKept(parts);
    }
  }

  lemma AllKept(parts: seq<string>)
    ensures Kept(parts, 0, false) == parts
  {
  }

  /** No part has a delimiter in it; parts may be empty. */
  ghost predicate CleanParts(parts: seq<string>, delims: string) {
    forall i, j :: 0 <= i < |parts| && 0 <= j < |parts[i]| ==> parts[i][j] !in delims
  }

  lemma {:induction false} SplitClean(parts: seq<string>, seps: string, delims: string)
    requires |parts| == |seps| + 1 && CleanParts(parts, delims) && forall i :: 0 <= i < |seps| ==> seps[i] in delims
    ensures var v := Interleave(parts, seps);
            && Split(v, delims) == parts
            && (v == "" <==> seps == "" && parts[0] == "")
            && (v != "" ==> (v[0] in delims <==> parts[0] == "") && (v[|v| - 1] in delims <==> parts[|seps|] == ""))
  {
    hide Split;
    if seps == "" {
      SplitPlain(parts[0], delims);
      assert [parts[0]] == parts;
    } else {
      SplitClean(parts[1..], seps[1..], delims);
      SplitPrefix(parts[0], seps[0], Interleave(parts[1..], seps[1..]), delims);
      assert [parts[0]] + parts[1..] == parts;
    }
  }

  /** Empty parts are dropped, the others kept in their order. */
  lemma {:induction false} EmptyPartsGo(a: seq<string>, b: seq<string>)
    ensures NonEmpty(a + [""] + b) == NonEmpty(a + b)
    ensures NonEmpty(a + b) == NonEmpty(a) + NonEmpty(b)
    ensures forall w :: w in NonEmpty(a) ==> w != ""
  {
    if a == [] {
      assert a + [""] + b == [""] + b && a + b == b && ([""] + b)[1..] == b;
    } else {
      assert (a + [""] + b)[1..] == a[1..] + [""] + b && (a + b)[1..] == a[1..] + b;
      EmptyPartsGo(a[1..], b);
    }
  }

  /** For values with empty parts: these are dropped, unless the value begins or ends with a
      delimiter; a macro without any transformer gives the value as it is. */
  lemma TransformWithEmpties(parts: seq<string>, seps: string, t: Token)
    requires t.Expand? && |parts| == |seps| + 1
    requires var delims := if t.delims == "" then "." else t.delims;
             CleanParts(parts, delims) && forall i :: 0 <= i < |seps| ==> seps[i] in delims
    ensures var v := Interleave(parts, seps);
            Transform(v, t) ==
              if t.digits == 0 && !t.reverse && t.delims == "" then v
              else Join(Kept(if seps != "" && (parts[0] == "" || parts[|seps|] == "") then parts else NonEmpty(parts),
                             t.digits, t.reverse), ".")
  {
    var delims := if t.delims == "" then "." else t.delims;
    SplitClean(parts, seps, delims);
    KeptIs(parts, t.digits, t.reverse);
    KeptIs(NonEmpty(parts), t.digits, t.reverse);
    hide Split, Join, Kept, KeepLast, Reversed, CleanParts, NonEmpty;
    if Interleave(parts, seps) != "" && seps == "" {
      assert parts[0] != "";
    }
  }

  function DomainMacro(digits: nat, reverse: bool): Token {
    Expand('d', false, digits, reverse, "")
  }

  function LocalMacro(digits: nat, reverse: bool): Token {
    Expand('l', false, digits, reverse, "-")
  }

  /** What %{d2}, %{dr}, %{d2r}, %{l-}, %{lr-} and %{l1r-} make of email.example.com and of
      strong-bad (section 7.4 of RFC 7208). */
  lemma Examples()
    ensures Transform("email.example.com", DomainMacro(2, false)) == "example.com"
    ensures Transform("email.example.com", DomainMacro(0, true)) == "com.example.email"
    ensures Transform("email.example.com", DomainMacro(2, true)) == "example.email"
    ensures Transform("strong-bad", LocalMacro(0, false)) == "strong.bad"
    ensures Transform("strong-bad", LocalMacro(0, true)) == "bad.strong"
    ensures Transform("strong-bad", LocalMacro(1, true)) == "strong"
  {
    DomainExamples(["email", "example", "com"]);
    LocalExamples(["strong", "bad"]);
  }

  lemma DomainExamples(d: seq<string>)
    requires d == ["email", "example", "com"]
    ensures Transform("email.example.com", DomainMacro(2, false)) == "example.com"
    ensures Transform("email.example.com", DomainMacro(0, true)) == "com.example.email"
    ensures Transform("email.example.com", DomainMacro(2, true)) == "example.email"
  {
    DomainValue(d);
    DomainParts(d);
    hide Interleave, Transform, Join, Kept, PlainParts;
    TransformIsExact(d, "..", DomainMacro(2, false));
    TransformIsExact(d, "..", DomainMacro(0, true));
    TransformIsExact(d, "..", DomainMacro(2, true));
  }

  lemma LocalExamples(l: seq<string>)
    requires l == ["strong", "bad"]
    ensures Transform("strong-bad", LocalMacro(0, false)) == "strong.bad"
    ensures Transform("strong-bad", LocalMacro(0, true)) == "bad.strong"
    ensures Transform("strong-bad", LocalMacro(1, true)) == "strong"
  {
    LocalValue(l);
    LocalParts(l);
    hide Interleave, Transform, Join, Kept, PlainParts;
    TransformIsExact(l, "-", LocalMacro(0, false));
    TransformIsExact(l, "-", LocalMacro(0, true));
    TransformIsExact(l, "-", LocalMacro(1, true));
  }

  lemma DomainValue(d: seq<string>)
    requires d == ["email", "example", "com"]
    ensures Interleave(d, "..") == "email.example.com" && PlainParts(d, ".")
  {
    assert d[1..] == ["example", "com"] && d[1..][1..] == ["com"] && ".."[1..] == "." && "."[1..] == "";
    assert Interleave(["example", "com"], ".") == "example" + "." + "com";
    assert Interleave(d, "..") == "email" + "." + ("example" + "." + "com");
  }

  lemma LocalValue(l: seq<string>)
    requires l == ["strong", "bad"]
    ensures Interleave(l, "-") == "strong-bad" && PlainParts(l, "-")
  {
    assert l[1..] == ["bad"] && "-"[1..] == "";
    assert Interleave(l, "-") == "strong" + "-" + "bad";
  }

  lemma DomainParts(d: seq<string>)
    requires d == ["email", "example", "com"]
    ensures Join(Kept(d, 2, false), ".") == "example.com" && Join(Kept(d, 0, true), ".") == "com.example.email"
    ensures Join(Kept(d, 2, true), ".") == "example.email"
  {
    assert Kept(d, 2, false) == ["example", "com"] && Kept(d, 0, true) == ["com", "example", "email"];
    assert Kept(d, 2, true) == ["example", "email"];
    hide Kept;
    JoinTwo("example", "com");
    JoinTwo("example", "email");
    assert ["com", "example", "email"][1..] == ["example", "email"];
  }

  lemma LocalParts(l: seq<string>)
    requires l == ["strong", "bad"]
    ensures Join(Kept(l, 0, false), ".") == "strong.bad" && Join(Kept(l, 0, true), ".") == "bad.strong"
    ensures Join(Kept(l, 1, true), ".") == "strong"
  {
    assert Kept(l, 0, false) == ["strong", "bad"] && Kept(l, 0, true) == ["bad", "strong"] && Kept(l, 1, true) == ["strong"];
    hide Kept;
    JoinTwo("strong", "bad");
    JoinTwo("bad", "strong");
  }

  lemma JoinTwo(a: string, b: string)
    ensures Join([a, b], ".") == a + "." + b
  {
    assert [a, b][1..] == [b];
  }

  // ---------------------------------------------------------------- values

  /** The values of a sender with both parts. */
  lemma SenderValues(mc: Context, local: string, domain: string, p: string)
    requires mc.sender == local + "@" + domain && '@' !in domain
    ensures Value(mc, 's', p) == mc.sender && Value(mc, 'o', p) == domain
    ensures Value(mc, 'l', p) == if local == "" then "postmaster" else local
    ensures Value(mc, 'd', p) == mc.domain && Value(mc, 'h', p) == mc.helo && Value(mc, 'p', p) == p
    ensures Value(mc, 'c', p) == mc.ipText && Value(mc, 't', p) == mc.time
    ensures Value(mc, 'r', p) == if mc.receiver == "" then "unknown" else mc.receiver
  {
    LastIndexIs(mc.sender, '@', |local|);
  }

  // ---------------------------------------------------------------- escapes

  function HexValue(c: char): nat {
    if '0' <= c <= '9' then c as int - '0' as int
    else if 'A' <= c <= 'F' then c as int - 'A' as int + 10
    else 0
  }

  /** Reading percent pairs. */
  function Unescaped(s: string): string {
    if s == "" then ""
    else if s[0] == '%' && |s| >= 3 then
      [(16 * HexValue(s[1]) + HexValue(s[2])) as char] + Unescaped(s[3..])
    else [s[0]] + Unescaped(s[1..])
  }

  lemma HexPair(c: char)
    requires c < 256 as char
    ensures 16 * HexValue(UPPER_HEX[c as int / 16 % 16]) + HexValue(UPPER_HEX[c as int % 16]) == c as int
  {
    HexDigit(c as int / 16 % 16);
    HexDigit(c as int % 16);
  }

  lemma HexDigit(n: nat)
    requires n < 16
    ensures HexValue(UPPER_HEX[n]) == n
  {
  }

  /** Octets that were escaped are read back, and nothing but the unreserved characters and
      percent signs is left. */
  lemma {:induction false} EscapeRoundTrip(s: string)
    requires forall i :: 0 <= i < |s| ==> s[i] < 256 as char
    ensures Unescaped(UrlEscape(s)) == s
    ensures forall c :: c in UrlEscape(s) ==> c == '%' || IsAlpha(c) || IsDigit(c) || c in "-._~"
  {
    if s != "" {
      EscapeRoundTrip(s[1..]);
      var c, rest := s[0], UrlEscape(s[1..]);
      HexPair(c);
      var e := EscapeChar(c) + rest;
      if Unreserved(c) {
        assert e[1..] == rest && e[0] != '%';
      } else {
        assert e[3..] == rest;
        HexIsPlain(c as int / 16 % 16);
        HexIsPlain(c as int % 16);
      }
    }
  }

  lemma HexIsPlain(n: nat)
    requires n < 16
    ensures IsAlpha(UPPER_HEX[n]) || IsDigit(UPPER_HEX[n])
  {
  }

  // ---------------------------------------------------------------- whole strings

  /** What the tokens contribute, one after the other. */
  function Pieces(m: MacroString, mc: Context, p: string): string {
    if m == [] then "" else Piece(m[0], mc, p) + Pieces(m[1..], mc, p)
  }

  lemma {:induction false} ExpandsFrom(m: MacroString, mc: Context, p: string, done: string)
    requires |done| <= 4096
    ensures ExpandFrom(m, mc, p, done) == if |done + Pieces(m, mc, p)| <= 4096 then done + Pieces(m, mc, p) else ""
  {
    hide Piece;
    if m != [] {
      var b := done + Piece(m[0], mc, p);
      assert done + Pieces(m, mc, p) == b + Pieces(m[1..], mc, p);
      if |b| <= 4096 {
        ExpandsFrom(m[1..], mc, p, b);
      }
    }
  }

  /** A macro string expands to the pieces of its tokens, if they have at most 4096 characters
      in all, and to nothing otherwise. */
  lemma ExpansionIsExact(m: MacroString, mc: Context, p: string)
    ensures ExpandSpec(m, mc, p) == if |Pieces(m, mc, p)| <= 4096 then Pieces(m, mc, p) else ""
  {
    ExpandsFrom(m, mc, p, "");
    assert "" + Pieces(m, mc, p) == Pieces(m, mc, p);
  }

  /** A name begins at k. */
  predicate StartsLabel(d: string, k: nat) {
    k <= |d| && (k == 0 || d[k - 1] == '.')
  }

  /** r is the longest end of d that begins with a label and has at most 253 characters; it is
      empty when there is none. */
  ghost predicate Longest(d: string, r: string) {
    || (r == "" && forall k: nat :: StartsLabel(d, k) ==> |d| - k > 253)
    || (|r| <= |d| && StartsLabel(d, |d| - |r|) && r == d[|d| - |r|..]
        && forall k: nat :: StartsLabel(d, k) && k < |d| - |r| ==> |d| - k > 253)
  }

  /** Beginning with the second label of a name that is too long. */
  lemma LongestOfRest(d: string, i: nat, r: string)
    requires |d| > 253 && i < |d| && d[i] == '.' && (forall k :: 0 <= k < i ==> d[k] != '.') && Longest(d[i + 1..], r)
    ensures Longest(d, r)
  {
    var rest := d[i + 1..];
    forall k: nat | StartsLabel(d, k)
      ensures k == 0 || (k >= i + 1 && StartsLabel(rest, k - i - 1))
    {
      assert k > 0 ==> d[k - 1] == '.';
    }
    assert |r| <= |rest| ==> rest[|rest| - |r|..] == d[|d| - |r|..];
  }

  lemma LongestOfOne(d: string)
    requires |d| > 253 && forall k :: 0 <= k < |d| ==> d[k] != '.'
    ensures Longest(d, "")
  {
  }

  /** What is left of a name is that end of it. */
  lemma {:induction false} DropLabelsIsLongest(d: string)
    ensures Longest(d, DropLabels(d))
    decreases |d|
  {
    if |d| > 253 {
      hide Longest, IndexOf;
      var i := IndexOf(d, '.');
      IndexFacts(d, '.');
      if i >= 0 {
        DropLabelsIsLongest(d[i + 1..]);
        LongestOfRest(d, i, DropLabels(d[i + 1..]));
      } else {
        LongestOfOne(d);
      }
    }
  }
}
