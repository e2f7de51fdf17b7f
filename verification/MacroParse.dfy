/** Parsing macro strings (internal/spf/macro.go; section 7.1 of RFC 7208). What it accepts
    is exactly what the rest of the model calls a macro string and a domain-spec. */
module MacroParse {
  import opened Wrappers
  import opened Ascii
  import opened Names
  import opened Macro

  /** The letters that only an explanation text may use. */
  const EXPLANATION_LETTERS := "crt"

  predicate LetterAllowed(letter: char, explanation: bool) {
    letter in LETTERS && (explanation || letter !in EXPLANATION_LETTERS)
  }

  // ---------------------------------------------------------------- one macro-expand

  /** How many digits s begins with. */
  function DigitRun(s: string): (n: nat)
    ensures n <= |s|
  {
    if s != "" && IsDigit(s[0]) then 1 + DigitRun(s[1..]) else 0
  }

  const MAX_DIGITS := 1000

  /** The number of some digits after n, read until it passes MAX_DIGITS. */
  function Capped(n: nat, s: string): nat
    requires forall i :: 0 <= i < |s| ==> IsDigit(s[i])
    decreases |s|
  {
    if s == "" then n
    else
      assert IsDigit(s[0]);
      var m := 10 * n + (s[0] as int - '0' as int);
      if m > MAX_DIGITS then m else Capped(m, s[1..])
  }

  lemma {:induction false} DigitRunDigits(s: string)
    ensures forall i :: 0 <= i < DigitRun(s) ==> IsDigit(s[i])
    ensures DigitRun(s) < |s| ==> !IsDigit(s[DigitRun(s)])
  {
    if s != "" && IsDigit(s[0]) {
      DigitRunDigits(s[1..]);
    }
  }

  predicate Delimiters(s: string) {
    forall i :: 0 <= i < |s| ==> s[i] in DELIMITERS
  }

  /** What follows the digits of a macro-expand. */
  function ParseTail(letter: char, upper: bool, digits: nat, s: string): Option<Token>
    requires letter in LETTERS
  {
    var reverse := s != "" && (s[0] == 'r' || s[0] == 'R');
    var delims := if reverse then s[1..] else s;
    if Delimiters(delims) then
      var t := Expand(letter, upper, digits, reverse, delims);
      assert WellFormed(t);
      Some(t)
    else None
  }

  /** The text between the braces. */
  function ParseExpand(body: string, explanation: bool): Option<Token> {
    if body == "" || !LetterAllowed(LowerChar(body[0]), explanation) then None
    else
      var rest := body[1..];
      var i := DigitRun(rest);
      DigitRunDigits(rest);
      var n := Capped(0, rest[..i]);
      if i > 0 && n == 0 then None
      else ParseTail(LowerChar(body[0]), 'A' <= body[0] <= 'Z', n, rest[i..])
  }

  method ParseMacroExpand(body: string, explanation: bool) returns (r: Option<Token>)
    ensures r == ParseExpand(body, explanation)
  {
    hide Capped, ParseTail;
    if body == "" {
      return None;
    }
    var letter, upper := LowerChar(body[0]), 'A' <= body[0] <= 'Z';
    if !LetterAllowed(letter, explanation) {
      return None;
    }
    var rest := body[1..];
    var i := 0;
    while i < |rest| && IsDigit(rest[i])
      invariant 0 <= i <= |rest| && DigitRun(rest) == i + DigitRun(rest[i..])
    {
      assert rest[i..][1..] == rest[i + 1..];
      i := i + 1;
    }
    DigitRunDigits(rest);
    hide DigitRun;
    var n := ReadDigits(rest[..i]);
    if i > 0 && n == 0 {
      return None;
    }
    r := ParseMacroTail(letter, upper, n, rest[i..]);
  }

  method ParseMacroTail(letter: char, upper: bool, n: nat, tail: string) returns (r: Option<Token>)
    requires letter in LETTERS
    ensures r == ParseTail(letter, upper, n, tail)
  {
    var rest := tail;
    var reverse := rest != "" && (rest[0] == 'r' || rest[0] == 'R');
    if reverse {
      rest := rest[1..];
    }
    for j := 0 to |rest|
      invariant forall k :: 0 <= k < j ==> rest[k] in DELIMITERS
    {
      if rest[j] !in DELIMITERS {
        return None;
      }
    }
    var t := Expand(letter, upper, n, reverse, rest);
    assert WellFormed(t);
    return Some(t);
  }

  method ReadDigits(s: string) returns (n: nat)
    requires forall i :: 0 <= i < |s| ==> IsDigit(s[i])
    ensures n == Capped(0, s)
  {
    n := 0;
    for i := 0 to |s|
      invariant Capped(n, s[i..]) == Capped(0, s)
    {
      assert s[i..][1..] == s[i + 1..];
      n := 10 * n + (s[i] as int - '0' as int);
      if n > MAX_DIGITS {
        return;
      }
    }
  }

  // ---------------------------------------------------------------- macro strings

  predicate Visible(c: char) {
    '!' <= c <= '~' && c != '%'
  }

  function Flush(lit: string): MacroString {
    if lit == "" then [] else [Literal(lit)]
  }

  function Prepend(front: MacroString, m: Option<MacroString>): Option<MacroString> {
    if m.Some? then Some(front + m.value) else None
  }

  /** What a percent sign and c stand for in a literal. */
  function Unescape(c: char): Option<string> {
    match c
    case '%' => Some("%")
    case '_' => Some(" ")
    case '-' => Some("%20")
    case _ => None
  }

  /** The tokens of s when lit has been collected for the literal in front of it. */
  function Tokens(s: string, lit: string, explanation: bool): Option<MacroString>
    decreases |s|
  {
    if s == "" then Some(Flush(lit))
    else if s[0] != '%' then
      if Visible(s[0]) then Tokens(s[1..], lit + [s[0]], explanation) else None
    else if |s| < 2 then None
    else if s[1] == '{' then
      var end := IndexOf(s[1..], '}');
      if end < 1 then None
      else
        match ParseExpand(s[2..1 + end], explanation)
        case None => None
        case Some(t) => Prepend(Flush(lit) + [t], Tokens(s[2 + end..], "", explanation))
    else
      match Unescape(s[1])
      case None => None
      case Some(text) => Tokens(s[2..], lit + text, explanation)
  }

  function Parse(s: string, explanation: bool): Option<MacroString> {
    Tokens(s, "", explanation)
  }

  lemma LiteralStep(s: string, i: nat, lit: string, explanation: bool)
    requires i < |s| && s[i] != '%'
    ensures Tokens(s[i..], lit, explanation)
         == if Visible(s[i]) then Tokens(s[i + 1..], lit + [s[i]], explanation) else None
  {
    assert s[i..][1..] == s[i + 1..];
  }

  lemma EscapeStep(s: string, i: nat, lit: string, explanation: bool)
    requires i < |s| && s[i] == '%' && (i + 1 < |s| ==> s[i + 1] != '{')
    ensures Tokens(s[i..], lit, explanation)
         == if i + 1 < |s| && Unescape(s[i + 1]).Some? then
              Tokens(s[i + 2..], lit + Unescape(s[i + 1]).value, explanation)
            else None
  {
    hide Unescape;
    assert i + 1 < |s| ==> s[i..][2..] == s[i + 2..];
  }

  lemma ExpandStep(s: string, i: nat, lit: string, explanation: bool)
    requires i + 1 < |s| && s[i] == '%' && s[i + 1] == '{'
    ensures var end := IndexOf(s[i + 1..], '}');
            if end < 1 then Tokens(s[i..], lit, explanation) == None
            else
              var t := ParseExpand(s[i + 2..i + 1 + end], explanation);
              Tokens(s[i..], lit, explanation)
                == if t.None? then None
                   else Prepend(Flush(lit) + [t.value], Tokens(s[i + 2 + end..], "", explanation))
  {
    hide ParseExpand, IndexOf, Prepend;
    assert s[i..][1..] == s[i + 1..];
    var end := IndexOf(s[i + 1..], '}');
    if end >= 1 {
      assert s[i..][2..1 + end] == s[i + 2..i + 1 + end] && s[i..][2 + end..] == s[i + 2 + end..];
    }
  }

  /** The parser has read i characters: out is finished, lit is being collected. */
  ghost predicate Reached(s: string, i: nat, out: MacroString, lit: string, explanation: bool) {
    i <= |s| && Prepend(out, Tokens(s[i..], lit, explanation)) == Parse(s, explanation)
  }

  lemma AtStart(s: string, explanation: bool)
    ensures Reached(s, 0, [], "", explanation)
  {
    PrependNothing(Parse(s, explanation));
    assert s[0..] == s;
  }

  lemma AtEnd(s: string, out: MacroString, lit: string, explanation: bool)
    requires Reached(s, |s|, out, lit, explanation)
    ensures Parse(s, explanation) == Some(out + Flush(lit))
  {
    assert s[|s|..] == "";
  }

  lemma AfterLiteral(s: string, i: nat, out: MacroString, lit: string, explanation: bool)
    requires Reached(s, i, out, lit, explanation) && i < |s| && s[i] != '%'
    ensures if Visible(s[i]) then Reached(s, i + 1, out, lit + [s[i]], explanation) else Parse(s, explanation) == None
  {
    hide Tokens, Parse;
    LiteralStep(s, i, lit, explanation);
  }

  lemma AfterEscape(s: string, i: nat, out: MacroString, lit: string, explanation: bool)
    requires Reached(s, i, out, lit, explanation) && i < |s| && s[i] == '%' && (i + 1 < |s| ==> s[i + 1] != '{')
    ensures if i + 1 < |s| && Unescape(s[i + 1]).Some? then
              Reached(s, i + 2, out, lit + Unescape(s[i + 1]).value, explanation)
            else Parse(s, explanation) == None
  {
    hide Tokens, Parse, Unescape;
    EscapeStep(s, i, lit, explanation);
  }

  lemma AfterExpand(s: string, i: nat, out: MacroString, lit: string, explanation: bool)
    requires Reached(s, i, out, lit, explanation) && i + 1 < |s| && s[i] == '%' && s[i + 1] == '{'
    ensures var end := IndexOf(s[i + 1..], '}');
            if end < 1 then Parse(s, explanation) == None
            else
              var t := ParseExpand(s[i + 2..i + 1 + end], explanation);
              if t.None? then Parse(s, explanation) == None
              else Reached(s, i + 2 + end, out + (Flush(lit) + [t.value]), "", explanation)
  {
    hide Tokens, Parse, ParseExpand, IndexOf, Flush;
    ExpandStep(s, i, lit, explanation);
    var end := IndexOf(s[i + 1..], '}');
    if end >= 1 {
      var t := ParseExpand(s[i + 2..i + 1 + end], explanation);
      if t.Some? {
        PrependTwice(out, Flush(lit) + [t.value], Tokens(s[i + 2 + end..], "", explanation));
      }
    }
  }

  method ParseMacroString(s: string, explanation: bool) returns (r: Option<MacroString>)
    ensures r == Parse(s, explanation)
  {
    hide Reached, Parse, ParseExpand, IndexOf, Flush, Visible;
    var out: MacroString, lit := [], "";
    var i := 0;
    AtStart(s, explanation);
    while i < |s|
      invariant 0 <= i <= |s| && Reached(s, i, out, lit, explanation)
    {
      var c := s[i];
      if c != '%' {
        AfterLiteral(s, i, out, lit, explanation);
        if !Visible(c) {
          return None;
        }
        lit := lit + [c];
        i := i + 1;
      } else if i + 1 < |s| && s[i + 1] == '{' {
        AfterExpand(s, i, out, lit, explanation);
        var end := IndexOf(s[i + 1..], '}');
        if end < 1 {
          return None;
        }
        var t := ParseMacroExpand(s[i + 2..i + 1 + end], explanation);
        if t.None? {
          return None;
        }
        out, lit, i := out + (Flush(lit) + [t.value]), "", i + 2 + end;
      } else {
        AfterEscape(s, i, out, lit, explanation);
        if i + 1 >= |s| {
          return None;
        }
        match s[i + 1] {
          case '%' => lit := lit + "%";
          case '_' => lit := lit + " ";
          case '-' => lit := lit + "%20";
          case _ => return None;
        }
        i := i + 2;
      }
    }
    AtEnd(s, out, lit, explanation);
    return Some(out + Flush(lit));
  }

  lemma PrependNothing(m: Option<MacroString>)
    ensures Prepend([], m) == m
  {
    if m.Some? {
      assert [] + m.value == m.value;
    }
  }

  lemma PrependTwice(a: MacroString, b: MacroString, m: Option<MacroString>)
    ensures Prepend(a, Prepend(b, m)) == Prepend(a + b, m)
  {
    if m.Some? {
      assert a + (b + m.value) == a + b + m.value;
    }
  }

  // ---------------------------------------------------------------- printing

  function EscapeText(c: char): string {
    if c == '%' then "%%" else if c == ' ' then "%_" else [c]
  }

  function PrintText(text: string): string {
    if text == "" then "" else EscapeText(text[0]) + PrintText(text[1..])
  }

  function UpperChar(c: char): char {
    if 'a' <= c <= 'z' then (c as int - 32) as char else c
  }

  function PrintDigits(n: nat): string {
    if n == 0 then "" else Decimal(n)
  }

  /** What stands between the braces. */
  function PrintBody(t: Token): string
    requires t.Expand?
  {
    [if t.urlEscape then UpperChar(t.letter) else t.letter]
    + PrintDigits(t.digits) + PrintTail(t.reverse, t.delims)
  }

  function PrintTail(reverse: bool, delims: string): string {
    (if reverse then "r" else "") + delims
  }

  function PrintToken(t: Token): string {
    if t.Literal? then PrintText(t.text) else "%{" + PrintBody(t) + "}"
  }

  function Print(m: MacroString): string {
    if m == [] then "" else PrintToken(m[0]) + Print(m[1..])
  }

  /** The largest number that reading digits up to MAX_DIGITS can end with. */
  const LARGEST_DIGITS := 10009

  predicate TextChar(c: char) {
    ' ' <= c <= '~'
  }

  predicate TextOk(text: string) {
    forall i :: 0 <= i < |text| ==> TextChar(text[i])
  }

  predicate TokenOk(t: Token, explanation: bool) {
    match t
    case Literal(text) => text != "" && TextOk(text)
    case Expand(letter, _, digits, _, _) => LetterAllowed(letter, explanation) && digits <= LARGEST_DIGITS
  }

  /** Nonempty literals of printable characters, no two of them next to each other, and
      expansions with allowed letters. */
  ghost predicate Canonical(m: MacroString, explanation: bool) {
    m == []
    || (TokenOk(m[0], explanation) && (m[0].Literal? && |m| > 1 ==> m[1].Expand?) && Canonical(m[1..], explanation))
  }

  // ---------------------------------------------------------------- what was printed is read back

  lemma {:induction false} CappedSnoc(n: nat, a: string, d: char)
    requires n <= MAX_DIGITS && IsDigit(d) && forall i :: 0 <= i < |a| ==> IsDigit(a[i])
    ensures forall i :: 0 <= i < |a + [d]| ==> IsDigit((a + [d])[i])
    ensures var r := Capped(n, a);
            Capped(n, a + [d]) == if r <= MAX_DIGITS then 10 * r + (d as int - '0' as int) else r
    decreases |a|
  {
    if a == "" {
      assert (a + [d])[1..] == "";
    } else {
      var m := 10 * n + (a[0] as int - '0' as int);
      assert (a + [d])[1..] == a[1..] + [d];
      if m <= MAX_DIGITS {
        CappedSnoc(m, a[1..], d);
      }
    }
  }

  lemma {:induction false} CappedDecimal(n: nat)
    requires n <= LARGEST_DIGITS
    ensures Capped(0, Decimal(n)) == n
  {
    if n < 10 {
      assert Decimal(n)[1..] == "";
    } else {
      CappedDecimal(n / 10);
      CappedSnoc(0, Decimal(n / 10), Digit(n % 10));
    }
  }

  lemma {:induction false} CappedBound(n: nat, s: string)
    requires n <= MAX_DIGITS && forall i :: 0 <= i < |s| ==> IsDigit(s[i])
    ensures Capped(n, s) <= LARGEST_DIGITS
    decreases |s|
  {
    if s != "" {
      var m := 10 * n + (s[0] as int - '0' as int);
      if m <= MAX_DIGITS {
        CappedBound(m, s[1..]);
      }
    }
  }

  lemma {:induction false} DigitRunIs(ds: string, rest: string)
    requires forall i :: 0 <= i < |ds| ==> IsDigit(ds[i])
    requires rest == "" || !IsDigit(rest[0])
    ensures DigitRun(ds + rest) == |ds|
  {
    if ds == "" {
      assert ds + rest == rest;
    } else {
      assert (ds + rest)[1..] == ds[1..] + rest;
      DigitRunIs(ds[1..], rest);
    }
  }

  lemma TailPrinted(t: Token)
    requires t.Expand?
    ensures ParseTail(t.letter, t.urlEscape, t.digits, PrintTail(t.reverse, t.delims)) == Some(t)
    ensures var tail := PrintTail(t.reverse, t.delims); tail == "" || !IsDigit(tail[0])
    ensures '}' !in PrintTail(t.reverse, t.delims)
  {
    var tail := PrintTail(t.reverse, t.delims);
    assert Delimiters(t.delims);
    if t.reverse {
      assert tail[1..] == t.delims;
    } else {
      assert tail == t.delims;
    }
    DelimiterIsPlain(t.delims);
    hide Delimiters;
  }

  lemma DelimiterIsPlain(delims: string)
    requires Delimiters(delims)
    ensures delims != "" ==> !IsDigit(delims[0]) && delims[0] != 'r' && delims[0] != 'R'
    ensures '}' !in delims
  {
    assert delims != "" ==> delims[0] in DELIMITERS;
  }

  lemma LetterPrinted(letter: char, upper: bool)
    requires letter in LETTERS
    ensures var c := if upper then UpperChar(letter) else letter;
            LowerChar(c) == letter && ('A' <= c <= 'Z' <==> upper) && c != '}'
  {
  }

  lemma DigitsPrinted(n: nat, tail: string)
    requires n <= LARGEST_DIGITS && (tail == "" || !IsDigit(tail[0]))
    ensures var ds := PrintDigits(n);
            && DigitRun(ds + tail) == |ds| && (ds + tail)[..|ds|] == ds && (ds + tail)[|ds|..] == tail
            && (forall i :: 0 <= i < |ds| ==> IsDigit(ds[i])) && (ds == "" <==> n == 0) && Capped(0, ds) == n
  {
    DigitRunIs(PrintDigits(n), tail);
    if n > 0 {
      CappedDecimal(n);
    }
  }

  lemma ExpandParts(letter: char, upper: bool, n: nat, tail: string, explanation: bool)
    requires LetterAllowed(letter, explanation) && n <= LARGEST_DIGITS && (tail == "" || !IsDigit(tail[0]))
    ensures var c := if upper then UpperChar(letter) else letter;
            ParseExpand([c] + PrintDigits(n) + tail, explanation) == ParseTail(letter, upper, n, tail)
  {
    LetterPrinted(letter, upper);
    DigitsPrinted(n, tail);
    hide ParseTail, PrintDigits, UpperChar, LowerChar, DigitRun, Capped;
    var c := if upper then UpperChar(letter) else letter;
    var rest := PrintDigits(n) + tail;
    assert ([c] + PrintDigits(n) + tail)[1..] == rest;
  }

  lemma BodyPrinted(t: Token, explanation: bool)
    requires t.Expand? && TokenOk(t, explanation)
    ensures ParseExpand(PrintBody(t), explanation) == Some(t) && '}' !in PrintBody(t)
  {
    hide ParseExpand, ParseTail, PrintTail, PrintDigits, UpperChar, LowerChar, IsDigit;
    LetterPrinted(t.letter, t.urlEscape);
    TailPrinted(t);
    NoBrace(t.digits);
    ExpandParts(t.letter, t.urlEscape, t.digits, PrintTail(t.reverse, t.delims), explanation);
  }

  lemma NoBrace(n: nat)
    ensures '}' !in PrintDigits(n)
  {
  }

  /** A printed literal is collected as it was. */
  lemma {:induction false} TextPrinted(text: string, rest: string, lit: string, explanation: bool)
    requires TextOk(text)
    ensures Tokens(PrintText(text) + rest, lit, explanation) == Tokens(rest, lit + text, explanation)
    decreases |text|
  {
    hide Tokens, EscapeText;
    if text == "" {
      assert PrintText(text) + rest == rest && lit + text == lit;
    } else {
      assert TextChar(text[0]);
      var more := PrintText(text[1..]) + rest;
      assert PrintText(text) + rest == EscapeText(text[0]) + more;
      CharPrinted(text[0], more, lit, explanation);
      TextPrinted(text[1..], rest, lit + [text[0]], explanation);
      assert lit + [text[0]] + text[1..] == lit + text;
    }
  }

  lemma CharPrinted(c: char, rest: string, lit: string, explanation: bool)
    requires TextChar(c)
    ensures Tokens(EscapeText(c) + rest, lit, explanation) == Tokens(rest, lit + [c], explanation)
  {
    var s := EscapeText(c) + rest;
    if c == '%' || c == ' ' {
      assert s[2..] == rest && Unescape(s[1]) == Some([c]);
    } else {
      assert s[1..] == rest;
    }
  }

  lemma Braces(body: string, rest: string)
    requires '}' !in body
    ensures var s := "%{" + body + "}" + rest;
            && s[0] == '%' && s[1] == '{' && IndexOf(s[1..], '}') == 1 + |body|
            && s[2..2 + |body|] == body && s[3 + |body|..] == rest
  {
    var s := "%{" + body + "}" + rest;
    IndexIs("{" + body, '}', rest);
    assert s[1..] == "{" + body + ['}'] + rest;
  }

  lemma TokenPrinted(t: Token, rest: string, lit: string, explanation: bool)
    requires t.Expand? && TokenOk(t, explanation)
    ensures Tokens(PrintToken(t) + rest, lit, explanation) == Prepend(Flush(lit) + [t], Tokens(rest, "", explanation))
  {
    hide PrintBody, ParseExpand, Prepend, IndexOf, Tokens, TokenOk, Flush;
    BodyPrinted(t, explanation);
    BracesRead(PrintBody(t), t, rest, lit, explanation);
  }

  lemma BracesRead(body: string, t: Token, rest: string, lit: string, explanation: bool)
    requires '}' !in body && ParseExpand(body, explanation) == Some(t)
    ensures Tokens("%{" + body + "}" + rest, lit, explanation) == Prepend(Flush(lit) + [t], Tokens(rest, "", explanation))
  {
    hide ParseExpand, Prepend, IndexOf, Tokens, Flush;
    Braces(body, rest);
    var s := "%{" + body + "}" + rest;
    ExpandStep(s, 0, lit, explanation);
    assert s[0..] == s;
  }

  lemma {:induction false} TokensPrinted(m: MacroString, lit: string, explanation: bool)
    requires Canonical(m, explanation) && (lit != "" && m != [] ==> m[0].Expand?)
    ensures Tokens(Print(m), lit, explanation) == Some(Flush(lit) + m)
  {
    if m == [] {
      assert Flush(lit) + m == Flush(lit);
    } else {
      var t, rest := m[0], Print(m[1..]);
      hide PrintToken, PrintBody, Flush, Tokens;
      if t.Literal? {
        LiteralFirst(t, rest, explanation);
        TokensPrinted(m[1..], t.text, explanation);
      } else {
        TokenPrinted(t, rest, lit, explanation);
        TokensPrinted(m[1..], "", explanation);
      }
      Rejoin(m, lit);
    }
  }

  lemma LiteralFirst(t: Token, rest: string, explanation: bool)
    requires t.Literal? && TokenOk(t, explanation)
    ensures Tokens(PrintToken(t) + rest, "", explanation) == Tokens(rest, t.text, explanation)
  {
    TextPrinted(t.text, rest, "", explanation);
    assert "" + t.text == t.text;
  }

  lemma Rejoin(m: MacroString, lit: string)
    requires m != []
    ensures Flush("") + m[1..] == m[1..] && Flush("") + m == m
    ensures Flush(lit) + [m[0]] + m[1..] == Flush(lit) + m
    ensures m[0].Literal? && m[0].text != "" ==> Flush(m[0].text) + m[1..] == m
  {
  }

  // ---------------------------------------------------------------- what is accepted is canonical

  lemma ExpandIsOk(body: string, explanation: bool)
    requires ParseExpand(body, explanation).Some?
    ensures var t := ParseExpand(body, explanation).value; t.Expand? && TokenOk(t, explanation)
  {
    var rest := body[1..];
    DigitRunDigits(rest);
    CappedBound(0, rest[..DigitRun(rest)]);
  }

  lemma CanonicalFront(lit: string, m: MacroString, explanation: bool)
    requires TextOk(lit) && Canonical(m, explanation) && (m == [] || m[0].Expand?)
    ensures Canonical(Flush(lit) + m, explanation)
  {
    if lit != "" {
      assert (Flush(lit) + m)[1..] == m;
    } else {
      assert Flush(lit) + m == m;
    }
  }

  lemma {:induction false} TokensAreCanonical(s: string, lit: string, explanation: bool)
    requires TextOk(lit) && Tokens(s, lit, explanation).Some?
    ensures Canonical(Tokens(s, lit, explanation).value, explanation)
    decreases |s|
  {
    hide ParseExpand, Canonical, IndexOf, Flush, TokenOk;
    if s == "" {
      CanonicalEnd(lit, explanation);
    } else if s[0] != '%' {
      TokensAreCanonical(s[1..], lit + [s[0]], explanation);
    } else if s[1] == '{' {
      var end := IndexOf(s[1..], '}');
      var t := ParseExpand(s[2..1 + end], explanation).value;
      ExpandIsOk(s[2..1 + end], explanation);
      TokensAreCanonical(s[2 + end..], "", explanation);
      var rest := Tokens(s[2 + end..], "", explanation).value;
      CanonicalNext(lit, t, rest, explanation);
    } else {
      TokensAreCanonical(s[2..], lit + Unescape(s[1]).value, explanation);
    }
  }

  lemma CanonicalEnd(lit: string, explanation: bool)
    requires TextOk(lit)
    ensures Canonical(Flush(lit), explanation)
  {
    CanonicalFront(lit, [], explanation);
    assert Flush(lit) + [] == Flush(lit);
  }

  lemma CanonicalNext(lit: string, t: Token, rest: MacroString, explanation: bool)
    requires TextOk(lit) && t.Expand? && TokenOk(t, explanation) && Canonical(rest, explanation)
    ensures Canonical(Flush(lit) + [t] + rest, explanation)
  {
    assert ([t] + rest)[1..] == rest;
    CanonicalFront(lit, [t] + rest, explanation);
    assert Flush(lit) + [t] + rest == Flush(lit) + ([t] + rest);
  }

  /** The canonical macro strings are exactly what the parser produces, and printing one
      gives a text that is parsed back to it. */
  lemma ParseIsOntoCanonical(m: MacroString, explanation: bool)
    ensures Canonical(m, explanation) <==> exists s :: Parse(s, explanation) == Some(m)
    ensures Canonical(m, explanation) ==> Parse(Print(m), explanation) == Some(m)
  {
    hide Canonical, Print, Tokens, Flush;
    if Canonical(m, explanation) {
      CanonicalIsParsed(m, explanation);
    }
    forall s | Parse(s, explanation) == Some(m)
      ensures Canonical(m, explanation)
    {
      TokensAreCanonical(s, "", explanation);
    }
  }

  lemma CanonicalIsParsed(m: MacroString, explanation: bool)
    requires Canonical(m, explanation)
    ensures Parse(Print(m), explanation) == Some(m)
  {
    hide Canonical, Print, Tokens;
    TokensPrinted(m, "", explanation);
    assert Flush("") + m == m;
  }

  /** Parsing, printing and parsing again changes nothing. */
  lemma PrintingIsNormal(s: string, explanation: bool)
    requires Parse(s, explanation).Some?
    ensures Parse(Print(Parse(s, explanation).value), explanation) == Parse(s, explanation)
  {
    ParseIsOntoCanonical(Parse(s, explanation).value, explanation);
  }

  // ---------------------------------------------------------------- domain-specs

  predicate LabelChar(c: char) {
    IsAlpha(c) || IsDigit(c) || c == '-'
  }

  predicate HasHyphen(s: string) {
    '-' in s
  }

  predicate HasAlpha(s: string) {
    exists i :: 0 <= i < |s| && IsAlpha(s[i])
  }

  /** toplabel: with a hyphen, which is neither first nor last, or else with a letter. */
  predicate TopLabel(s: string) {
    && 1 <= |s| <= 63 && (forall i :: 0 <= i < |s| ==> LabelChar(s[i]))
    && if HasHyphen(s) then s[0] != '-' && s[|s| - 1] != '-' else HasAlpha(s)
  }

  method ValidTopLabel(s: string) returns (ok: bool)
    ensures ok == TopLabel(s)
  {
    if s == "" || |s| > 63 {
      return false;
    }
    var hasAlpha, hasHyphen := false, false;
    for i := 0 to |s|
      invariant forall k :: 0 <= k < i ==> LabelChar(s[k])
      invariant hasAlpha == exists k :: 0 <= k < i && IsAlpha(s[k])
      invariant hasHyphen == ('-' in s[..i])
    {
      var c := s[i];
      assert s[..i + 1] == s[..i] + [c];
      if IsAlpha(c) {
        hasAlpha := true;
      } else if IsDigit(c) {
      } else if c == '-' {
        hasHyphen := true;
      } else {
        assert !LabelChar(s[i]);
        return false;
      }
    }
    assert s[..|s|] == s;
    if hasHyphen {
      return s[0] != '-' && s[|s| - 1] != '-';
    }
    return hasAlpha;
  }

  /** The end of a domain-spec that does not end in a macro. */
  function TextEnd(text: string): Option<string> {
    var t := TrimDot(text);
    var i := LastIndex(t, '.');
    if i < 0 || HasSuffix(t[..i], ".") then None else Some(t[i + 1..])
  }

  /** The text ends in a dot and a last label, perhaps with a final dot. */
  ghost predicate EndsInLabel(text: string, front: string, top: string) {
    && (text == front + "." + top || text == front + "." + top + ".")
    && !HasSuffix(front, ".") && top != "" && '.' !in top
  }

  ghost predicate EndsInTopLabel(text: string) {
    exists front, top :: EndsInLabel(text, front, top) && TopLabel(top)
  }

  lemma TextEndIs(text: string, front: string, top: string)
    requires EndsInLabel(text, front, top)
    ensures TextEnd(text) == Some(top)
  {
    var t := front + "." + top;
    assert t[|t| - 1] == top[|top| - 1];
    assert TrimDot(text) == t;
    LastIndexIs(t, '.', |front|);
    assert t[..|front|] == front && t[|front| + 1..] == top;
  }

  lemma TextEndFound(text: string) returns (front: string)
    requires TextEnd(text).Some? && TextEnd(text).value != ""
    ensures EndsInLabel(text, front, TextEnd(text).value)
  {
    var t := TrimDot(text);
    var i := LastIndex(t, '.');
    LastIndexFacts(t, '.');
    front := t[..i];
    var top := t[i + 1..];
    assert t == front + "." + top;
    assert text == t || text == t + ".";
    assert top[|top| - 1] == t[|t| - 1];
  }

  /** validDomainEnd */
  predicate ValidDomainEnd(m: MacroString) {
    m != [] && var last := m[|m| - 1];
    last.Expand? || (TextEnd(last.text).Some? && TopLabel(TextEnd(last.text).value))
  }

  /** A macro string may end a domain-spec if and only if it ends in a macro, or in a dot
      and a toplabel with no second dot before that one. */
  lemma DomainEndIsExact(m: MacroString)
    ensures ValidDomainEnd(m) <==>
            m != [] && (m[|m| - 1].Expand? || EndsInTopLabel(m[|m| - 1].text))
  {
    if m != [] && m[|m| - 1].Literal? {
      var text := m[|m| - 1].text;
      if ValidDomainEnd(m) {
        var front := TextEndFound(text);
      }
      forall front, top | EndsInLabel(text, front, top) && TopLabel(top)
        ensures ValidDomainEnd(m)
      {
        TextEndIs(text, front, top);
      }
    }
  }

  /** setDomain: the domain-spec of a term, or none if the text is not one. */
  function DomainSpecOf(s: string): Option<MacroString> {
    match Parse(s, false)
    case None => None
    case Some(m) => if ValidDomainEnd(m) then Some(m) else None
  }

  /** Every domain-spec the record parser lets through is one in the sense of the terms
      that the evaluator and the analyzer work on. */
  lemma AcceptedIsDomainSpec(s: string)
    requires DomainSpecOf(s).Some?
    ensures forall t :: t in DomainSpecOf(s).value && t.Expand? ==> t.letter !in EXPLANATION_LETTERS
  {
    TokensAreCanonical(s, "", false);
    CanonicalLetters(DomainSpecOf(s).value);
  }

  lemma {:induction false} CanonicalLetters(m: MacroString)
    requires Canonical(m, false)
    ensures forall t :: t in m && t.Expand? ==> t.letter !in EXPLANATION_LETTERS
  {
    if m != [] {
      CanonicalLetters(m[1..]);
    }
  }
}
