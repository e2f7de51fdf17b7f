/** The macro string "%{ir}.%{v}.arpa" against the resolver's own reverse names. */
module ReverseMacro {
  import opened Ascii
  import opened Names
  import opened Macro

  /** The parts of a dotted address, in order. */
  function Parts(a: Addr): seq<string> {
    if a.V4? then Decimals(a.b) else Nibbles(a.b)
  }

  ghost predicate PlainParts(parts: seq<string>) {
    forall k :: 0 <= k < |parts| ==> parts[k] != "" && '.' !in parts[k]
  }

  lemma {:induction false} DecimalsSnoc(b: seq<Octet>, o: Octet)
    ensures Decimals(b + [o]) == Decimals(b) + [Decimal(o)]
  {
    if b == [] {
      assert (b + [o])[1..] == [];
    } else {
      assert (b + [o])[1..] == b[1..] + [o];
      DecimalsSnoc(b[1..], o);
    }
  }

  lemma {:induction false} NibblesSnoc(b: seq<Octet>, o: Octet)
    ensures Nibbles(b + [o]) == Nibbles(b) + [[HEX_DIGITS[o / 16]], [HEX_DIGITS[o % 16]]]
  {
    if b == [] {
      assert (b + [o])[1..] == [];
    } else {
      assert (b + [o])[1..] == b[1..] + [o];
      NibblesSnoc(b[1..], o);
      var first, last := [[HEX_DIGITS[b[0] / 16]], [HEX_DIGITS[b[0] % 16]]], [[HEX_DIGITS[o / 16]], [HEX_DIGITS[o % 16]]];
      assert Nibbles(b + [o]) == first + (Nibbles(b[1..]) + last);
    }
  }

  lemma {:induction false} ReversedSnoc<T>(s: seq<T>, x: T)
    ensures Reversed(s + [x]) == [x] + Reversed(s)
  {
  }

  /** The parts from last to first, each followed by a dot. */
  function Dotted(parts: seq<string>): string {
    if parts == [] then "" else Join(Reversed(parts), ".") + "."
  }

  lemma {:induction false} DottedSnoc(parts: seq<string>, x: string)
    ensures Dotted(parts + [x]) == x + "." + Dotted(parts)
  {
    ReversedSnoc(parts, x);
    assert ([x] + Reversed(parts))[1..] == Reversed(parts);
  }

  lemma DigitsArePlain(s: string)
    requires forall i :: 0 <= i < |s| ==> IsDigit(s[i])
    ensures '.' !in s
  {
  }

  lemma {:induction false} DecimalsPlain(b: seq<Octet>)
    ensures PlainParts(Decimals(b)) && |Decimals(b)| == |b|
  {
    if b != [] {
      DecimalsPlain(b[1..]);
      DigitsArePlain(Decimal(b[0]));
    }
  }

  lemma HexDigitPlain(n: nat)
    requires n < 16
    ensures HEX_DIGITS[n] != '.'
  {
  }

  lemma {:induction false} NibblesPlain(b: seq<Octet>)
    ensures PlainParts(Nibbles(b)) && |Nibbles(b)| == 2 * |b|
  {
    if b != [] {
      NibblesPlain(b[1..]);
      HexDigitPlain(b[0] / 16);
      HexDigitPlain(b[0] % 16);
    }
  }

  lemma {:induction false} NonEmptyPlain(parts: seq<string>)
    requires PlainParts(parts)
    ensures NonEmpty(parts) == parts
  {
    if parts != [] {
      NonEmptyPlain(parts[1..]);
      assert [parts[0]] + parts[1..] == parts;
    }
  }

  lemma {:induction false} DottedDecimals(b: seq<Octet>)
    ensures Dotted(Decimals(b)) == ReverseLabels(b, OctetLabel)
  {
    if b != [] {
      var init, last := b[..|b| - 1], b[|b| - 1];
      assert b == init + [last];
      DecimalsSnoc(init, last);
      DottedSnoc(Decimals(init), Decimal(last));
      DottedDecimals(init);
    }
  }

  lemma {:induction false} DottedNibbles(b: seq<Octet>)
    ensures Dotted(Nibbles(b)) == ReverseLabels(b, NibbleLabels)
  {
    if b != [] {
      var init, last := b[..|b| - 1], b[|b| - 1];
      assert b == init + [last];
      NibblesSnoc(init, last);
      DottedTwo(Nibbles(init), HEX_DIGITS[last / 16], HEX_DIGITS[last % 16]);
      DottedNibbles(init);
    }
  }

  lemma DottedTwo(parts: seq<string>, high: char, low: char)
    ensures Dotted(parts + [[high], [low]]) == [low, '.', high, '.'] + Dotted(parts)
  {
    DottedSnoc(parts, [high]);
    DottedSnoc(parts + [[high]], [low]);
    assert parts + [[high]] + [[low]] == parts + [[high], [low]];
  }

  lemma DecimalShort(o: Octet)
    ensures |Decimal(o)| <= 3
  {
    assert Decimal(o) == if o < 10 then [Digit(o)] else Decimal(o / 10) + [Digit(o % 10)];
    assert o >= 10 ==> |Decimal(o / 10)| <= 2;
  }

  lemma {:induction false} ReverseLabelsShort(b: seq<Octet>, show: Octet -> string)
    requires forall o: Octet :: |show(o)| <= 4
    ensures |ReverseLabels(b, show)| <= 4 * |b|
  {
    if b != [] {
      ReverseLabelsShort(b[..|b| - 1], show);
    }
  }

  /** The reversed dotted form of an address is the front of its reverse name. */
  lemma ReversedParts(a: Addr)
    ensures Dotted(Parts(a)) == Labels(a) && |Labels(a)| <= 64 && Parts(a) != []
  {
    forall o: Octet ensures |OctetLabel(o)| <= 4 {
      DecimalShort(o);
    }
    if a.V4? {
      DecimalsPlain(a.b);
      DottedDecimals(a.b);
      ReverseLabelsShort(a.b, OctetLabel);
    } else {
      NibblesPlain(a.b);
      DottedNibbles(a.b);
      ReverseLabelsShort(a.b, NibbleLabels);
    }
  }

  lemma ReverseTransform(ip: Addr)
    ensures Transform(DottedIP(ip), Expand('i', false, 0, true, "")) == Join(Reversed(Parts(Unmap(ip))), ".")
  {
    var a := Unmap(ip);
    DecimalsPlain(a.b);
    NibblesPlain(a.b);
    SplitJoin(Parts(a), '.');
    NonEmptyPlain(Parts(a));
  }

  lemma ExpandStep(m: MacroString, mc: Context, p: string, done: string)
    requires m != [] && |done + Piece(m[0], mc, p)| <= MAX_EXPANSION
    ensures ExpandFrom(m, mc, p, done) == ExpandFrom(m[1..], mc, p, done + Piece(m[0], mc, p))
  {
  }

  lemma ExpandFour(a: Token, b: Token, c: Token, d: Token, mc: Context, p: string)
    requires |Piece(a, mc, p)| + |Piece(b, mc, p)| + |Piece(c, mc, p)| + |Piece(d, mc, p)| <= MAX_EXPANSION
    ensures ExpandSpec([a, b, c, d], mc, p) == Piece(a, mc, p) + Piece(b, mc, p) + Piece(c, mc, p) + Piece(d, mc, p)
  {
    var pa, pb, pc, pd := Piece(a, mc, p), Piece(b, mc, p), Piece(c, mc, p), Piece(d, mc, p);
    assert [a, b, c, d][1..] == [b, c, d] && [b, c, d][1..] == [c, d] && [c, d][1..] == [d] && [d][1..] == [];
    ExpandStep([a, b, c, d], mc, p, "");
    assert "" + pa == pa;
    ExpandStep([b, c, d], mc, p, pa);
    ExpandStep([c, d], mc, p, pa + pb);
    ExpandStep([d], mc, p, pa + pb + pc);
  }

  const IR: Token := Expand('i', false, 0, true, "")
  const V: Token := Expand('v', false, 0, false, "")

  lemma AddressPiece(mc: Context, p: string)
    ensures Piece(IR, mc, p) == Join(Reversed(Parts(Unmap(mc.ip))), ".")
  {
    hide Transform, DottedIP, Parts, Join;
    ReverseTransform(mc.ip);
  }

  lemma VersionPiece(mc: Context, p: string)
    ensures |Piece(V, mc, p)| <= 7
    ensures Piece(V, mc, p) + ".arpa." == if Unmap(mc.ip).V4? then "in-addr.arpa." else "ip6.arpa."
  {
  }

  /** The labels of an address, in front of the name of its family. */
  function Labels(a: Addr): string {
    if a.V4? then ReverseLabels(a.b, OctetLabel) else ReverseLabels(a.b, NibbleLabels)
  }

  lemma Assemble(ip: Addr, front: string, version: string)
    requires front + "." == Labels(Unmap(ip))
    requires version + ".arpa." == if Unmap(ip).V4? then "in-addr.arpa." else "ip6.arpa."
    ensures front + "." + version + ".arpa" + "." == ReverseNameSpec(ip)
  {
    hide ReverseLabels;
    assert version + ".arpa" + "." == version + ".arpa.";
    assert front + "." + version + ".arpa" + "." == (front + ".") + (version + ".arpa.");
  }

  /** For every client address, expanding "%{ir}.%{v}.arpa" gives the name the
      resolver asks for the PTR records of that address, less its final dot. */
  lemma ReverseSpecIsReverseName(mc: Context, p: string)
    ensures ExpandSpec([IR, Literal("."), V, Literal(".arpa")], mc, p) + "." == ReverseNameSpec(mc.ip)
  {
    var a := Unmap(mc.ip);
    AddressPiece(mc, p);
    VersionPiece(mc, p);
    ReversedParts(a);
    hide ExpandSpec, Parts, Labels, ReverseNameSpec, Join;
    var front, version := Piece(IR, mc, p), Piece(V, mc, p);
    ExpandFour(IR, Literal("."), V, Literal(".arpa"), mc, p);
    Assemble(mc.ip, front, version);
  }
}
