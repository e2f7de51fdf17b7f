/** Header canonicalization (internal/dkim/canon.go; sections 3.4.1 and 3.4.2 of RFC 6376). */
module HeaderCanon {
  import opened Bytes
  import opened BodyCanon
  import opened BodyAlgebra

  /** The words of a field value, one space between them. */
  function RelaxedValue(value: Bytes): Bytes {
    Collapse(TrimLeftWsp(Unfolded(value)))
  }

  /** The canonical form of a raw field; a relaxed field without a colon is dropped. */
  function CanonHeader(raw: Bytes, relaxed: bool): Bytes {
    var n := NormalizeEol(raw);
    if !relaxed then (if EndsWith(n, CRLF) then n else n + CRLF)
    else
      var colon := IndexOf(n, COLON);
      if colon < 0 then []
      else Lower(TrimRightWsp(n[..colon])) + [COLON] + RelaxedValue(n[colon + 1..]) + CRLF
  }

  // ---------------------------------------------------------------- the loop

  /** What the rest of a value still contributes. */
  ghost function Remaining(started: bool, inWsp: bool, rest: Bytes): Bytes {
    if started then Rest(inWsp, Unfolded(rest)) else RelaxedValue(rest)
  }

  lemma RemainingStep(started: bool, inWsp: bool, c: byte, rest: Bytes)
    ensures Remaining(started, inWsp, [c] + rest) ==
              if IsEol(c) then Remaining(started, inWsp, rest)
              else if IsWsp(c) then Remaining(started, true, rest)
              else (if inWsp && started then [SP] else []) + [c] + Remaining(true, false, rest)
  {
    var s := [c] + rest;
    assert s[1..] == rest;
    if !IsEol(c) {
      var u := [c] + Unfolded(rest);
      assert Unfolded(s) == u && u[1..] == Unfolded(rest);
      if started {
        if IsWsp(c) {
          CollapseRun(inWsp, c, Unfolded(rest));
        } else {
          CollapseWord(inWsp, c, Unfolded(rest));
        }
      } else {
        if IsWsp(c) {
          assert TrimLeftWsp(u) == TrimLeftWsp(Unfolded(rest));
        } else {
          assert TrimLeftWsp(u) == u;
          CollapseHead(u);
          RestEnds(Unfolded(rest));
        }
      }
    } else {
      assert Unfolded(s) == [] + Unfolded(rest) == Unfolded(rest);
    }
  }

  lemma RemainingStarts(value: Bytes)
    ensures [] + Remaining(false, false, value[0..]) == RelaxedValue(value)
  {
    assert value[0..] == value;
  }

  lemma RemainingEnds(started: bool, inWsp: bool)
    ensures Remaining(started, inWsp, []) == []
  {
    RestEnds([]);
  }

  /** The value loop: unfold, collapse white space, drop it at both ends. */
  method RelaxValue(value: Bytes) returns (out: Bytes)
    ensures out == RelaxedValue(value)
  {
    hide Remaining, RelaxedValue;
    out := [];
    var inWsp, started := false, false;
    RemainingStarts(value);
    for i := 0 to |value|
      invariant out + Remaining(started, inWsp, value[i..]) == RelaxedValue(value)
    {
      var c := value[i];
      assert value[i..] == [c] + value[i + 1..];
      RemainingStep(started, inWsp, c, value[i + 1..]);
      ghost var rest := Remaining(true, false, value[i + 1..]);
      if IsEol(c) {
        // Unfold.
      } else if IsWsp(c) {
        inWsp := true;
      } else {
        ghost var before, gap := out, if inWsp && started then [SP] else [];
        if inWsp && started {
          out := out + [SP];
        }
        inWsp, started := false, true;
        out := out + [c];
        assert out == before + (gap + [c]);
        Regroup(before, gap + [c], rest);
      }
    }
    assert value[|value|..] == [];
    RemainingEnds(started, inWsp);
  }

  method CanonicalHeader(rawField: Bytes, relaxed: bool) returns (out: Bytes)
    ensures out == CanonHeader(rawField, relaxed)
  {
    var raw := NormalizeLineEndings(rawField);
    if !relaxed {
      return if EndsWith(raw, CRLF) then raw else raw + CRLF;
    }
    var colon := IndexOf(raw, COLON);
    if colon < 0 {
      return [];
    }
    var value := RelaxValue(raw[colon + 1..]);
    out := Lower(TrimRightWsp(raw[..colon])) + [COLON] + value + CRLF;
  }

  // ---------------------------------------------------------------- line breaks

  lemma {:induction false} NormalizedConcat(afterCr: bool, a: Bytes, b: Bytes)
    ensures Normalized(afterCr, a + b)
         == Normalized(afterCr, a) + Normalized(if a == [] then afterCr else a[|a| - 1] == CR, b)
    decreases |a|
  {
    if a == [] {
      assert a + b == b;
    } else {
      assert (a + b)[1..] == a[1..] + b;
      NormalizedConcat(a[0] == CR, a[1..], b);
    }
  }

  lemma {:induction false} NormalizedTwice(afterCr: bool, seen: bool, s: Bytes)
    requires afterCr ==> seen
    ensures Normalized(seen, Normalized(afterCr, s)) == Normalized(afterCr, s)
    decreases |s|
  {
    if s != [] {
      var rest := Normalized(s[0] == CR, s[1..]);
      NormalizedTwice(s[0] == CR, s[0] == CR, s[1..]);
      if s[0] == LF && !afterCr {
        assert ([CR, LF] + rest)[1..] == [LF] + rest && ([LF] + rest)[1..] == rest;
      } else {
        assert ([s[0]] + rest)[1..] == rest;
      }
    }
  }

  lemma {:induction false} UnfoldedNormalized(afterCr: bool, s: Bytes)
    ensures Unfolded(Normalized(afterCr, s)) == Unfolded(s)
    decreases |s|
  {
    if s != [] {
      var rest := Normalized(s[0] == CR, s[1..]);
      UnfoldedNormalized(s[0] == CR, s[1..]);
      if s[0] == LF && !afterCr {
        UnfoldedConcat([CR, LF], rest);
        assert [CR, LF][1..] == [LF];
        assert Unfolded([CR, LF]) == [];
      } else {
        assert ([s[0]] + rest)[1..] == rest;
      }
    }
  }

  lemma {:induction false} UnfoldedConcat(a: Bytes, b: Bytes)
    ensures Unfolded(a + b) == Unfolded(a) + Unfolded(b)
  {
    if a == [] {
      assert a + b == b;
    } else {
      assert (a + b)[1..] == a[1..] + b;
      UnfoldedConcat(a[1..], b);
    }
  }

  lemma {:induction false} UnfoldedPlain(s: Bytes)
    requires CR !in s && LF !in s
    ensures Unfolded(s) == s
  {
    if s != [] {
      UnfoldedPlain(s[1..]);
    }
  }

  lemma UnfoldedCrlf()
    ensures Unfolded(CRLF) == []
  {
    var s: Bytes := [CR, LF];
    assert s[1..] == [LF];
    assert Unfolded([LF]) == [];
  }

  lemma {:induction false} UnfoldedHasNoEol(s: Bytes)
    ensures CR !in Unfolded(s) && LF !in Unfolded(s)
  {
    if s != [] {
      UnfoldedHasNoEol(s[1..]);
    }
  }

  lemma {:induction false} CollapseNoCr(s: Bytes)
    requires CR !in s
    ensures CR !in Collapse(s)
    decreases |s|
  {
    if s != [] {
      if IsWsp(s[0]) {
        CollapseAtWsp(s);
        TrimLeftFacts(s);
        if TrimLeftWsp(s) != [] {
          CollapseNoCr(TrimLeftWsp(s));
        }
      } else {
        CollapseNoCr(s[1..]);
      }
    }
  }

  // ---------------------------------------------------------------- laws

  lemma {:induction false} NormalizedColon(afterCr: bool, s: Bytes)
    ensures COLON in Normalized(afterCr, s) <==> COLON in s
    decreases |s|
  {
    if s != [] {
      NormalizedColon(s[0] == CR, s[1..]);
      assert COLON in s <==> s[0] == COLON || COLON in s[1..];
    }
  }

  lemma SplitAtColon(head: Bytes, value: Bytes)
    requires COLON !in head
    ensures IndexOf(head + [COLON] + value, COLON) == |head|
    ensures (head + [COLON] + value)[..|head|] == head && (head + [COLON] + value)[|head| + 1..] == value
  {
    var s := head + [COLON] + value;
    assert s[..|head|] == head;
    IndexIs(s, COLON, |head|);
  }

  /** The relaxed form of a field, from its name and its value. */
  lemma RelaxedField(head: Bytes, value: Bytes)
    requires COLON !in head
    ensures CanonHeader(head + [COLON] + value, true)
         == Lower(TrimRightWsp(NormalizeEol(head))) + [COLON] + RelaxedValue(value) + CRLF
  {
    var raw := head + [COLON] + value;
    var h := NormalizeEol(head);
    NormalizedConcat(false, head + [COLON], value);
    NormalizedConcat(false, head, [COLON]);
    var mark := [COLON];
    assert mark[1..] == [];
    var after := if head == [] then false else head[|head| - 1] == CR;
    assert Normalized(after, [COLON]) == [COLON] + Normalized(false, []);
    var v := Normalized(false, value);
    assert NormalizeEol(raw) == h + [COLON] + v;
    NormalizedColon(false, head);
    SplitAtColon(h, v);
    UnfoldedNormalized(false, value);
  }

  /** A relaxed field says the same however its value is folded: only the bytes that are
      not line breaks matter. */
  lemma RelaxedIgnoresFolding(head: Bytes, value: Bytes, value': Bytes)
    requires COLON !in head && Unfolded(value) == Unfolded(value')
    ensures CanonHeader(head + [COLON] + value, true) == CanonHeader(head + [COLON] + value', true)
  {
    RelaxedField(head, value);
    RelaxedField(head, value');
  }

  lemma RelaxedValueTwice(value: Bytes)
    ensures var v := RelaxedValue(value); RelaxedValue(v + CRLF) == v && CR !in v && LF !in v
  {
    var u := TrimLeftWsp(Unfolded(value));
    var v := RelaxedValue(value);
    UnfoldedHasNoEol(value);
    TrimLeftFacts(Unfolded(value));
    CollapseNoCr(u);
    CollapseNoLf(u);
    CollapseTwice(u);
    UnfoldedConcat(v, CRLF);
    UnfoldedPlain(v);
    UnfoldedCrlf();
    assert v + [] == v;
    if u != [] {
      CollapseHead(u);
    }
    assert TrimLeftWsp(v) == v;
  }

  lemma TrimRightDone(s: Bytes)
    requires s == [] || !IsWsp(s[|s| - 1])
    ensures TrimRightWsp(s) == s
  {
  }

  /** A LF at k follows a CR; afterCr tells what comes before s. */
  ghost predicate LfFollowsCr(afterCr: bool, s: Bytes, k: nat)
    requires k < |s|
  {
    s[k] == LF ==> if k == 0 then afterCr else s[k - 1] == CR
  }

  ghost predicate Crlfed(afterCr: bool, s: Bytes) {
    forall k: nat :: k < |s| ==> LfFollowsCr(afterCr, s, k)
  }

  lemma CrlfedTail(afterCr: bool, s: Bytes)
    requires s != [] && Crlfed(afterCr, s)
    ensures Crlfed(s[0] == CR, s[1..]) && (s[0] == LF ==> afterCr)
  {
    assert LfFollowsCr(afterCr, s, 0);
    var tail, cr := s[1..], s[0] == CR;
    forall k: nat | k < |tail|
      ensures LfFollowsCr(cr, tail, k)
    {
      assert LfFollowsCr(afterCr, s, k + 1);
    }
  }

  lemma {:induction false} CrlfedIsNormal(afterCr: bool, s: Bytes)
    requires Crlfed(afterCr, s)
    ensures Normalized(afterCr, s) == s
    decreases |s|
  {
    if s != [] {
      CrlfedTail(afterCr, s);
      CrlfedIsNormal(s[0] == CR, s[1..]);
      assert [s[0]] + s[1..] == s;
    }
  }

  lemma CrlfedConcat(afterCr: bool, front: Bytes, rest: Bytes)
    requires front != [] && Crlfed(afterCr, front) && Crlfed(front[|front| - 1] == CR, rest)
    ensures Crlfed(afterCr, front + rest)
  {
    var n := front + rest;
    forall k: nat | k < |n|
      ensures LfFollowsCr(afterCr, n, k)
    {
      if k < |front| {
        assert LfFollowsCr(afterCr, front, k);
      } else {
        assert LfFollowsCr(front[|front| - 1] == CR, rest, k - |front|);
      }
    }
  }

  lemma {:induction false} NormalIsCrlfed(afterCr: bool, s: Bytes)
    ensures Crlfed(afterCr, Normalized(afterCr, s))
    decreases |s|
  {
    if s != [] {
      NormalIsCrlfed(s[0] == CR, s[1..]);
      var front: Bytes := if s[0] == LF && !afterCr then [CR, LF] else [s[0]];
      assert Crlfed(afterCr, front);
      CrlfedConcat(afterCr, front, Normalized(s[0] == CR, s[1..]));
    }
  }

  lemma SimpleIsCrlfed(raw: Bytes)
    ensures Crlfed(false, CanonHeader(raw, false))
  {
    var n := NormalizeEol(raw);
    NormalIsCrlfed(false, raw);
    if !EndsWith(n, CRLF) && n != [] {
      CrlfedConcat(false, n, CRLF);
    }
  }

  lemma CrlfedPrefix(n: Bytes, name: Bytes)
    requires Crlfed(false, n) && |name| <= |n|
    requires forall k :: 0 <= k < |name| ==> name[k] == LowerByte(n[k])
    ensures Crlfed(false, name)
  {
    forall k: nat | k < |name|
      ensures LfFollowsCr(false, name, k)
    {
      assert LfFollowsCr(false, n, k);
    }
  }

  lemma SimpleTwice(raw: Bytes)
    ensures CanonHeader(CanonHeader(raw, false), false) == CanonHeader(raw, false)
  {
    var n, c := NormalizeEol(raw), CanonHeader(raw, false);
    NormalIsCrlfed(false, raw);
    SimpleIsCrlfed(raw);
    CrlfedIsNormal(false, c);
  }

  /** The name of a canonical relaxed field is its own canonical name. */
  lemma RelaxedNameDone(raw: Bytes)
    requires IndexOf(NormalizeEol(raw), COLON) >= 0
    ensures var n := NormalizeEol(raw);
            var name := Lower(TrimRightWsp(n[..IndexOf(n, COLON)]));
            COLON !in name && Lower(TrimRightWsp(NormalizeEol(name))) == name
  {
    var n := NormalizeEol(raw);
    NormalIsCrlfed(false, raw);
    NameDone(n, TrimRightWsp(n[..IndexOf(n, COLON)]));
  }

  lemma NameDone(n: Bytes, t: Bytes)
    requires Crlfed(false, n) && IndexOf(n, COLON) >= 0 && t == TrimRightWsp(n[..IndexOf(n, COLON)])
    ensures COLON !in Lower(t) && Lower(TrimRightWsp(NormalizeEol(Lower(t)))) == Lower(t)
  {
    hide IndexOf, Normalized, Crlfed, TrimRightWsp;
    TrimRightFacts(n[..IndexOf(n, COLON)]);
    assert COLON !in t by {
      IndexFacts(n, COLON);
    }
    assert forall k :: 0 <= k < |t| ==> t[k] == n[k];
    CrlfedPrefix(n, Lower(t));
    CrlfedIsNormal(false, Lower(t));
    LowerKeeps(t);
    TrimRightDone(Lower(t));
    LowerTwice(t);
  }

  lemma LowerKeeps(s: Bytes)
    ensures COLON !in s ==> COLON !in Lower(s)
    ensures s != [] ==> IsWsp(Lower(s)[|s| - 1]) == IsWsp(s[|s| - 1])
  {
  }

  lemma LowerTwice(s: Bytes)
    ensures Lower(Lower(s)) == Lower(s)
  {
  }

  lemma RelaxedTwice(raw: Bytes)
    ensures CanonHeader(CanonHeader(raw, true), true) == CanonHeader(raw, true)
  {
    var n := NormalizeEol(raw);
    var colon := IndexOf(n, COLON);
    if colon >= 0 {
      var name, v := Lower(TrimRightWsp(n[..colon])), RelaxedValue(n[colon + 1..]);
      RelaxedNameDone(raw);
      RelaxedValueTwice(n[colon + 1..]);
      Regroup(name + [COLON], v, CRLF);
      RelaxedField(name, v + CRLF);
    }
  }

  lemma RelaxedOfNormal(raw: Bytes)
    ensures CanonHeader(NormalizeEol(raw), true) == CanonHeader(raw, true)
  {
    NormalizedTwice(false, false, raw);
  }

  lemma RelaxedOfTerminated(n: Bytes)
    requires Crlfed(false, n) && Crlfed(false, n + CRLF)
    ensures CanonHeader(n + CRLF, true) == CanonHeader(n, true)
  {
    var colon := IndexOf(n, COLON);
    IndexFacts(n, COLON);
    if colon < 0 {
      CrlfedIsNormal(false, n + CRLF);
      CrlfedIsNormal(false, n);
      IndexNone(n + CRLF, COLON);
    } else {
      var head, value := n[..colon], n[colon + 1..];
      SplitAtFirst(n, COLON);
      Regroup(head + [COLON], value, CRLF);
      UnfoldedConcat(value, CRLF);
      UnfoldedCrlf();
      assert Unfolded(value) + [] == Unfolded(value);
      RelaxedIgnoresFolding(head, value, value + CRLF);
    }
  }

  lemma RelaxedOfSimple(raw: Bytes)
    ensures CanonHeader(CanonHeader(raw, false), true) == CanonHeader(raw, true)
  {
    var n := NormalizeEol(raw);
    RelaxedOfNormal(raw);
    NormalIsCrlfed(false, raw);
    if !EndsWith(n, CRLF) {
      SimpleIsCrlfed(raw);
      RelaxedOfTerminated(n);
    }
  }

  /** Both header forms are idempotent, and the relaxed form of the simple form is the
      relaxed form. */
  lemma CanonHeaderLaws(raw: Bytes, relaxed: bool)
    ensures CanonHeader(CanonHeader(raw, relaxed), relaxed) == CanonHeader(raw, relaxed)
    ensures CanonHeader(CanonHeader(raw, false), true) == CanonHeader(raw, true)
  {
    SimpleTwice(raw);
    RelaxedTwice(raw);
    RelaxedOfSimple(raw);
  }

  /** Fields a simple signature cannot tell apart, a relaxed one cannot either. */
  lemma EqualSimpleEqualRelaxedHeader(a: Bytes, b: Bytes)
    requires CanonHeader(a, false) == CanonHeader(b, false)
    ensures CanonHeader(a, true) == CanonHeader(b, true)
  {
    RelaxedOfSimple(a);
    RelaxedOfSimple(b);
  }

  // ---------------------------------------------------------------- what canonicalization keeps

  /** How many bytes are neither white space nor part of a line break. */
  function Solid(s: Bytes): nat {
    if s == [] then 0 else (if IsFws(s[0]) then 0 else 1) + Solid(s[1..])
  }

  lemma {:induction false} SolidConcat(a: Bytes, b: Bytes)
    ensures Solid(a + b) == Solid(a) + Solid(b)
  {
    if a == [] {
      assert a + b == b;
    } else {
      assert (a + b)[1..] == a[1..] + b;
      SolidConcat(a[1..], b);
    }
  }

  lemma SolidOne(c: byte)
    ensures Solid([c]) == if IsFws(c) then 0 else 1
  {
    assert [c][1..] == [];
  }

  lemma SolidTwo(c: byte, d: byte)
    ensures Solid([c, d]) == Solid([c]) + Solid([d])
  {
    assert [c, d] == [c] + [d];
    SolidConcat([c], [d]);
  }

  lemma {:induction false} SolidNormalized(afterCr: bool, s: Bytes)
    ensures Solid(Normalized(afterCr, s)) == Solid(s)
    decreases |s|
  {
    if s != [] {
      var rest := Normalized(s[0] == CR, s[1..]);
      SolidNormalized(s[0] == CR, s[1..]);
      SolidConcat([s[0]], s[1..]);
      assert [s[0]] + s[1..] == s;
      if s[0] == LF && !afterCr {
        SolidConcat([CR, LF], rest);
        SolidTwo(CR, LF);
        SolidOne(CR);
      } else {
        SolidConcat([s[0]], rest);
      }
    }
  }

  lemma {:induction false} SolidUnfolded(s: Bytes)
    ensures Solid(Unfolded(s)) == Solid(s)
  {
    if s != [] {
      SolidUnfolded(s[1..]);
      var first: Bytes := if IsEol(s[0]) then [] else [s[0]];
      SolidConcat(first, Unfolded(s[1..]));
      SolidOne(s[0]);
    }
  }

  lemma {:induction false} SolidTrimmed(s: Bytes)
    ensures Solid(TrimLeftWsp(s)) == Solid(s)
  {
    if s != [] && IsWsp(s[0]) {
      SolidTrimmed(s[1..]);
    }
  }

  lemma {:induction false} SolidTrimmedRight(s: Bytes)
    ensures Solid(TrimRightWsp(s)) == Solid(s)
  {
    if s != [] && IsWsp(s[|s| - 1]) {
      var init, last := s[..|s| - 1], s[|s| - 1];
      SolidTrimmedRight(init);
      assert s == init + [last];
      SolidConcat(init, [last]);
      SolidOne(last);
    }
  }

  lemma {:induction false} SolidLower(s: Bytes)
    ensures Solid(Lower(s)) == Solid(s)
  {
    if s != [] {
      SolidLower(s[1..]);
      assert Lower(s)[1..] == Lower(s[1..]);
    }
  }

  lemma {:induction false} SolidCollapsed(s: Bytes)
    ensures Solid(Collapse(s)) == Solid(s)
    decreases |s|
  {
    if s != [] {
      if IsWsp(s[0]) {
        CollapseAtWsp(s);
        SolidTrimmed(s);
        var rest := TrimLeftWsp(s);
        if rest != [] {
          SolidCollapsed(rest);
          SolidConcat([SP], Collapse(rest));
          SolidOne(SP);
        }
      } else {
        SolidCollapsed(s[1..]);
        SolidConcat([s[0]], Collapse(s[1..]));
        SolidOne(s[0]);
      }
    }
  }

  lemma SolidCrlf(s: Bytes)
    ensures Solid(s + CRLF) == Solid(s)
  {
    SolidConcat(s, CRLF);
    SolidTwo(CR, LF);
    SolidOne(CR);
    SolidOne(LF);
  }

  lemma SolidValue(value: Bytes)
    ensures Solid(RelaxedValue(value)) == Solid(value)
  {
    SolidUnfolded(value);
    SolidTrimmed(Unfolded(value));
    SolidCollapsed(TrimLeftWsp(Unfolded(value)));
  }

  lemma SolidName(name: Bytes)
    ensures Solid(Lower(TrimRightWsp(name))) == Solid(name)
  {
    SolidTrimmedRight(name);
    SolidLower(TrimRightWsp(name));
  }

  /** Neither form adds or drops anything but white space and line breaks. */
  lemma CanonHeaderKeepsSolid(raw: Bytes, relaxed: bool)
    requires COLON in raw
    ensures Solid(CanonHeader(raw, relaxed)) == Solid(raw) > 0
  {
    hide Solid, Normalized, RelaxedValue, IndexOf, Lower, TrimRightWsp;
    var n := NormalizeEol(raw);
    SolidNormalized(false, raw);
    NormalizedColon(false, raw);
    AroundColon(n);
    var colon := IndexOf(n, COLON);
    var name, value := n[..colon], n[colon + 1..];
    SolidJoin(name, value);
    if relaxed {
      var name', value' := Lower(TrimRightWsp(name)), RelaxedValue(value);
      SolidName(name);
      SolidValue(value);
      SolidJoin(name', value');
      SolidCrlf(name' + [COLON] + value');
    } else {
      SolidCrlf(n);
    }
  }

  lemma AroundColon(n: Bytes)
    requires COLON in n
    ensures var i := IndexOf(n, COLON); i >= 0 && n == n[..i] + [COLON] + n[i + 1..]
  {
    IndexFacts(n, COLON);
  }

  lemma SolidJoin(a: Bytes, b: Bytes)
    ensures Solid(a + [COLON] + b) == Solid(a) + 1 + Solid(b)
  {
    SolidConcat(a + [COLON], b);
    SolidConcat(a, [COLON]);
    SolidOne(COLON);
  }
}
