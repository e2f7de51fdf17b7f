/** Choosing the signed fields from the bottom up (internal/dkim/verify.go; section 5.4.2
    of RFC 6376). */
module SelectHeaders {
  import opened Bytes
  import opened HeaderSection

  // ---------------------------------------------------------------- counting names

  /** How many of the fields have the name. */
  function CountFields(hs: seq<Header>, name: Bytes): nat {
    if hs == [] then 0
    else (if EqualFold(hs[0].name, name) then 1 else 0) + CountFields(hs[1..], name)
  }

  /** How often the name occurs in a list of names. */
  function CountNames(names: seq<Bytes>, name: Bytes): nat {
    if names == [] then 0
    else (if EqualFold(names[0], name) then 1 else 0) + CountNames(names[1..], name)
  }

  /** How many fields below the i-th share its name. */
  function Below(hs: seq<Header>, i: nat): nat
    requires i < |hs|
  {
    CountFields(hs[i + 1..], hs[i].name)
  }

  /** The position of the field of that name with k fields of the name below it, or -1. */
  function FromBottom(hs: seq<Header>, name: Bytes, k: nat): (i: int)
    ensures -1 <= i < |hs|
  {
    if hs == [] then -1
    else
      var i := FromBottom(hs[1..], name, k);
      if i >= 0 then i + 1
      else if EqualFold(hs[0].name, name) && CountFields(hs[1..], name) == k then 0
      else -1
  }

  /** What the j-th name of h= selects: its k-th occurrence takes the k-th field from the
      bottom, if there are that many. */
  function Choice(hs: seq<Header>, names: seq<Bytes>, j: nat): (i: int)
    requires j < |names|
    ensures -1 <= i < |hs|
  {
    FromBottom(hs, names[j], CountNames(names[..j], names[j]))
  }

  /** The selected raw fields of the first n names, in the order of the names. */
  function Selected(hs: seq<Header>, names: seq<Bytes>, n: nat): seq<Bytes>
    requires n <= |names|
  {
    if n == 0 then []
    else
      var i := Choice(hs, names, n - 1);
      Selected(hs, names, n - 1) + (if i >= 0 then [hs[i].raw] else [])
  }

  // ---------------------------------------------------------------- counting facts

  lemma {:induction false} CountFieldsConcat(a: seq<Header>, b: seq<Header>, name: Bytes)
    ensures CountFields(a + b, name) == CountFields(a, name) + CountFields(b, name)
  {
    if a == [] {
      assert a + b == b;
    } else {
      assert (a + b)[1..] == a[1..] + b;
      CountFieldsConcat(a[1..], b, name);
    }
  }

  lemma {:induction false} CountNamesSnoc(names: seq<Bytes>, last: Bytes, name: Bytes)
    ensures CountNames(names + [last], name) == CountNames(names, name) + (if EqualFold(last, name) then 1 else 0)
  {
    if names == [] {
      assert (names + [last])[1..] == [];
    } else {
      assert (names + [last])[1..] == names[1..] + [last];
      CountNamesSnoc(names[1..], last, name);
    }
  }

  lemma {:induction false} CountFold(hs: seq<Header>, names: seq<Bytes>, a: Bytes, b: Bytes)
    requires EqualFold(a, b)
    ensures CountFields(hs, a) == CountFields(hs, b) && CountNames(names, a) == CountNames(names, b)
    decreases |hs| + |names|
  {
    if hs != [] {
      CountFold(hs[1..], names, a, b);
    } else if names != [] {
      CountFold(hs, names[1..], a, b);
    }
  }

  /** FromBottom finds the field with exactly k of its name below it, if there is one. */
  lemma {:induction false} FromBottomFacts(hs: seq<Header>, name: Bytes, k: nat)
    ensures var i := FromBottom(hs, name, k);
            if k < CountFields(hs, name) then i >= 0 && EqualFold(hs[i].name, name) && CountFields(hs[i + 1..], name) == k
            else i == -1
  {
    if hs != [] {
      FromBottomFacts(hs[1..], name, k);
      var i := FromBottom(hs[1..], name, k);
      if i >= 0 {
        assert hs[1..][i + 1..] == hs[i + 2..];
      }
    }
  }

  /** Fields put in front do not change what is counted from the bottom. */
  lemma {:induction false} FromBottomConcat(pre: seq<Header>, hs: seq<Header>, name: Bytes, k: nat)
    requires k < CountFields(hs, name)
    ensures FromBottom(pre + hs, name, k) == |pre| + FromBottom(hs, name, k)
  {
    FromBottomFacts(hs, name, k);
    if pre == [] {
      assert pre + hs == hs;
    } else {
      assert (pre + hs)[1..] == pre[1..] + hs;
      FromBottomConcat(pre[1..], hs, name, k);
    }
  }

  lemma {:induction false} CountFieldsAt(hs: seq<Header>, i: nat, name: Bytes)
    requires i < |hs| && EqualFold(hs[i].name, name)
    ensures CountFields(hs[i + 1..], name) < CountFields(hs, name)
  {
    if i == 0 {
    } else {
      assert hs[1..][i..] == hs[i + 1..];
      CountFieldsAt(hs[1..], i - 1, name);
    }
  }

  // ---------------------------------------------------------------- the loops

  /** The positions taken after some names: from the bottom up, as many of each name as
      that name has occurred. */
  ghost predicate Taken(hs: seq<Header>, names: seq<Bytes>, used: set<nat>) {
    forall i: nat :: i < |hs| ==> (i in used <==> Below(hs, i) < CountNames(names, hs[i].name))
  }

  /** The last free field of the name is the one with as many of its name below it as the
      name has occurred. */
  lemma LastFree(hs: seq<Header>, names: seq<Bytes>, used: set<nat>, name: Bytes, i: nat)
    requires Taken(hs, names, used) && i < |hs| && EqualFold(hs[i].name, name)
    ensures i !in used <==> CountFields(hs[i + 1..], name) >= CountNames(names, name)
  {
    CountFold(hs[i + 1..], names, hs[i].name, name);
    assert i in used <==> Below(hs, i) < CountNames(names, hs[i].name);
  }

  lemma CountStep(hs: seq<Header>, i: nat, name: Bytes)
    requires i < |hs|
    ensures CountFields(hs[i..], name) == CountFields(hs[i + 1..], name) + if EqualFold(hs[i].name, name) then 1 else 0
  {
    assert hs[i..][1..] == hs[i + 1..];
  }

  method LastUnused(hs: seq<Header>, name: Bytes, used: set<nat>, ghost names: seq<Bytes>) returns (i: int)
    requires Taken(hs, names, used)
    ensures i == FromBottom(hs, name, CountNames(names, name))
    ensures i >= 0 ==> EqualFold(hs[i].name, name) && i as nat !in used
  {
    ghost var k := CountNames(names, name);
    FromBottomFacts(hs, name, k);
    assert hs[|hs|..] == [] && CountFields([], name) == 0;
    hide CountFields, CountNames, EqualFold, Taken, FromBottom;
    i := |hs| - 1;
    while i >= 0
      invariant -1 <= i < |hs|
      invariant CountFields(hs[i + 1..], name) <= k
      decreases i
    {
      CountStep(hs, i, name);
      if EqualFold(hs[i].name, name) {
        LastFree(hs, names, used, name, i);
        if i !in used {
          UniqueFromBottom(hs, name, k, i);
          return i;
        }
      }
      i := i - 1;
    }
    assert hs[0..] == hs;
  }

  lemma UniqueFromBottom(hs: seq<Header>, name: Bytes, k: nat, i: nat)
    requires i < |hs| && EqualFold(hs[i].name, name) && CountFields(hs[i + 1..], name) == k
    ensures FromBottom(hs, name, k) == i
  {
    CountFieldsAt(hs, i, name);
    FromBottomFacts(hs, name, k);
    var r := FromBottom(hs, name, k);
    if r < i {
      assert hs[r + 1..][i - r..] == hs[i + 1..];
      CountFieldsAt(hs[r + 1..], i - r - 1, name);
    } else if i < r {
      assert hs[i + 1..][r - i..] == hs[r + 1..];
      CountFieldsAt(hs[i + 1..], r - i - 1, name);
    }
  }

  method Select(hs: seq<Header>, names: seq<Bytes>) returns (out: seq<Bytes>)
    ensures out == Selected(hs, names, |names|)
  {
    var used: set<nat> := {};
    out := [];
    for n := 0 to |names|
      invariant Taken(hs, names[..n], used)
      invariant out == Selected(hs, names, n)
    {
      var i := LastUnused(hs, names[n], used, names[..n]);
      TakeOne(hs, names, n, used);
      if i >= 0 {
        used := used + {i};
        out := out + [hs[i].raw];
      }
    }
  }

  lemma TakeOne(hs: seq<Header>, names: seq<Bytes>, n: nat, used: set<nat>)
    requires n < |names| && Taken(hs, names[..n], used)
    ensures var i := Choice(hs, names, n);
            Taken(hs, names[..n + 1], if i >= 0 then used + {i as nat} else used)
  {
    var name := names[n];
    var k := CountNames(names[..n], name);
    var r := Choice(hs, names, n);
    FromBottomFacts(hs, name, k);
    var used' := if r >= 0 then used + {r as nat} else used;
    assert names[..n + 1] == names[..n] + [name];
    forall i: nat | i < |hs|
      ensures i in used' <==> Below(hs, i) < CountNames(names[..n + 1], hs[i].name)
    {
      CountNamesSnoc(names[..n], name, hs[i].name);
      if EqualFold(hs[i].name, name) {
        CountFold(hs[i + 1..], names[..n], hs[i].name, name);
        if Below(hs, i) == k {
          UniqueFromBottom(hs, name, k, i);
        }
      }
    }
  }

  // ---------------------------------------------------------------- fields put in front

  /** Some name of pre is asked for more often than hs can serve. */
  ghost predicate Oversigned(pre: seq<Header>, hs: seq<Header>, names: seq<Bytes>) {
    exists p :: p in pre && CountNames(names, p.name) > CountFields(hs, p.name)
  }

  lemma {:induction false} SelectedLength(hs: seq<Header>, names: seq<Bytes>, n: nat)
    requires n <= |names|
    ensures |Selected(hs, names, n)| <= n
  {
    if n > 0 {
      SelectedLength(hs, names, n - 1);
    }
  }

  lemma {:induction false} CountNamesPrefix(names: seq<Bytes>, n: nat, name: Bytes)
    requires n < |names| && EqualFold(names[n], name)
    ensures CountNames(names[..n], name) < CountNames(names, name)
  {
    if n == 0 {
      assert names[..0] == [];
    } else {
      assert names[..n][1..] == names[1..][..n - 1];
      CountNamesPrefix(names[1..], n - 1, name);
    }
  }

  /** One more name: the same choice, or a choice that only pre made possible. */
  lemma ChoiceConcat(pre: seq<Header>, hs: seq<Header>, names: seq<Bytes>, j: nat)
    requires j < |names|
    ensures var i, i' := Choice(hs, names, j), Choice(pre + hs, names, j);
            if i >= 0 then i' == |pre| + i
            else if CountFields(pre + hs, names[j]) > CountNames(names[..j], names[j]) then i' >= 0
            else i' == -1
    ensures Choice(hs, names, j) >= 0 <==> CountNames(names[..j], names[j]) < CountFields(hs, names[j])
  {
    var k := CountNames(names[..j], names[j]);
    FromBottomFacts(hs, names[j], k);
    FromBottomFacts(pre + hs, names[j], k);
    if Choice(hs, names, j) >= 0 {
      FromBottomConcat(pre, hs, names[j], k);
    }
  }

  lemma {:induction false} CountedFieldExists(pre: seq<Header>, name: Bytes) returns (p: Header)
    requires CountFields(pre, name) > 0
    ensures p in pre && EqualFold(p.name, name)
  {
    if EqualFold(pre[0].name, name) {
      p := pre[0];
    } else {
      p := CountedFieldExists(pre[1..], name);
    }
  }

  lemma {:induction false} SameSelection(pre: seq<Header>, hs: seq<Header>, names: seq<Bytes>, n: nat)
    requires n <= |names| && !Oversigned(pre, hs, names)
    ensures Selected(pre + hs, names, n) == Selected(hs, names, n)
  {
    if n > 0 {
      var j := n - 1;
      SameSelection(pre, hs, names, j);
      ChoiceConcat(pre, hs, names, j);
      CountFieldsConcat(pre, hs, names[j]);
      if Choice(hs, names, j) < 0 && CountFields(pre, names[j]) > 0 {
        var p := CountedFieldExists(pre, names[j]);
        CountFold(hs, names, p.name, names[j]);
        CountNamesPrefix(names, j, names[j]);
        assert p in pre && CountNames(names, p.name) > CountFields(hs, p.name);
      }
    }
  }

  lemma {:induction false} NotFewer(pre: seq<Header>, hs: seq<Header>, names: seq<Bytes>, n: nat)
    requires n <= |names|
    ensures |Selected(pre + hs, names, n)| >= |Selected(hs, names, n)|
  {
    if n > 0 {
      NotFewer(pre, hs, names, n - 1);
      ChoiceConcat(pre, hs, names, n - 1);
    }
  }

  /** The occurrence of a name at which hs runs out of fields. */
  lemma {:induction false} OccurrenceAt(names: seq<Bytes>, name: Bytes, k: nat) returns (j: nat)
    requires k < CountNames(names, name)
    ensures j < |names| && EqualFold(names[j], name) && CountNames(names[..j], name) == k
  {
    var last := |names| - 1;
    assert names == names[..last] + [names[last]];
    CountNamesSnoc(names[..last], names[last], name);
    if EqualFold(names[last], name) && CountNames(names[..last], name) == k {
      j := last;
    } else {
      j := OccurrenceAt(names[..last], name, k);
      assert names[..last][..j] == names[..j];
    }
  }

  lemma {:induction false} MoreSelected(pre: seq<Header>, hs: seq<Header>, names: seq<Bytes>, j: nat, n: nat)
    requires j < n <= |names| && Choice(hs, names, j) < 0 && Choice(pre + hs, names, j) >= 0
    ensures |Selected(pre + hs, names, n)| > |Selected(hs, names, n)|
  {
    if n == j + 1 {
      NotFewer(pre, hs, names, j);
    } else {
      MoreSelected(pre, hs, names, j, n - 1);
      ChoiceConcat(pre, hs, names, n - 1);
    }
  }

  /** Fields put in front of a message leave the selection alone exactly when no name
      among them is listed more often in h= than the message has fields of it. Listing a
      name once more than it occurs therefore makes any field of that name added later
      change what is hashed. */
  lemma PrependingKeepsSelection(pre: seq<Header>, hs: seq<Header>, names: seq<Bytes>)
    ensures Selected(pre + hs, names, |names|) == Selected(hs, names, |names|) <==> !Oversigned(pre, hs, names)
  {
    if Oversigned(pre, hs, names) {
      var p :| p in pre && CountNames(names, p.name) > CountFields(hs, p.name);
      var j := OccurrenceAt(names, p.name, CountFields(hs, p.name));
      CountFold(hs, names[..j], names[j], p.name);
      CountFold(pre, names, names[j], p.name);
      CountFieldsConcat(pre, hs, names[j]);
      ChoiceConcat(pre, hs, names, j);
      var i :| 0 <= i < |pre| && pre[i] == p;
      CountFieldsAt(pre, i, p.name);
      MoreSelected(pre, hs, names, j, |names|);
    } else {
      SameSelection(pre, hs, names, |names|);
    }
  }
}
