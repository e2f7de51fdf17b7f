/** The MIME walker and its three bounds (internal/mailparser/mime.go). The multipart reader
    is given from outside and may answer anything at all. */
module MimeWalk {
  import opened Wrappers
  import opened Bytes

  /** What a part's header says about its structure, the media type being parsed already. */
  datatype Fields = Fields(contentType: string, boundary: Bytes)

  /** One answer of the multipart reader. A broken child ends before its closing boundary. */
  datatype Event = EndOfParts | Malformed | Child(fields: Fields, content: Bytes, broken: bool)

  /** The k-th answer for a boundary and a body. */
  type Reader = (Bytes, Bytes, nat) -> Event

  datatype Node = Node(fields: Fields, size: nat, depth: nat, parts: seq<Node>)

  datatype Defect =
    | DepthExceeded | PartsExceeded | SizeExceeded
    | MissingBoundary | NoParts | Unterminated

  predicate IsMultipart(f: Fields) {
    "multipart/" <= f.contentType
  }

  predicate Contains(s: Bytes, sub: Bytes) {
    sub <= s || (s != [] && Contains(s[1..], sub))
  }

  const DASHES: Bytes := [45, 45]

  /** The part has children to look for. */
  predicate Opens(f: Fields, body: Bytes) {
    IsMultipart(f) && f.boundary != [] && Contains(body, DASHES + f.boundary)
  }

  lemma {:induction false} ContainsIs(s: Bytes, sub: Bytes)
    ensures Contains(s, sub) <==> exists a, b :: s == a + sub + b
  {
    if sub <= s {
      assert s == [] + sub + s[|sub|..];
    } else if s != [] {
      ContainsIs(s[1..], sub);
      if Contains(s[1..], sub) {
        var a, b :| s[1..] == a + sub + b;
        assert s == ([s[0]] + a) + sub + b;
      }
    }
    forall a, b | s == a + sub + b
      ensures Contains(s, sub)
    {
      ContainsInside(a, sub, b);
    }
  }

  lemma {:induction false} ContainsInside(a: Bytes, sub: Bytes, b: Bytes)
    ensures Contains(a + sub + b, sub)
  {
    if a == [] {
      assert a + sub + b == sub + b;
    } else {
      assert (a + sub + b)[1..] == a[1..] + sub + b;
      ContainsInside(a[1..], sub, b);
    }
  }

  /** A part opens when its content type is a multipart one, it has a boundary, and two dashes
      and that boundary are somewhere in its body. */
  lemma OpensIsExact(f: Fields, body: Bytes)
    ensures Opens(f, body) <==>
            && (exists subtype :: f.contentType == "multipart/" + subtype)
            && f.boundary != [] && exists a, b :: body == a + ([45, 45] + f.boundary) + b
  {
    ContainsIs(body, [45, 45] + f.boundary);
    if IsMultipart(f) {
      assert f.contentType == "multipart/" + f.contentType[10..];
    }
  }

  // ---------------------------------------------------------------- measures of a tree

  function Count(p: Node): nat
    decreases p
  {
    1 + CountAll(p.parts)
  }

  function CountAll(ps: seq<Node>): nat
    decreases ps
  {
    if ps == [] then 0 else CountAll(ps[..|ps| - 1]) + Count(ps[|ps| - 1])
  }

  /** The bytes the tree holds besides the message itself: the sizes of all inner parts. */
  function Retained(p: Node): nat
    decreases p
  {
    RetainedAll(p.parts)
  }

  function RetainedAll(ps: seq<Node>): nat
    decreases ps
  {
    if ps == [] then 0 else RetainedAll(ps[..|ps| - 1]) + ps[|ps| - 1].size + Retained(ps[|ps| - 1])
  }

  ghost predicate NoDeeper(p: Node, max: nat)
    decreases p
  {
    p.depth <= max && NoneDeeper(p.parts, max)
  }

  ghost predicate NoneDeeper(ps: seq<Node>, max: nat)
    decreases ps
  {
    ps == [] || (NoneDeeper(ps[..|ps| - 1], max) && NoDeeper(ps[|ps| - 1], max))
  }

  // ---------------------------------------------------------------- what the reader says

  predicate BrokenAt(r: Reader, f: Fields, body: Bytes, i: nat) {
    var e := r(f.boundary, body, i);
    e.Child? && e.broken
  }

  /** After n children there are no more. */
  predicate Ended(r: Reader, f: Fields, body: Bytes, n: nat) {
    !r(f.boundary, body, n).Child? || (n > 0 && BrokenAt(r, f, body, n - 1))
  }

  /** p shows the structure of the part as the reader tells it: where whole, all of it, and
      otherwise all that comes before some point. */
  ghost predicate Shows(r: Reader, f: Fields, body: Bytes, depth: nat, p: Node, whole: bool)
    decreases p
  {
    && p.fields == f && p.size == |body| && p.depth == depth
    && if Opens(f, body) then
         ShowsAll(r, f, body, depth, p.parts, whole) && (whole ==> Ended(r, f, body, |p.parts|))
       else p.parts == []
  }

  /** Every child but the last is shown whole. */
  ghost predicate ShowsAll(r: Reader, f: Fields, body: Bytes, depth: nat, ps: seq<Node>, whole: bool)
    decreases ps
  {
    ps == [] ||
    var n := |ps| - 1;
    var e := r(f.boundary, body, n);
    && ShowsAll(r, f, body, depth, ps[..n], true)
    && (n > 0 ==> !BrokenAt(r, f, body, n - 1))
    && e.Child? && Shows(r, e.fields, e.content, depth + 1, ps[n], whole)
  }

  lemma {:induction false} ShowsLess(r: Reader, f: Fields, body: Bytes, depth: nat, p: Node)
    requires Shows(r, f, body, depth, p, true)
    ensures Shows(r, f, body, depth, p, false)
    decreases p
  {
    if Opens(f, body) {
      ShowsLessAll(r, f, body, depth, p.parts);
    }
  }

  lemma {:induction false} ShowsLessAll(r: Reader, f: Fields, body: Bytes, depth: nat, ps: seq<Node>)
    requires ShowsAll(r, f, body, depth, ps, true)
    ensures ShowsAll(r, f, body, depth, ps, false)
    decreases ps
  {
    if ps != [] {
      var n := |ps| - 1;
      var e := r(f.boundary, body, n);
      ShowsLess(r, e.fields, e.content, depth + 1, ps[n]);
    }
  }

  /** One more child, shown as far as it was looked at. */
  lemma Append(r: Reader, f: Fields, body: Bytes, depth: nat, ps: seq<Node>, p: Node, whole: bool)
    requires ShowsAll(r, f, body, depth, ps, true)
    requires var e := r(f.boundary, body, |ps|);
             e.Child? && Shows(r, e.fields, e.content, depth + 1, p, whole)
    requires |ps| > 0 ==> !BrokenAt(r, f, body, |ps| - 1)
    ensures ShowsAll(r, f, body, depth, ps + [p], whole)
    ensures CountAll(ps + [p]) == CountAll(ps) + Count(p)
    ensures RetainedAll(ps + [p]) == RetainedAll(ps) + p.size + Retained(p)
    ensures forall max: nat :: NoneDeeper(ps, max) && NoDeeper(p, max) ==> NoneDeeper(ps + [p], max)
    ensures forall max: nat :: NoneNested(ps, max) && !Nested(p, max) ==> NoneNested(ps + [p], max)
  {
    assert (ps + [p])[..|ps|] == ps;
  }

  lemma ShownAt(r: Reader, f: Fields, body: Bytes, depth: nat, ps: seq<Node>, whole: bool, k: nat)
    requires ShowsAll(r, f, body, depth, ps, whole) && k < |ps|
    ensures var e := r(f.boundary, body, k);
            e.Child? && ps[k].fields == e.fields && ps[k].size == |e.content| && ps[k].depth == depth + 1
    decreases ps
  {
    if k < |ps| - 1 {
      ShownAt(r, f, body, depth, ps[..|ps| - 1], true, k);
    }
  }

  /** A part with children is an opening multipart, and its k-th child is the k-th answer of the
      reader; shown whole, it has children whenever it opens and the reader has one. */
  lemma ChildrenAreExact(r: Reader, f: Fields, body: Bytes, depth: nat, p: Node, whole: bool)
    requires Shows(r, f, body, depth, p, whole)
    ensures p.parts != [] ==> Opens(f, body)
    ensures whole ==> (p.parts != [] <==> Opens(f, body) && r(f.boundary, body, 0).Child?)
    ensures forall k :: 0 <= k < |p.parts| ==>
              var e := r(f.boundary, body, k);
              e.Child? && p.parts[k].fields == e.fields && p.parts[k].size == |e.content| && p.parts[k].depth == depth + 1
  {
    hide Opens;
    forall k | 0 <= k < |p.parts|
      ensures var e := r(f.boundary, body, k);
              e.Child? && p.parts[k].fields == e.fields && p.parts[k].size == |e.content| && p.parts[k].depth == depth + 1
    {
      ShownAt(r, f, body, depth, p.parts, whole, k);
    }
  }

  // ---------------------------------------------------------------- where a walk stops

  /** Some multipart of the tree is at the nesting limit, so that it is not looked into. */
  predicate Nested(p: Node, max: nat)
    decreases p
  {
    (IsMultipart(p.fields) && p.depth >= max) || !NoneNested(p.parts, max)
  }

  predicate NoneNested(ps: seq<Node>, max: nat)
    decreases ps
  {
    ps == [] || (NoneNested(ps[..|ps| - 1], max) && !Nested(ps[|ps| - 1], max))
  }

  /** The reader is still asked for something once the last part of the tree was found. */
  ghost predicate AsksOn(r: Reader, f: Fields, body: Bytes, p: Node)
    decreases p
  {
    Opens(f, body) && AsksOnAll(r, f, body, p.parts)
  }

  ghost predicate AsksOnAll(r: Reader, f: Fields, body: Bytes, ps: seq<Node>)
    decreases ps
  {
    ps == [] ||
    var n := |ps| - 1;
    var e := r(f.boundary, body, n);
    !BrokenAt(r, f, body, n) || (e.Child? && AsksOn(r, e.fields, e.content, ps[n]))
  }

  /** The walk stopped right behind p for the reason d: everything before was fine, and here
      a limit was reached. room is what was left of the budget. */
  ghost predicate StoppedAt(
      r: Reader, f: Fields, body: Bytes, p: Node, d: Defect, maxDepth: nat, room: nat)
    decreases p
  {
    || (d.DepthExceeded? && IsMultipart(f) && p.depth >= maxDepth && p.parts == [])
    || (Opens(f, body) && p.depth < maxDepth && StoppedAtAll(r, f, body, p.depth, p.parts, d, maxDepth, room))
  }

  ghost predicate StoppedAtAll(
      r: Reader, f: Fields, body: Bytes, depth: nat, ps: seq<Node>, d: Defect, maxDepth: nat, room: nat)
    decreases ps
  {
    || (ReaderAsked(r, f, body, depth, ps) && (d.PartsExceeded? || (d.SizeExceeded? && TooLarge(r, f, body, |ps|, room))))
    || (ps != [] &&
        var n := |ps| - 1;
        var e := r(f.boundary, body, n);
        e.Child? && NoneNested(ps[..n], maxDepth) && StoppedAt(r, e.fields, e.content, ps[n], d, maxDepth, room))
  }

  /** The children are all whole and the last is not broken, so that the next one is asked for. */
  ghost predicate ReaderAsked(r: Reader, f: Fields, body: Bytes, depth: nat, ps: seq<Node>) {
    ShowsAll(r, f, body, depth, ps, true) && (ps != [] ==> !BrokenAt(r, f, body, |ps| - 1))
  }

  predicate TooLarge(r: Reader, f: Fields, body: Bytes, n: nat, room: nat) {
    var e := r(f.boundary, body, n);
    e.Child? && |e.content| > room
  }

  /** p is q with the ends of some lists of children cut off. */
  ghost predicate Pruned(p: Node, q: Node)
    decreases p
  {
    p.fields == q.fields && p.size == q.size && p.depth == q.depth && PrunedAll(p.parts, q.parts)
  }

  ghost predicate PrunedAll(ps: seq<Node>, qs: seq<Node>)
    decreases ps
  {
    ps == [] || (|ps| <= |qs| && PrunedAll(ps[..|ps| - 1], qs) && Pruned(ps[|ps| - 1], qs[|ps| - 1]))
  }

  /** Whatever stopped a walk, what it did show is the beginning of what a walk that was not
      stopped shows: limits cut the tree, they never change it. */
  lemma {:induction false} LimitsOnlyPrune(r: Reader, f: Fields, body: Bytes, depth: nat, p: Node, q: Node)
    requires Shows(r, f, body, depth, p, false) && Shows(r, f, body, depth, q, true)
    ensures Pruned(p, q)
    decreases p
  {
    if Opens(f, body) && p.parts != [] {
      if |p.parts| > |q.parts| {
        NotEnded(r, f, body, depth, p.parts, false, |q.parts|);
      }
      PruneAll(r, f, body, depth, p.parts, q.parts, false);
    }
  }

  lemma {:induction false} PruneAll(
      r: Reader, f: Fields, body: Bytes, depth: nat, ps: seq<Node>, qs: seq<Node>, whole: bool)
    requires ShowsAll(r, f, body, depth, ps, whole) && ShowsAll(r, f, body, depth, qs, true) && |ps| <= |qs|
    ensures PrunedAll(ps, qs)
    decreases ps
  {
    if ps != [] {
      var n := |ps| - 1;
      var e := r(f.boundary, body, n);
      ChildAt(r, f, body, depth, qs, true, n);
      PruneAll(r, f, body, depth, ps[..n], qs, true);
      if whole {
        ShowsLess(r, e.fields, e.content, depth + 1, ps[n]);
      }
      LimitsOnlyPrune(r, e.fields, e.content, depth + 1, ps[n], qs[n]);
    }
  }

  /** Two walks that were not stopped show the same tree, whatever their limits were. */
  lemma {:induction false} WholeIsUnique(r: Reader, f: Fields, body: Bytes, depth: nat, p: Node, q: Node)
    requires Shows(r, f, body, depth, p, true) && Shows(r, f, body, depth, q, true)
    ensures p == q
    decreases p
  {
    if Opens(f, body) {
      if |p.parts| > |q.parts| {
        NotEnded(r, f, body, depth, p.parts, true, |q.parts|);
      } else if |p.parts| < |q.parts| {
        NotEnded(r, f, body, depth, q.parts, true, |p.parts|);
      }
      SameAll(r, f, body, depth, p.parts, q.parts);
    }
  }

  lemma {:induction false} SameAll(r: Reader, f: Fields, body: Bytes, depth: nat, ps: seq<Node>, qs: seq<Node>)
    requires ShowsAll(r, f, body, depth, ps, true) && ShowsAll(r, f, body, depth, qs, true) && |ps| == |qs|
    ensures ps == qs
    decreases ps
  {
    if ps != [] {
      var n := |ps| - 1;
      var e := r(f.boundary, body, n);
      SameAll(r, f, body, depth, ps[..n], qs[..n]);
      WholeIsUnique(r, e.fields, e.content, depth + 1, ps[n], qs[n]);
      assert ps == ps[..n] + [ps[n]] && qs == qs[..n] + [qs[n]];
    }
  }

  /** Among the children shown, none but the last is where the children end. */
  lemma {:induction false} NotEnded(
    r: Reader, f: Fields, body: Bytes, depth: nat, ps: seq<Node>, whole: bool, n: nat)
    requires ShowsAll(r, f, body, depth, ps, whole) && n < |ps|
    ensures !Ended(r, f, body, n)
    decreases ps
  {
    if n + 1 < |ps| {
      NotEnded(r, f, body, depth, ps[..|ps| - 1], true, n);
    }
  }

  lemma {:induction false} ChildAt(
    r: Reader, f: Fields, body: Bytes, depth: nat, ps: seq<Node>, whole: bool, n: nat)
    requires ShowsAll(r, f, body, depth, ps, whole) && n < |ps|
    ensures var e := r(f.boundary, body, n);
            e.Child? && Shows(r, e.fields, e.content, depth + 1, ps[n], whole || n + 1 < |ps|)
    decreases ps
  {
    if n + 1 < |ps| {
      ChildAt(r, f, body, depth, ps[..|ps| - 1], true, n);
    }
  }

  // ---------------------------------------------------------------- what a limit means

  /** The tree is within every limit: no multipart is nested too deep, all parts together fit
      the budget, and the parts, with one to spare if the reader is asked on, fit the count. */
  ghost predicate Fits(r: Reader, f: Fields, body: Bytes, q: Node, maxParts: nat, maxDepth: nat, budget: nat) {
    && !Nested(q, maxDepth) && Retained(q) <= budget
    && Count(q) + (if AsksOn(r, f, body, q) then 1 else 0) <= maxParts
  }

  lemma {:induction false} PrefixShown(
      r: Reader, f: Fields, body: Bytes, depth: nat, qs: seq<Node>, whole: bool, n: nat)
    requires ShowsAll(r, f, body, depth, qs, whole) && n < |qs|
    ensures ShowsAll(r, f, body, depth, qs[..n], true)
    decreases |qs|
  {
    if n + 1 < |qs| {
      PrefixShown(r, f, body, depth, qs[..|qs| - 1], true, n);
      assert qs[..|qs| - 1][..n] == qs[..n];
    }
  }

  /** A list of parts measures at least what its beginning does. */
  lemma {:induction false} TakeMeasures(qs: seq<Node>, n: nat, max: nat)
    requires n <= |qs|
    ensures CountAll(qs[..n]) + (|qs| - n) <= CountAll(qs) && RetainedAll(qs[..n]) <= RetainedAll(qs)
    ensures NoneNested(qs, max) ==> NoneNested(qs[..n], max)
    decreases |qs|
  {
    if n == |qs| {
      assert qs[..n] == qs;
    } else {
      TakeMeasures(qs[..|qs| - 1], n, max);
      assert qs[..|qs| - 1][..n] == qs[..n];
    }
  }

  /** The measures of the first n parts and the next one. */
  lemma NextMeasures(qs: seq<Node>, n: nat, max: nat)
    requires n < |qs|
    ensures CountAll(qs[..n]) + Count(qs[n]) + (|qs| - n - 1) <= CountAll(qs)
    ensures RetainedAll(qs[..n]) + qs[n].size + Retained(qs[n]) <= RetainedAll(qs)
    ensures Nested(qs[n], max) ==> !NoneNested(qs, max)
  {
    TakeMeasures(qs, n + 1, max);
    assert qs[..n + 1][..n] == qs[..n] && qs[..n + 1][n] == qs[n];
  }

  /** What the whole tree exceeds, seen from where a walk stopped. */
  ghost predicate Exceeds(r: Reader, f: Fields, body: Bytes, p: Node, q: Node, d: Defect, maxDepth: nat, room: nat) {
    && (d.DepthExceeded? ==> Nested(q, maxDepth))
    && (d.PartsExceeded? ==> Count(q) + (if AsksOn(r, f, body, q) then 1 else 0) > Count(p))
    && (d.SizeExceeded? ==> Retained(q) > Retained(p) + room)
  }

  /** A limit is reported only where the whole tree exceeds it. */
  lemma {:induction false} StopExceeds(
      r: Reader, f: Fields, body: Bytes, depth: nat, p: Node, q: Node, d: Defect, maxDepth: nat, room: nat)
    requires Shows(r, f, body, depth, p, false) && Shows(r, f, body, depth, q, true)
    requires StoppedAt(r, f, body, p, d, maxDepth, room)
    ensures Exceeds(r, f, body, p, q, d, maxDepth, room)
    decreases p
  {
    if !(d.DepthExceeded? && IsMultipart(f) && p.depth >= maxDepth) {
      hide ShowsAll, NoneNested, AsksOnAll;
      if |p.parts| > |q.parts| {
        NotEnded(r, f, body, depth, p.parts, false, |q.parts|);
      }
      StopExceedsAll(r, f, body, depth, p.parts, q.parts, d, maxDepth, room);
    }
  }

  lemma {:induction false} StopExceedsAll(
      r: Reader, f: Fields, body: Bytes, depth: nat, ps: seq<Node>, qs: seq<Node>, d: Defect, maxDepth: nat, room: nat)
    requires ShowsAll(r, f, body, depth, ps, false) && ShowsAll(r, f, body, depth, qs, true)
    requires |ps| <= |qs| && Ended(r, f, body, |qs|)
    requires StoppedAtAll(r, f, body, depth, ps, d, maxDepth, room)
    ensures d.DepthExceeded? ==> !NoneNested(qs, maxDepth)
    ensures d.PartsExceeded? ==> CountAll(qs) + (if AsksOnAll(r, f, body, qs) then 1 else 0) > CountAll(ps)
    ensures d.SizeExceeded? ==> RetainedAll(qs) > RetainedAll(ps) + room
    decreases ps
  {
    if ReaderAsked(r, f, body, depth, ps)
       && (d.PartsExceeded? || (d.SizeExceeded? && TooLarge(r, f, body, |ps|, room))) {
      AskedExceeds(r, f, body, depth, ps, qs, d, room);
    } else {
      hide Shows, StoppedAt, Nested, AsksOn, AsksOnAll, CountAll, RetainedAll, NoneNested;
      var n := |ps| - 1;
      var e := r(f.boundary, body, n);
      ChildAt(r, f, body, depth, qs, true, n);
      StopExceeds(r, e.fields, e.content, depth + 1, ps[n], qs[n], d, maxDepth, room);
      SamePrefix(r, f, body, depth, ps, qs, n);
      ChildAt(r, f, body, depth, ps, false, n);
      SizeShown(r, e.fields, e.content, depth + 1, ps[n], false);
      SizeShown(r, e.fields, e.content, depth + 1, qs[n], true);
      BelowExceeds(r, f, body, ps, qs, d, maxDepth, room);
    }
  }

  lemma SizeShown(r: Reader, f: Fields, body: Bytes, depth: nat, p: Node, whole: bool)
    requires Shows(r, f, body, depth, p, whole)
    ensures p.size == |body|
  {
  }

  lemma BelowExceeds(
      r: Reader, f: Fields, body: Bytes, ps: seq<Node>, qs: seq<Node>, d: Defect, maxDepth: nat, room: nat)
    requires 0 < |ps| <= |qs| && ps[..|ps| - 1] == qs[..|ps| - 1]
    requires var e := r(f.boundary, body, |ps| - 1);
             e.Child? && Exceeds(r, e.fields, e.content, ps[|ps| - 1], qs[|ps| - 1], d, maxDepth, room)
             && ps[|ps| - 1].size == qs[|ps| - 1].size
    ensures d.DepthExceeded? ==> !NoneNested(qs, maxDepth)
    ensures d.PartsExceeded? ==> CountAll(qs) + (if AsksOnAll(r, f, body, qs) then 1 else 0) > CountAll(ps)
    ensures d.SizeExceeded? ==> RetainedAll(qs) > RetainedAll(ps) + room
  {
    hide Nested, AsksOn, NoneNested, Count, Retained;
    var n := |ps| - 1;
    NextMeasures(qs, n, maxDepth);
    assert CountAll(ps) == CountAll(ps[..n]) + Count(ps[n]);
    assert RetainedAll(ps) == RetainedAll(ps[..n]) + ps[n].size + Retained(ps[n]);
    hide CountAll, RetainedAll;
  }

  lemma SamePrefix(r: Reader, f: Fields, body: Bytes, depth: nat, ps: seq<Node>, qs: seq<Node>, n: nat)
    requires ShowsAll(r, f, body, depth, ps, false) && ShowsAll(r, f, body, depth, qs, true)
    requires n + 1 == |ps| <= |qs|
    ensures ps[..n] == qs[..n]
  {
    PrefixShown(r, f, body, depth, ps, false, n);
    PrefixShown(r, f, body, depth, qs, true, n);
    SameAll(r, f, body, depth, ps[..n], qs[..n]);
  }

  lemma AskedExceeds(
      r: Reader, f: Fields, body: Bytes, depth: nat, ps: seq<Node>, qs: seq<Node>, d: Defect, room: nat)
    requires ReaderAsked(r, f, body, depth, ps) && ShowsAll(r, f, body, depth, qs, true)
    requires |ps| <= |qs| && Ended(r, f, body, |qs|)
    requires d.PartsExceeded? || (d.SizeExceeded? && TooLarge(r, f, body, |ps|, room))
    ensures d.PartsExceeded? ==> CountAll(qs) + (if AsksOnAll(r, f, body, qs) then 1 else 0) > CountAll(ps)
    ensures d.SizeExceeded? ==> RetainedAll(qs) > RetainedAll(ps) + room
  {
    var n := |ps|;
    if n == |qs| {
      SameAll(r, f, body, depth, ps, qs);
    } else {
      PrefixShown(r, f, body, depth, qs, true, n);
      SameAll(r, f, body, depth, ps, qs[..n]);
      ChildAt(r, f, body, depth, qs, true, n);
      NextMeasures(qs, n, 0);
    }
  }

  // ---------------------------------------------------------------- the walk

  predicate IsLimit(d: Defect) {
    d.DepthExceeded? || d.PartsExceeded? || d.SizeExceeded?
  }

  /** A limit is reported once, as the last thing that happens, or never. */
  ghost predicate Reported(defects: seq<Defect>, stopped: bool) {
    && (forall i :: 0 <= i < |defects| - 1 ==> !IsLimit(defects[i]))
    && (stopped <==> defects != [] && IsLimit(defects[|defects| - 1]))
  }

  lemma Empty(r: Reader, f: Fields, body: Bytes, depth: nat, max: nat)
    ensures ReaderAsked(r, f, body, depth, []) && NoneDeeper([], max) && NoneNested([], max)
    ensures CountAll([]) == 0 && RetainedAll([]) == 0
  {
  }

  lemma Leaf(r: Reader, f: Fields, body: Bytes, depth: nat, max: nat)
    requires depth <= max
    ensures var p := Node(f, |body|, depth, []);
            && Count(p) == 1 && Retained(p) == 0 && NoDeeper(p, max)
            && Shows(r, f, body, depth, p, false) && (!Opens(f, body) ==> Shows(r, f, body, depth, p, true))
            && (Nested(p, max) <==> IsMultipart(f) && depth >= max)
            && (AsksOn(r, f, body, p) ==> Opens(f, body))
  {
  }

  /** The child that was looked at last stopped the walk. */
  lemma StopBelow(
      r: Reader, f: Fields, body: Bytes, depth: nat, ps: seq<Node>, p: Node, d: Defect, maxDepth: nat, room: nat)
    requires NoneNested(ps, maxDepth)
    requires var e := r(f.boundary, body, |ps|);
             e.Child? && StoppedAt(r, e.fields, e.content, p, d, maxDepth, room)
    ensures StoppedAtAll(r, f, body, depth, ps + [p], d, maxDepth, room)
  {
    hide StoppedAt, NoneNested, ShowsAll;
    assert (ps + [p])[..|ps|] == ps;
  }

  /** The next child may not be looked at any more. */
  lemma StopHere(
      r: Reader, f: Fields, body: Bytes, depth: nat, ps: seq<Node>, d: Defect, maxDepth: nat, room: nat)
    requires ReaderAsked(r, f, body, depth, ps)
    requires d.PartsExceeded? || (d.SizeExceeded? && var e := r(f.boundary, body, |ps|); e.Child? && |e.content| > room)
    ensures StoppedAtAll(r, f, body, depth, ps, d, maxDepth, room) && ShowsAll(r, f, body, depth, ps, false)
  {
    hide ShowsAll;
    ShowsLessAll(r, f, body, depth, ps);
  }

  lemma AsksBelow(r: Reader, f: Fields, body: Bytes, ps: seq<Node>, p: Node)
    ensures var e := r(f.boundary, body, |ps|);
            AsksOnAll(r, f, body, ps + [p]) <==>
              !BrokenAt(r, f, body, |ps|) || (e.Child? && AsksOn(r, e.fields, e.content, p))
  {
    hide AsksOn, BrokenAt;
  }

  /** The counters of a walk at some moment. */
  datatype Point = Point(parts: nat, examined: nat, defects: seq<Defect>)

  class Walker {
    const reader: Reader
    const maxParts: nat
    const maxDepth: nat
    const maxExamined: nat
    var parts: nat
    var examined: nat
    var stopped: bool
    var defects: seq<Defect>

    constructor (reader: Reader, maxParts: nat, maxDepth: nat, maxExamined: nat)
      ensures this.reader == reader && this.maxParts == maxParts && this.maxDepth == maxDepth
      ensures this.maxExamined == maxExamined
      ensures parts == 0 && examined == 0 && !stopped && defects == []
    {
      this.reader, this.maxParts, this.maxDepth, this.maxExamined := reader, maxParts, maxDepth, maxExamined;
      parts, examined, stopped, defects := 0, 0, false, [];
    }

    /** Nothing has been stopped, and another part may be examined. */
    ghost predicate Open()
      reads this
    {
      !stopped && examined <= maxExamined && (parts == 0 || parts < maxParts) && Reported(defects, false)
    }

    /** What every step of the walk keeps. Since the given moment, count parts were examined
        and their bodies hold retained bytes. */
    ghost predicate Kept(parts0: nat, examined0: nat, defects0: seq<Defect>, count: nat, retained: nat)
      reads this
    {
      && parts == parts0 + count && (parts == 1 || parts <= maxParts)
      && examined0 + retained <= examined <= maxExamined + 1
      && examined0 + retained <= maxExamined
      && (!stopped ==> examined == examined0 + retained)
      && Reported(defects, stopped) && defects0 <= defects
      && (examined > maxExamined <==> stopped && defects[|defects| - 1] == SizeExceeded)
      && (stopped && defects[|defects| - 1] == PartsExceeded ==> parts >= maxParts)
    }

    /** What was kept since a point in between was kept since the start. */
    lemma KeptSince(start: Point, here: Point, count0: nat, retained0: nat, count: nat, retained: nat)
      requires Kept(here.parts, here.examined, here.defects, count, retained)
      requires here.parts == start.parts + count0 && here.examined == start.examined + retained0
      requires start.defects <= here.defects
      ensures Kept(start.parts, start.examined, start.defects, count0 + count, retained0 + retained)
    {
      hide Reported;
    }

    /** The defect that stopped the walk. */
    ghost function Reason(): Defect
      requires Reported(defects, stopped) && stopped
      reads this
    {
      defects[|defects| - 1]
    }

    method Defect(d: Defect)
      requires !IsLimit(d) && Reported(defects, false)
      modifies `defects
      ensures defects == old(defects) + [d] && Reported(defects, false)
    {
      defects := defects + [d];
    }

    method Stop(d: Defect)
      requires IsLimit(d) && Reported(defects, false)
      modifies `defects, `stopped
      ensures defects == old(defects) + [d] && stopped && Reported(defects, true) && Reason() == d
    {
      defects := defects + [d];
      stopped := true;
    }

    /** One part and all below it. Either everything is shown and within the limits, or the
        walk has stopped right behind what is shown, where a limit was reached. */
    method Part(f: Fields, body: Bytes, depth: nat) returns (p: Node)
      requires Open() && depth <= maxDepth
      modifies `parts, `examined, `stopped, `defects
      ensures p.size == |body| && Shows(reader, f, body, depth, p, !stopped)
      ensures NoDeeper(p, maxDepth)
      ensures Kept(old(parts), old(examined), old(defects), Count(p), Retained(p))
      ensures stopped ==>
                StoppedAt(reader, f, body, p, Reason(), maxDepth, maxExamined - old(examined) - Retained(p))
      ensures !stopped ==> !Nested(p, maxDepth) && (AsksOn(reader, f, body, p) ==> parts < maxParts)
      decreases maxParts - parts, 0
    {
      hide Contains, ShowsAll, BrokenAt, CountAll, RetainedAll, NoneDeeper, NoneNested, Reported, AsksOnAll, StoppedAtAll;
      parts := parts + 1;
      Leaf(reader, f, body, depth, maxDepth);
      p := Node(f, |body|, depth, []);
      if !IsMultipart(f) {
        return;
      }
      if depth >= maxDepth {
        Stop(DepthExceeded);
        return;
      }
      if f.boundary == [] {
        Defect(MissingBoundary);
        return;
      }
      if !Contains(body, DASHES + f.boundary) {
        Defect(NoParts);
        return;
      }
      var ps := Children(f, body, depth);
      p := p.(parts := ps);
      if ps == [] && !stopped {
        Defect(NoParts);
      }
    }

    /** The loop over the answers of the reader for one body. */
    method Children(f: Fields, body: Bytes, depth: nat) returns (ps: seq<Node>)
      requires !stopped && examined <= maxExamined && (parts == 1 || parts <= maxParts) && parts > 0
      requires Reported(defects, false) && depth < maxDepth
      modifies `parts, `examined, `stopped, `defects
      ensures ShowsAll(reader, f, body, depth, ps, !stopped) && (!stopped ==> Ended(reader, f, body, |ps|))
      ensures NoneDeeper(ps, maxDepth)
      ensures Kept(old(parts), old(examined), old(defects), CountAll(ps), RetainedAll(ps))
      ensures stopped ==>
                StoppedAtAll(reader, f, body, depth, ps, Reason(), maxDepth, maxExamined - old(examined) - RetainedAll(ps))
      ensures !stopped ==> NoneNested(ps, maxDepth) && (AsksOnAll(reader, f, body, ps) ==> parts < maxParts)
      decreases maxParts - parts, 2
    {
      hide ShowsAll, CountAll, RetainedAll, NoneDeeper, NoneNested, AsksOnAll, StoppedAtAll, Reported;
      ps := [];
      Empty(reader, f, body, depth, maxDepth);
      while !stopped
        invariant ShowsAll(reader, f, body, depth, ps, !stopped) && NoneDeeper(ps, maxDepth)
        invariant Kept(old(parts), old(examined), old(defects), CountAll(ps), RetainedAll(ps))
        invariant if stopped then
                    StoppedAtAll(reader, f, body, depth, ps, Reason(), maxDepth,
                                 maxExamined - old(examined) - RetainedAll(ps))
                  else ReaderAsked(reader, f, body, depth, ps) && NoneNested(ps, maxDepth)
        decreases maxParts - parts, !stopped
      {
        if parts >= maxParts {
          Stop(PartsExceeded);
          StopHere(reader, f, body, depth, ps, PartsExceeded, maxDepth, maxExamined - examined);
          break;
        }
        var child := reader(f.boundary, body, |ps|);
        if child.EndOfParts? {
          break;
        }
        if child.Malformed? {
          Defect(Unterminated);
          break;
        }
        ghost var here := Point(parts, examined, defects);
        ghost var before := ps;
        ps := Examine(f, body, depth, ps, child);
        KeptSince(Point(old(parts), old(examined), old(defects)), here, CountAll(before), RetainedAll(before),
                  CountAll(ps) - CountAll(before), RetainedAll(ps) - RetainedAll(before));
        if child.broken {
          break;
        }
      }
    }

    /** The next child: copied as far as the budget allows, and looked into. */
    method Examine(f: Fields, body: Bytes, depth: nat, ps: seq<Node>, child: Event) returns (qs: seq<Node>)
      requires !stopped && examined <= maxExamined && 0 < parts < maxParts
      requires Reported(defects, false) && depth < maxDepth
      requires child == reader(f.boundary, body, |ps|) && child.Child?
      requires ReaderAsked(reader, f, body, depth, ps) && NoneDeeper(ps, maxDepth) && NoneNested(ps, maxDepth)
      modifies `parts, `examined, `stopped, `defects
      ensures ShowsAll(reader, f, body, depth, qs, !stopped) && NoneDeeper(qs, maxDepth)
      ensures CountAll(ps) <= CountAll(qs) && RetainedAll(ps) <= RetainedAll(qs)
      ensures Kept(old(parts), old(examined), old(defects),
                   CountAll(qs) - CountAll(ps), RetainedAll(qs) - RetainedAll(ps))
      ensures stopped ==>
                StoppedAtAll(reader, f, body, depth, qs, Reason(), maxDepth,
                             maxExamined - old(examined) - (RetainedAll(qs) - RetainedAll(ps)))
      ensures !stopped ==>
                && parts > old(parts) && NoneNested(qs, maxDepth)
                && if child.broken then
                     Ended(reader, f, body, |qs|) && (AsksOnAll(reader, f, body, qs) ==> parts < maxParts)
                   else ReaderAsked(reader, f, body, depth, qs)
      decreases maxParts - parts, 1
    {
      hide Contains, Opens, Shows, ShowsAll, CountAll, RetainedAll, NoneDeeper, NoDeeper, NoneNested, Nested,
           AsksOn, AsksOnAll, StoppedAt, StoppedAtAll, TooLarge, Reported;
      var room := maxExamined - examined + 1;
      var content := if |child.content| > room then child.content[..room] else child.content;
      examined := examined + |content|;
      if examined > maxExamined {
        Stop(SizeExceeded);
        StopHere(reader, f, body, depth, ps, SizeExceeded, maxDepth, maxExamined - old(examined));
        return ps;
      }
      if child.broken {
        Defect(Unterminated);
      }
      ghost var here := Point(parts, examined, defects);
      var part := Part(child.fields, content, depth + 1);
      Append(reader, f, body, depth, ps, part, !stopped);
      KeptSince(Point(old(parts), old(examined), old(defects)), here, 0, |content|, Count(part), Retained(part));
      if stopped {
        StopBelow(reader, f, body, depth, ps, part, Reason(), maxDepth,
                  maxExamined - old(examined) - |content| - Retained(part));
      }
      AsksBelow(reader, f, body, ps, part);
      qs := ps + [part];
    }
  }

  /** How many bytes a walk may copy out of part bodies. */
  function Budget(body: Bytes): nat {
    2 * |body| + 1048576
  }

  const PLAIN_TEXT := Fields("text/plain", [])

  /** The tree of a message; f is absent when it has no Content-Type field. A walk is complete
      if and only if the whole tree is within the limits. */
  method ParseMime(reader: Reader, f: Option<Fields>, body: Bytes, maxParts: nat, maxDepth: nat)
    returns (p: Node, complete: bool, examined: nat, defects: seq<Defect>)
    requires maxParts > 0
    ensures Count(p) <= maxParts && NoDeeper(p, maxDepth) && Retained(p) <= 2 * |body| + 1048576
    ensures examined <= 2 * |body| + 1048576 + 1 && (complete ==> examined == Retained(p))
    ensures var root := if f.Some? then f.value else PLAIN_TEXT;
            && Shows(reader, root, body, 0, p, complete)
            && forall q :: Shows(reader, root, body, 0, q, true) ==>
                 (complete <==> Fits(reader, root, body, q, maxParts, maxDepth, 2 * |body| + 1048576))
    ensures Reported(defects, !complete)
    ensures !complete ==>
              var root := if f.Some? then f.value else PLAIN_TEXT;
              StoppedAt(reader, root, body, p, defects[|defects| - 1], maxDepth, 2 * |body| + 1048576 - Retained(p))
    ensures !complete && defects[|defects| - 1].PartsExceeded? ==> Count(p) == maxParts
    ensures examined > 2 * |body| + 1048576 <==> !complete && defects[|defects| - 1].SizeExceeded?
  {
    hide StoppedAt, Nested, Shows, Reported, IsLimit, AsksOn, Count, Retained, NoDeeper;
    if f.None? {
      Leaf(reader, PLAIN_TEXT, body, 0, maxDepth);
      assert !IsMultipart(PLAIN_TEXT) && !Opens(PLAIN_TEXT, body) by {
        assert PLAIN_TEXT.contentType[0] == 't';
      }
      p, complete, examined, defects := Node(PLAIN_TEXT, |body|, 0, []), true, 0, [];
      assert Reported([], false) by {
        NothingReported();
      }
      CompleteExactly(reader, PLAIN_TEXT, body, p, defects, true, maxParts, maxDepth);
      return;
    }
    var w := new Walker(reader, maxParts, maxDepth, Budget(body));
    assert Reported([], false) by {
      NothingReported();
    }
    p := w.Part(f.value, body, 0);
    complete, examined, defects := !w.stopped, w.examined, w.defects;
    CompleteExactly(reader, f.value, body, p, defects, complete, maxParts, maxDepth);
  }

  lemma NothingReported()
    ensures Reported([], false)
  {
  }

  lemma CompleteExactly(
      r: Reader, f: Fields, body: Bytes, p: Node, defects: seq<Defect>, complete: bool, maxParts: nat, maxDepth: nat)
    requires Shows(r, f, body, 0, p, complete) && Reported(defects, !complete) && Retained(p) <= Budget(body)
    requires complete ==> !Nested(p, maxDepth) && Count(p) <= maxParts
                          && (AsksOn(r, f, body, p) ==> Count(p) < maxParts)
    requires !complete ==>
               && StoppedAt(r, f, body, p, defects[|defects| - 1], maxDepth, Budget(body) - Retained(p))
               && (defects[|defects| - 1].PartsExceeded? ==> Count(p) >= maxParts)
    ensures forall q :: Shows(r, f, body, 0, q, true) ==>
              (complete <==> Fits(r, f, body, q, maxParts, maxDepth, Budget(body)))
  {
    hide StoppedAt, Nested, Shows, AsksOn, Count, Retained;
    forall q | Shows(r, f, body, 0, q, true)
      ensures complete <==> Fits(r, f, body, q, maxParts, maxDepth, Budget(body))
    {
      if complete {
        WholeIsUnique(r, f, body, 0, p, q);
      } else {
        StopExceeds(r, f, body, 0, p, q, defects[|defects| - 1], maxDepth, Budget(body) - Retained(p));
      }
    }
  }

  // ---------------------------------------------------------------- at the limit

  const MIXED := Fields("multipart/mixed", [120])
  const MIXED_BODY: Bytes := DASHES + [120]

  /** A reader that finds a single empty part, broken or not, in a body. */
  ghost predicate FindsOnePart(r: Reader, broken: bool) {
    r(MIXED.boundary, MIXED_BODY, 0) == Child(PLAIN_TEXT, [], broken) && r(MIXED.boundary, MIXED_BODY, 1) == EndOfParts
  }

  const ONE_PART: Node := Node(MIXED, |MIXED_BODY|, 0, [Node(PLAIN_TEXT, 0, 1, [])])

  /** A message with exactly as many parts as are allowed is reported as having more, unless
      its last part is broken: the count is looked at before the reader is asked on. */
  lemma ExactCountIsReported(r: Reader, broken: bool)
    requires FindsOnePart(r, broken)
    ensures Shows(r, MIXED, MIXED_BODY, 0, ONE_PART, true) && Count(ONE_PART) == 2
    ensures Fits(r, MIXED, MIXED_BODY, ONE_PART, 2, 20, 0) <==> broken
  {
    OpensMixed();
    hide Opens, IsMultipart, ShowsAll, AsksOnAll, CountAll, RetainedAll, NoneNested;
    OneChild(r, broken);
  }

  lemma OneChild(r: Reader, broken: bool)
    requires FindsOnePart(r, broken)
    ensures var ps := ONE_PART.parts;
            && ShowsAll(r, MIXED, MIXED_BODY, 0, ps, true) && CountAll(ps) == 1 && RetainedAll(ps) == 0
            && NoneNested(ps, 20) && (AsksOnAll(r, MIXED, MIXED_BODY, ps) <==> !broken)
  {
    OpensMixed();
    hide Opens, IsMultipart, Shows, Nested, Count, Retained, ShowsAll, CountAll, RetainedAll, NoneNested,
         AsksOn, AsksOnAll, NoneDeeper, NoDeeper;
    var p := Node(PLAIN_TEXT, 0, 1, []);
    Leaf(r, PLAIN_TEXT, [], 1, 20);
    Empty(r, MIXED, MIXED_BODY, 0, 20);
    Append(r, MIXED, MIXED_BODY, 0, [], p, true);
    AsksBelow(r, MIXED, MIXED_BODY, [], p);
    assert [] + [p] == ONE_PART.parts;
  }

  lemma OpensMixed()
    ensures Opens(MIXED, MIXED_BODY) && !Opens(PLAIN_TEXT, []) && !IsMultipart(PLAIN_TEXT)
  {
    assert MIXED.contentType[..10] == "multipart/";
    assert PLAIN_TEXT.contentType[0] == 't';
  }
}
