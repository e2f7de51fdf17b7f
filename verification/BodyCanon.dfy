/** Body canonicalization (internal/dkim/canon.go; sections 3.4.3 and 3.4.4 of RFC 6376). */
module BodyCanon {
  import opened Bytes

  // ---------------------------------------------------------------- the canonical form

  /** White space at the end of a line goes, any other run of it becomes one space. */
  function Collapse(s: Bytes): Bytes
    decreases |s|
  {
    if s == [] then []
    else if IsWsp(s[0]) then
      var rest := TrimLeftWsp(s);
      if rest == [] then [] else [SP, rest[0]] + Collapse(rest[1..])
    else [s[0]] + Collapse(s[1..])
  }

  /** One line, without its line break but possibly with the CR of it. */
  function CanonLine(line: Bytes, relaxed: bool): Bytes {
    if relaxed then Collapse(Chomp(line)) else Chomp(line)
  }

  /** The canonical lines of a body; a line ends at LF, or unterminated at the end. */
  function CanonLines(body: Bytes, relaxed: bool): seq<Bytes>
    decreases |body|
  {
    if body == [] then []
    else
      var i := IndexOf(body, LF);
      if i < 0 then [CanonLine(body, relaxed)]
      else [CanonLine(body[..i], relaxed)] + CanonLines(body[i + 1..], relaxed)
  }

  /** Empty lines at the end are dropped. */
  function DropEmptyTail(lines: seq<Bytes>): (r: seq<Bytes>)
    ensures |r| <= |lines| && r == lines[..|r|]
    ensures r != [] ==> r[|r| - 1] != []
    ensures forall k :: |r| <= k < |lines| ==> lines[k] == []
  {
    if lines != [] && lines[|lines| - 1] == [] then DropEmptyTail(lines[..|lines| - 1]) else lines
  }

  /** Every line with its line break. */
  function Unlines(lines: seq<Bytes>): Bytes {
    if lines == [] then [] else lines[0] + CRLF + Unlines(lines[1..])
  }

  /** The canonical body: an empty one is a single line break under "simple". */
  function CanonBody(body: Bytes, relaxed: bool): Bytes {
    var lines := DropEmptyTail(CanonLines(body, relaxed));
    if lines == [] && !relaxed then CRLF else Unlines(lines)
  }

  /** The first limit bytes, or all of them when there is no limit. */
  function Limited(s: Bytes, limit: int): Bytes {
    if 0 <= limit < |s| then s[..limit] else s
  }

  // ---------------------------------------------------------------- the writer

  class BodyWriter {
    const limit: int
    var sink: Bytes
    var total: nat
    ghost var all: Bytes

    ghost predicate Valid()
      reads this
    {
      total == |all| && sink == Limited(all, limit)
    }

    constructor (limit: int)
      ensures Valid() && this.limit == limit && all == []
    {
      this.limit, sink, total, all := limit, [], 0, [];
    }

    method Write(p: Bytes)
      requires Valid()
      modifies this
      ensures Valid() && all == old(all) + p
    {
      if limit < 0 {
        sink := sink + p;
      } else {
        var remaining := limit - total;
        if remaining > 0 {
          sink := sink + p[..if |p| < remaining then |p| else remaining];
        }
      }
      total := total + |p|;
      all := all + p;
    }
  }

  // ---------------------------------------------------------------- lines and their tails

  function Empties(n: nat): seq<Bytes> {
    seq(n, _ => [])
  }

  lemma {:induction false} DropTailCons(head: seq<Bytes>, line: Bytes, rest: seq<Bytes>)
    requires line != []
    ensures DropEmptyTail(head + [line] + rest) == head + [line] + DropEmptyTail(rest)
  {
    var all := head + [line] + rest;
    if rest != [] && rest[|rest| - 1] == [] {
      assert all[..|all| - 1] == head + [line] + rest[..|rest| - 1];
      DropTailCons(head, line, rest[..|rest| - 1]);
    } else if rest == [] {
      assert all[|all| - 1] == line;
    } else {
      assert all[|all| - 1] == rest[|rest| - 1];
    }
  }

  lemma {:induction false} DropTailEmpties(n: nat)
    ensures DropEmptyTail(Empties(n)) == []
  {
  }

  lemma {:induction false} UnlinesConcat(a: seq<Bytes>, b: seq<Bytes>)
    ensures Unlines(a + b) == Unlines(a) + Unlines(b)
  {
    if a == [] {
      assert a + b == b;
    } else {
      assert (a + b)[1..] == a[1..] + b;
      UnlinesConcat(a[1..], b);
    }
  }

  // ---------------------------------------------------------------- the streaming loop

  /** What is left to write with n empty lines held back. */
  ghost function Pending(n: nat, body: Bytes, relaxed: bool): Bytes {
    Unlines(DropEmptyTail(Empties(n) + CanonLines(body, relaxed)))
  }

  lemma PendingEmpty(n: nat, rest: Bytes, relaxed: bool)
    ensures Empties(n) + ([[]] + CanonLines(rest, relaxed)) == Empties(n + 1) + CanonLines(rest, relaxed)
  {
  }

  lemma UnlinesLine(head: seq<Bytes>, line: Bytes, rest: seq<Bytes>)
    ensures Unlines(head + [line] + rest) == Unlines(head) + line + CRLF + Unlines(rest)
  {
    UnlinesConcat(head + [line], rest);
    UnlinesConcat(head, [line]);
    assert Unlines([line]) == line + CRLF by {
      assert [line][1..] == [];
      assert line + CRLF + [] == line + CRLF;
    }
    hide Unlines;
  }

  lemma PendingLine(n: nat, line: Bytes, rest: Bytes, relaxed: bool)
    requires line != []
    ensures Unlines(DropEmptyTail(Empties(n) + ([line] + CanonLines(rest, relaxed))))
         == Unlines(Empties(n)) + line + CRLF + Pending(0, rest, relaxed)
  {
    var tail := CanonLines(rest, relaxed);
    assert Empties(n) + ([line] + tail) == Empties(n) + [line] + tail;
    DropTailCons(Empties(n), line, tail);
    UnlinesLine(Empties(n), line, DropEmptyTail(tail));
    assert Empties(0) + tail == tail;
  }

  lemma UnlinesEmptiesStep(n: nat)
    ensures Unlines(Empties(n + 1)) == CRLF + Unlines(Empties(n))
    ensures Unlines(Empties(0)) == []
  {
    assert Empties(n + 1)[1..] == Empties(n);
  }

  /** What the rest of a line collapses to, with or without a space pending. */
  ghost function Rest(inWsp: bool, s: Bytes): Bytes {
    Collapse((if inWsp then [SP] else []) + s)
  }

  lemma RestEnds(s: Bytes)
    ensures Rest(false, s) == Collapse(s)
    ensures Rest(false, []) == [] && Rest(true, []) == []
  {
    assert [] + s == s;
    assert [SP] + [] == [SP] && [SP][1..] == [];
    assert TrimLeftWsp([SP]) == TrimLeftWsp([SP][1..]);
  }

  /** Collapses the white space of one line. */
  method CollapseLine(line: Bytes) returns (buf: Bytes)
    ensures buf == Collapse(line)
  {
    hide Rest, Collapse;
    buf := [];
    var inWsp := false;
    RestEnds(line);
    assert line[0..] == line;
    for i := 0 to |line|
      invariant buf + Rest(inWsp, line[i..]) == Collapse(line)
    {
      assert line[i..] == [line[i]] + line[i + 1..];
      if IsWsp(line[i]) {
        CollapseRun(inWsp, line[i], line[i + 1..]);
        inWsp := true;
      } else {
        CollapseWord(inWsp, line[i], line[i + 1..]);
        if inWsp {
          buf := buf + [SP];
          inWsp := false;
        }
        buf := buf + [line[i]];
      }
    }
    assert line[|line|..] == [];
  }

  /** A run of white space at the start counts as one space. */
  lemma CollapseOfRun(s: Bytes, n: nat)
    requires 0 < n <= |s| && forall k :: 0 <= k < n ==> IsWsp(s[k])
    ensures Collapse(s) == Collapse([SP] + s[n..])
  {
    TrimLeftRun(s, n);
    TrimLeftRun([SP] + s[n..], 1);
    assert ([SP] + s[n..])[1..] == s[n..];
    assert TrimLeftWsp(s) == TrimLeftWsp([SP] + s[n..]);
  }

  lemma CollapseRun(inWsp: bool, c: byte, rest: Bytes)
    requires IsWsp(c)
    ensures Rest(inWsp, [c] + rest) == Rest(true, rest)
  {
    if inWsp {
      assert ([SP] + ([c] + rest))[2..] == rest;
      CollapseOfRun([SP] + ([c] + rest), 2);
    } else {
      assert [] + ([c] + rest) == [c] + rest && ([c] + rest)[1..] == rest;
      CollapseOfRun([c] + rest, 1);
    }
  }

  lemma {:induction false} TrimLeftRun(s: Bytes, n: nat)
    requires n <= |s| && forall k :: 0 <= k < n ==> IsWsp(s[k])
    ensures TrimLeftWsp(s) == TrimLeftWsp(s[n..])
  {
    if n > 0 {
      TrimLeftRun(s[1..], n - 1);
      assert s[1..][n - 1..] == s[n..];
    }
  }

  lemma CollapseWord(inWsp: bool, c: byte, rest: Bytes)
    requires !IsWsp(c)
    ensures Rest(inWsp, [c] + rest) == (if inWsp then [SP] else []) + [c] + Rest(false, rest)
  {
    RestEnds(rest);
    var s := (if inWsp then [SP] else []) + ([c] + rest);
    assert ([c] + rest)[1..] == rest;
    if inWsp {
      TrimLeftRun(s, 1);
      assert s[1..] == [c] + rest;
    } else {
      assert s == [c] + rest;
    }
  }

  /** The next canonical line and the text after it. */
  method NextLine(body: Bytes, relaxed: bool) returns (line: Bytes, rest: Bytes)
    requires body != []
    ensures |rest| < |body|
    ensures CanonLines(body, relaxed) == [line] + CanonLines(rest, relaxed)
  {
    var i := IndexOf(body, LF);
    if i < 0 {
      line, rest := body, [];
    } else {
      line, rest := body[..i], body[i + 1..];
    }
    line := Chomp(line);
    if relaxed {
      line := CollapseLine(line);
    }
  }

  /** Writes all canonical lines but the empty ones at the end. */
  method WriteLines(w: BodyWriter, text: Bytes, relaxed: bool)
    requires w.Valid() && w.all == []
    modifies w
    ensures w.Valid() && w.all == Unlines(DropEmptyTail(CanonLines(text, relaxed)))
  {
    var body := text;
    var pendingEmpty: nat := 0;
    while |body| > 0
      invariant w.Valid()
      invariant w.all + Pending(pendingEmpty, body, relaxed) == Pending(0, text, relaxed)
      decreases |body|
    {
      ghost var before := Pending(pendingEmpty, body, relaxed);
      var line;
      line, body := NextLine(body, relaxed);
      if |line| == 0 {
        PendingEmpty(pendingEmpty, body, relaxed);
        pendingEmpty := pendingEmpty + 1;
        assert before == Pending(pendingEmpty, body, relaxed);
        continue;
      }
      PendingLine(pendingEmpty, line, body, relaxed);
      ghost var text0, chunk := w.all, Unlines(Empties(pendingEmpty)) + line + CRLF;
      assert before == chunk + Pending(0, body, relaxed);
      WriteLine(w, pendingEmpty, line);
      Regroup(text0, chunk, Pending(0, body, relaxed));
      pendingEmpty := 0;
    }
    PendingEnd(pendingEmpty, relaxed);
    PendingStart(text, relaxed);
  }

  /** Writes the canonical body, truncated to limit bytes when limit >= 0; total is the
      length of the complete canonical body. */
  method WriteCanonBody(text: Bytes, relaxed: bool, limit: int) returns (w: BodyWriter)
    ensures fresh(w) && w.Valid()
    ensures w.total == |CanonBody(text, relaxed)|
    ensures w.sink == Limited(CanonBody(text, relaxed), limit)
  {
    w := new BodyWriter(limit);
    WriteLines(w, text, relaxed);
    UnlinesZero(DropEmptyTail(CanonLines(text, relaxed)));
    if w.total == 0 && !relaxed {
      w.Write(CRLF);
    }
  }

  lemma Regroup(a: Bytes, b: Bytes, c: Bytes)
    ensures (a + b) + c == a + (b + c)
  {
  }

  /** Writes the empty lines held back, then a line. */
  method WriteLine(w: BodyWriter, empties: nat, line: Bytes)
    requires w.Valid()
    modifies w
    ensures w.Valid() && w.all == old(w.all) + (Unlines(Empties(empties)) + line + CRLF)
  {
    var pendingEmpty := empties;
    UnlinesEmptiesStep(0);
    while pendingEmpty > 0
      invariant w.Valid()
      invariant w.all + Unlines(Empties(pendingEmpty)) == old(w.all) + Unlines(Empties(empties))
    {
      UnlinesEmptiesStep(pendingEmpty - 1);
      w.Write(CRLF);
      pendingEmpty := pendingEmpty - 1;
    }
    assert w.all == old(w.all) + Unlines(Empties(empties));
    w.Write(line);
    w.Write(CRLF);
    assert w.all == old(w.all) + Unlines(Empties(empties)) + line + CRLF;
  }

  lemma PendingEnd(n: nat, relaxed: bool)
    ensures Pending(n, [], relaxed) == []
  {
    assert Empties(n) + CanonLines([], relaxed) == Empties(n);
    DropTailEmpties(n);
  }

  lemma PendingStart(text: Bytes, relaxed: bool)
    ensures Pending(0, text, relaxed) == Unlines(DropEmptyTail(CanonLines(text, relaxed)))
  {
    assert Empties(0) + CanonLines(text, relaxed) == CanonLines(text, relaxed);
  }

  lemma UnlinesZero(lines: seq<Bytes>)
    ensures Unlines(lines) == [] <==> lines == []
  {
  }
}
