/** Octet strings, as messages are made of. */
module Bytes {
  newtype byte = x: int | 0 <= x < 256
  type Bytes = seq<byte>

  const CR: byte := 13
  const LF: byte := 10
  const SP: byte := 32
  const TAB: byte := 9
  const COLON: byte := 58
  const SEMI: byte := 59
  const EQ: byte := 61
  const CRLF: Bytes := [CR, LF]

  predicate IsWsp(c: byte) {
    c == SP || c == TAB
  }

  predicate IsEol(c: byte) {
    c == CR || c == LF
  }

  predicate IsFws(c: byte) {
    IsWsp(c) || IsEol(c)
  }

  /** bytes.IndexByte */
  function IndexOf(s: Bytes, c: byte): (i: int)
    ensures -1 <= i < |s|
  {
    if s == [] then -1
    else if s[0] == c then 0
    else var r := IndexOf(s[1..], c); if r < 0 then -1 else r + 1
  }

  /** IndexOf finds the first c of s, or none. */
  lemma {:induction false} IndexFacts(s: Bytes, c: byte)
    ensures var i := IndexOf(s, c);
            if i < 0 then c !in s else s[i] == c && c !in s[..i]
  {
    if s != [] && s[0] != c {
      IndexFacts(s[1..], c);
      var r := IndexOf(s[1..], c);
      if r >= 0 {
        assert s[..r + 1] == [s[0]] + s[1..][..r];
      } else {
        assert s == [s[0]] + s[1..];
      }
    }
  }

  /** The first c of s is where it was seen to be. */
  lemma {:induction false} IndexIs(s: Bytes, c: byte, i: nat)
    requires i < |s| && s[i] == c && c !in s[..i]
    ensures IndexOf(s, c) == i
  {
    if i > 0 {
      assert s[0] in s[..i];
      assert s[1..][..i - 1] == s[..i][1..];
      IndexIs(s[1..], c, i - 1);
    }
  }

  /** s around its first c. */
  lemma SplitAtFirst(s: Bytes, c: byte)
    requires IndexOf(s, c) >= 0
    ensures var i := IndexOf(s, c); s == s[..i] + [c] + s[i + 1..] && c !in s[..i]
  {
    IndexFacts(s, c);
  }

  lemma IndexNone(s: Bytes, c: byte)
    requires c !in s
    ensures IndexOf(s, c) == -1
  {
    IndexFacts(s, c);
  }

  predicate EndsWith(s: Bytes, suffix: Bytes) {
    |suffix| <= |s| && s[|s| - |suffix|..] == suffix
  }

  /** s without its final CR, if it has one. */
  function Chomp(s: Bytes): Bytes {
    if s != [] && s[|s| - 1] == CR then s[..|s| - 1] else s
  }

  function LowerByte(c: byte): byte {
    if 65 <= c <= 90 then c + 32 else c
  }

  /** bytes.ToLower */
  function Lower(s: Bytes): (r: Bytes)
    ensures |r| == |s|
    ensures forall i :: 0 <= i < |s| ==> r[i] == LowerByte(s[i])
  {
    seq(|s|, i requires 0 <= i < |s| => LowerByte(s[i]))
  }

  predicate EqualFold(a: Bytes, b: Bytes) {
    Lower(a) == Lower(b)
  }

  /** The bytes of s that are not part of a line break. */
  function Unfolded(s: Bytes): Bytes {
    if s == [] then []
    else (if IsEol(s[0]) then [] else [s[0]]) + Unfolded(s[1..])
  }

  /** s without the white space at its end. */
  function TrimRightWsp(s: Bytes): (r: Bytes)
    ensures |r| <= |s|
  {
    if s != [] && IsWsp(s[|s| - 1]) then TrimRightWsp(s[..|s| - 1]) else s
  }

  lemma {:induction false} TrimRightFacts(s: Bytes)
    ensures var r := TrimRightWsp(s);
            r == s[..|r|] && (r != [] ==> !IsWsp(r[|r| - 1]))
  {
    if s != [] && IsWsp(s[|s| - 1]) {
      TrimRightFacts(s[..|s| - 1]);
    }
  }

  /** s without the white space at its start. */
  function TrimLeftWsp(s: Bytes): (r: Bytes)
    ensures |r| <= |s|
    ensures r != [] ==> !IsWsp(r[0])
  {
    if s != [] && IsWsp(s[0]) then TrimLeftWsp(s[1..]) else s
  }

  lemma {:induction false} TrimLeftFacts(s: Bytes)
    ensures var r := TrimLeftWsp(s); r == s[|s| - |r|..]
    ensures forall c :: c in TrimLeftWsp(s) ==> c in s
  {
    if s != [] && IsWsp(s[0]) {
      TrimLeftFacts(s[1..]);
    }
  }

  /** ASCII text as octets. */
  function B(s: string): (r: Bytes)
    ensures |r| == |s|
    ensures forall i :: 0 <= i < |s| ==> r[i] as int == s[i] as int % 256
  {
    seq(|s|, i requires 0 <= i < |s| => (s[i] as int % 256) as byte)
  }
}
