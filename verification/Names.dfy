/** Addresses and DNS names (internal/dnsresolver/names.go). */
module Names {
  import opened Ascii

  type Octet = n: nat | n < 256

  /** An address: 4 octets or 16 octets, most significant first. */
  datatype RawAddr = V4(b: seq<Octet>) | V6(b: seq<Octet>)
  type Addr = a: RawAddr | |a.b| == (if a.V4? then 4 else 16) witness V4([0, 0, 0, 0])

  const MAPPED_PREFIX: seq<Octet> := [0, 0, 0, 0, 0, 0, 0, 0, 0, 0, 0xff, 0xff]

  /** netip.Addr.Unmap: an IPv4-mapped IPv6 address is the IPv4 address inside it. */
  function Unmap(a: Addr): Addr {
    if a.V6? && a.b[..12] == MAPPED_PREFIX then V4(a.b[12..]) else a
  }

  predicate ValidLabel(l: string) {
    1 <= |l| <= 63 && forall i :: 0 <= i < |l| ==> ' ' < l[i] <= '~'
  }

  predicate ValidDomain(name: string) {
    var n := TrimDot(name);
    n != "" && |n| <= 253
    && var labels := Split(n, "."); forall i :: 0 <= i < |labels| ==> ValidLabel(labels[i])
  }

  /** dnsresolver.Trim */
  function Trim(name: string): string {
    if name == "." then name else Lower(TrimDot(name))
  }

  lemma FoldValidLabel(a: string, b: string)
    requires EqualFold(a, b)
    ensures ValidLabel(a) == ValidLabel(b)
  {
    assert |a| == |Lower(a)| == |b|;
    forall i | 0 <= i < |a|
      ensures ' ' < a[i] <= '~' <==> ' ' < b[i] <= '~'
    {
      FoldAt(a, b, i);
    }
  }

  /** A name stays valid, or stays invalid, when its letters change case. */
  lemma FoldValidDomain(a: string, b: string)
    requires EqualFold(a, b)
    ensures ValidDomain(a) == ValidDomain(b)
  {
    FoldTrimDot(a, b);
    var na, nb := TrimDot(a), TrimDot(b);
    assert |na| == |Lower(na)| == |nb|;
    FoldSplit(na, nb, ".");
    var la, lb := Split(na, "."), Split(nb, ".");
    forall i | 0 <= i < |la|
      ensures ValidLabel(la[i]) == ValidLabel(lb[i])
    {
      FoldValidLabel(la[i], lb[i]);
    }
  }

  function Digit(n: nat): char
    requires n < 10
  {
    ('0' as int + n) as char
  }

  /** The decimal numeral of n, without leading zeros. */
  function Decimal(n: nat): (s: string)
    ensures |s| >= 1
    ensures forall i :: 0 <= i < |s| ==> IsDigit(s[i])
  {
    if n < 10 then [Digit(n)] else Decimal(n / 10) + [Digit(n % 10)]
  }

  const HEX_DIGITS := "0123456789abcdef"

  /** itoa: octets only, so three digits are enough for its buffer. */
  method Itoa(n: nat) returns (s: string)
    requires n < 1000
    ensures s == Decimal(n)
  {
    if n == 0 {
      return "0";
    }
    var buf := new char[3];
    var i, m := 3, n;
    ghost var done := "";
    while m > 0
      invariant 0 <= i <= 3
      invariant 0 <= m < (if i == 3 then 1000 else if i == 2 then 100 else if i == 1 then 10 else 1)
      invariant buf[i..] == done
      invariant m == 0 ==> done == Decimal(n)
      invariant m > 0 ==> Decimal(m) + done == Decimal(n)
      decreases m
    {
      i := i - 1;
      buf[i] := Digit(m % 10);
      assert buf[i..] == [Digit(m % 10)] + done;
      if m >= 10 {
        assert Decimal(m) + done == Decimal(m / 10) + ([Digit(m % 10)] + done);
      }
      done := [Digit(m % 10)] + done;
      m := m / 10;
    }
    return buf[i..];
  }

  /** One octet as it appears in a reverse name, its terminating dot included. */
  function OctetLabel(o: Octet): string {
    Decimal(o) + "."
  }

  /** The two nibbles of one octet in a reverse name: the low nibble comes first. */
  function NibbleLabels(o: Octet): string {
    [HEX_DIGITS[o % 16], '.', HEX_DIGITS[o / 16], '.']
  }

  /** The labels of the octets of b from the last octet to the first. */
  function ReverseLabels(b: seq<Octet>, show: Octet -> string): string {
    if b == [] then "" else show(b[|b| - 1]) + ReverseLabels(b[..|b| - 1], show)
  }

  /** The name under in-addr.arpa or ip6.arpa that addr's PTR records live at. */
  function ReverseNameSpec(addr: Addr): string {
    var a := Unmap(addr);
    if a.V4? then ReverseLabels(a.b, OctetLabel) + "in-addr.arpa."
    else ReverseLabels(a.b, NibbleLabels) + "ip6.arpa."
  }

  lemma ReverseLabelsStep(done: string, b: seq<Octet>, i: nat, show: Octet -> string)
    requires i < |b|
    ensures done + show(b[i]) + ReverseLabels(b[..i], show) == done + ReverseLabels(b[..i + 1], show)
  {
    assert b[..i + 1][..i] == b[..i];
  }

  method ReverseNameV4(b: seq<Octet>) returns (s: string)
    requires |b| == 4
    ensures s == ReverseLabels(b, OctetLabel) + "in-addr.arpa."
  {
    s := "";
    assert b[..4] == b;
    for i := 4 downto 0
      invariant s + ReverseLabels(b[..i], OctetLabel) == ReverseLabels(b, OctetLabel)
    {
      ReverseLabelsStep(s, b, i, OctetLabel);
      var d := Itoa(b[i]);
      s := s + (d + ".");
    }
    s := s + "in-addr.arpa.";
  }

  method ReverseNameV6(b: seq<Octet>) returns (s: string)
    requires |b| == 16
    ensures s == ReverseLabels(b, NibbleLabels) + "ip6.arpa."
  {
    s := "";
    assert b[..16] == b;
    for i := 16 downto 0
      invariant s + ReverseLabels(b[..i], NibbleLabels) == ReverseLabels(b, NibbleLabels)
    {
      ReverseLabelsStep(s, b, i, NibbleLabels);
      var low, high := HEX_DIGITS[b[i] % 16], HEX_DIGITS[b[i] / 16];
      assert NibbleLabels(b[i]) == [low, '.', high, '.'];
      s := s + [low, '.', high, '.'];
    }
    s := s + "ip6.arpa.";
  }

  method ReverseName(addr: Addr) returns (s: string)
    ensures s == ReverseNameSpec(addr)
  {
    var a := Unmap(addr);
    if a.V4? {
      s := ReverseNameV4(a.b);
    } else {
      s := ReverseNameV6(a.b);
    }
  }
}
