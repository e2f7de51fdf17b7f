/** Networks as blocks of numbers: comparing the first bits of two addresses is comparing the
    addresses divided by the size of the block. */
module SpfNetworks {
  import opened Names
  import opened Spf

  /** The number that octets stand for, most significant first. */
  function Number(b: seq<Octet>): nat {
    if b == [] then 0 else 256 * Number(b[..|b| - 1]) + b[|b| - 1]
  }

  function Pow2(k: nat): (p: nat)
    ensures p > 0
  {
    if k == 0 then 1 else 2 * Pow2(k - 1)
  }

  /** The address is in the block of network with that many fixed bits. */
  predicate InBlock(ip: Addr, network: Addr, bits: nat) {
    && ip.V4? == network.V4? && bits <= 8 * |network.b|
    && var size := Pow2(8 * |network.b| - bits); Number(ip.b) / size == Number(network.b) / size
  }

  // ---------------------------------------------------------------- division

  lemma DivParts(x: nat, d: nat)
    requires d > 0
    ensures (x / d) * d <= x < (x / d) * d + d
  {
  }

  lemma NextMultiple(a: nat, b: nat, d: nat)
    requires a < b
    ensures a * d + d <= b * d
  {
    assert b * d == a * d + d + (b - a - 1) * d;
  }

  lemma DivIs(x: nat, d: nat, q: nat)
    requires d > 0 && q * d <= x < q * d + d
    ensures x / d == q
  {
    var k := x / d;
    DivParts(x, d);
    if k < q {
      NextMultiple(k, q, d);
    } else if q < k {
      NextMultiple(q, k, d);
    }
  }

  lemma Pow2Octet(k: nat)
    ensures Pow2(k + 8) == 256 * Pow2(k)
  {
    assert Pow2(k + 8) == 2 * Pow2(k + 7) == 4 * Pow2(k + 6) == 8 * Pow2(k + 5) == 16 * Pow2(k + 4);
    assert Pow2(k + 4) == 2 * Pow2(k + 3) == 4 * Pow2(k + 2) == 8 * Pow2(k + 1) == 16 * Pow2(k);
  }

  /** Taking away a whole octet. */
  lemma DivOctet(v: nat, o: Octet, d: nat)
    requires d > 0
    ensures (256 * v + o) / (256 * d) == v / d
  {
    var q := v / d;
    DivParts(v, d);
    assert q * (256 * d) == 256 * (q * d);
    assert v <= q * d + d - 1;
    DivIs(256 * v + o, 256 * d, q);
  }

  // ---------------------------------------------------------------- bits of an octet

  /** The size of what the first r bits of an octet leave open. */
  function Open(r: nat): nat
    requires r <= 8
  {
    [256, 128, 64, 32, 16, 8, 4, 2, 1][r]
  }

  lemma OpenIsPow2(r: nat)
    requires r <= 8
    ensures Open(r) == Pow2(8 - r)
  {
    assert Pow2(0) == 1 && Pow2(1) == 2 && Pow2(2) == 4 && Pow2(3) == 8 && Pow2(4) == 16;
    assert Pow2(5) == 32 && Pow2(6) == 64 && Pow2(7) == 128 && Pow2(8) == 256;
  }

  lemma NextBit(o: Octet, r: nat)
    requires r < 8
    ensures o / Open(r + 1) == 2 * (o / Open(r)) + Bit(o, r)
  {
  }

  lemma {:induction false} OctetBits(a: Octet, b: Octet, r: nat)
    requires r <= 8
    ensures a / Open(r) == b / Open(r) <==> forall i :: 0 <= i < r ==> Bit(a, i) == Bit(b, i)
  {
    if r > 0 {
      OctetBits(a, b, r - 1);
      NextBit(a, r - 1);
      NextBit(b, r - 1);
      hide Bit, Open;
      assert (forall i :: 0 <= i < r ==> Bit(a, i) == Bit(b, i))
        <==> Bit(a, r - 1) == Bit(b, r - 1) && forall i :: 0 <= i < r - 1 ==> Bit(a, i) == Bit(b, i);
      BitIsBit(a, r - 1);
      BitIsBit(b, r - 1);
    }
  }

  lemma BitIsBit(o: Octet, i: nat)
    requires i < 8
    ensures Bit(o, i) == 0 || Bit(o, i) == 1
  {
  }

  /** Dividing within the last octet. */
  lemma DivWithin(v: nat, o: Octet, w: nat, p: Octet, r: nat)
    requires 1 <= r <= 8
    ensures (256 * v + o) / Open(r) == (256 * w + p) / Open(r) <==> v == w && o / Open(r) == p / Open(r)
  {
    var d := Open(r);
    assert d in {128, 64, 32, 16, 8, 4, 2, 1};
    Within(v, o, d);
    Within(w, p, d);
  }

  lemma Within(v: nat, o: Octet, d: nat)
    requires d in {128, 64, 32, 16, 8, 4, 2, 1}
    ensures (256 * v + o) / d == (256 / d) * v + o / d && o / d < 256 / d
  {
  }

  // ---------------------------------------------------------------- bits of an address

  predicate SameBits(a: seq<Octet>, b: seq<Octet>, bits: nat)
    requires |a| == |b| && bits <= 8 * |a|
  {
    forall i :: 0 <= i < bits ==> Bit(a[i / 8], i % 8) == Bit(b[i / 8], i % 8)
  }

  lemma SameBitsFront(a: seq<Octet>, b: seq<Octet>, bits: nat)
    requires 0 < |a| == |b| && bits <= 8 * (|a| - 1)
    ensures SameBits(a, b, bits) <==> SameBits(a[..|a| - 1], b[..|b| - 1], bits)
  {
    hide Bit;
  }

  lemma SameBitsLast(a: seq<Octet>, b: seq<Octet>, r: nat)
    requires 0 < |a| == |b| && r <= 8
    ensures var n := |a| - 1;
            SameBits(a, b, 8 * n + r) <==> SameBits(a[..n], b[..n], 8 * n) && forall i :: 0 <= i < r ==> Bit(a[n], i) == Bit(b[n], i)
  {
    hide Bit;
    var n := |a| - 1;
    if SameBits(a, b, 8 * n + r) {
      forall i | 0 <= i < r
        ensures Bit(a[n], i) == Bit(b[n], i)
      {
        var k := 8 * n + i;
        assert k / 8 == n && k % 8 == i;
      }
    }
    SameBitsFront(a, b, 8 * n);
  }

  /** A block of whole octets and more at the end. */
  lemma NumberFront(a: seq<Octet>, bits: nat)
    requires a != [] && bits <= 8 * (|a| - 1)
    ensures var n := |a| - 1; Number(a) / Pow2(8 * |a| - bits) == Number(a[..n]) / Pow2(8 * n - bits)
  {
    var n := |a| - 1;
    Pow2Octet(8 * n - bits);
    DivOctet(Number(a[..n]), a[n], Pow2(8 * n - bits));
    assert 8 * |a| - bits == 8 * n - bits + 8;
  }

  lemma NumberSnoc(a: seq<Octet>)
    requires a != []
    ensures Number(a) == 256 * Number(a[..|a| - 1]) + a[|a| - 1]
  {
  }

  /** A block within the last octet. */
  lemma NumberLast(a: seq<Octet>, b: seq<Octet>, r: nat)
    requires 0 < |a| == |b| && 1 <= r <= 8
    ensures var n := |a| - 1;
            (Number(a) / Open(r) == Number(b) / Open(r))
            <==> Number(a[..n]) == Number(b[..n]) && a[n] / Open(r) == b[n] / Open(r)
  {
    var n := |a| - 1;
    hide Open, Number;
    var x, y := Number(a[..n]), Number(b[..n]);
    NumberSnoc(a);
    NumberSnoc(b);
    DivWithin(x, a[n], y, b[n], r);
  }

  /** The first bits agree exactly when the numbers divided by the size of the block do. */
  lemma {:induction false} SameBitsIsDivision(a: seq<Octet>, b: seq<Octet>, bits: nat)
    requires |a| == |b| && bits <= 8 * |a|
    ensures var size := Pow2(8 * |a| - bits);
            SameBits(a, b, bits) <==> Number(a) / size == Number(b) / size
  {
    if a == [] {
      NoBits(a, b);
    } else if bits <= 8 * (|a| - 1) {
      hide SameBits, Number, Pow2;
      SameBitsFront(a, b, bits);
      SameBitsIsDivision(a[..|a| - 1], b[..|b| - 1], bits);
      NumberFront(a, bits);
      NumberFront(b, bits);
    } else {
      var n, r := |a| - 1, bits - 8 * (|a| - 1);
      assert Pow2(0) == 1;
      hide SameBits, Number, Pow2, Bit, Open;
      SameBitsLast(a, b, r);
      SameBitsIsDivision(a[..n], b[..n], 8 * n);
      OctetBits(a[n], b[n], r);
      NumberLast(a, b, r);
      OpenIsPow2(r);
    }
  }

  lemma NoBits(a: seq<Octet>, b: seq<Octet>)
    requires a == [] == b
    ensures SameBits(a, b, 0) && Number(a) == Number(b)
  {
  }

  /** A prefix match is membership in a block. */
  lemma PrefixIsBlock(network: Addr, ip: Addr, bits: nat)
    ensures SamePrefix(network, ip, bits) <==> InBlock(ip, network, bits)
  {
    if network.V4? == ip.V4? && bits <= 8 * |network.b| {
      SameBitsIsDivision(network.b, ip.b, bits);
    }
  }

  /** A block of an aligned network is an interval. */
  lemma BlockIsInterval(ip: Addr, network: Addr, bits: nat)
    requires ip.V4? == network.V4? && bits <= 8 * |network.b|
    requires Number(network.b) % Pow2(8 * |network.b| - bits) == 0
    ensures var low, size := Number(network.b), Pow2(8 * |network.b| - bits);
            InBlock(ip, network, bits) <==> low <= Number(ip.b) < low + size
  {
    var low, size, x := Number(network.b), Pow2(8 * |network.b| - bits), Number(ip.b);
    DivParts(x, size);
    assert low == (low / size) * size;
    if low <= x < low + size {
      DivIs(x, size, low / size);
    }
  }

  // ---------------------------------------------------------------- mapped addresses

  /** The 16 octets of ::ffff:w.x.y.z. */
  function Mapped(b: seq<Octet>): seq<Octet> {
    [0, 0, 0, 0, 0, 0, 0, 0, 0, 0, 255, 255] + b
  }

  /** A mapped address is the IPv4 address inside it, and every other one stays as it is. */
  lemma UnmapIsExact(a: Addr, b: Addr)
    ensures Unmap(a) == b <==> (b.V4? && a.b == Mapped(b.b)) || (a == b && !(a.V6? && a.b[..12] == Mapped([])))
  {
    assert Mapped([]) == MAPPED_PREFIX;
    if a.V6? {
      assert a.b == a.b[..12] + a.b[12..];
    }
    if a.b == Mapped(b.b) {
      assert a.b[..12] == Mapped([]) && a.b[12..] == b.b;
    }
  }
}
