/** Addresses and prefix matching of the SPF checker (pkg/spf/checker.go; net.IP of the Go library). */
module Cidr {
  import opened Wrappers

  /** net.IP: 4 or 16 octets, big-endian. */
  type IP = seq<Octet>

  const MAPPED: IP := [0, 0, 0, 0, 0, 0, 0, 0, 0, 0, 255, 255]

  function To4(ip: IP): Option<IP> {
    if |ip| == 4 then Some(ip) else if |ip| == 16 && ip[..12] == MAPPED then Some(ip[12..]) else None
  }

  function To16(ip: IP): Option<IP> {
    if |ip| == 4 then Some(MAPPED + ip) else if |ip| == 16 then Some(ip) else None
  }

  /** net.IP.Equal: an IPv4 address equals its IPv4-mapped form. */
  predicate Equal(a: IP, b: IP) {
    a == b || (To4(a).Some? && To4(a) == To4(b))
  }

  function Canonical(ip: IP): IP {
    if To4(ip).Some? then To4(ip).value else ip
  }

  // ----- The specification: big-endian integers and division -----

  function Pow2(n: nat): (r: nat)
    ensures r > 0
  {
    if n == 0 then 1 else 2 * Pow2(n - 1)
  }

  /** x / 2^k, one bit at a time. */
  function Shift(x: nat, k: nat): nat {
    if k == 0 then x else Shift(x / 2, k - 1)
  }

  function Value(ip: IP): nat {
    if ip == [] then 0 else Value(ip[..|ip| - 1]) * 256 + ip[|ip| - 1]
  }

  function Clamp(bits: int, max: nat): (r: nat)
    ensures r <= max
  {
    if bits < 0 then 0 else if bits > max then max else bits
  }

  /** The first `bits` bits of an address, as an integer. */
  function Prefix(ip: IP, bits: int): nat {
    Shift(Value(ip), 8 * |ip| - Clamp(bits, 8 * |ip|))
  }

  predicate SameNetwork(a: IP, b: IP, bits: int) {
    |a| == |b| && Prefix(a, bits) == Prefix(b, bits)
  }

  // ----- Arithmetic -----

  lemma SmallMultiple(d: nat, k: int)
    requires -1 * d < d * k < d
    ensures k == 0
  {
  }

  /** Quotient and remainder are unique. */
  lemma Digits(d: nat, q: int, r: nat, q': int, r': nat)
    requires r < d && r' < d
    ensures d * q + r == d * q' + r' <==> q == q' && r == r'
  {
    if d * q + r == d * q' + r' {
      assert d * (q - q') == d * q - d * q';
      SmallMultiple(d, q - q');
    }
  }

  lemma DivUnique(x: nat, d: nat, q: int, r: nat)
    requires r < d && x == d * q + r
    ensures x / d == q
  {
    Digits(d, q, r, x / d, x % d);
  }

  lemma HalveThenDivide(x: nat, p: nat)
    requires p > 0
    ensures x / (2 * p) == x / 2 / p
  {
    var q, r := x / 2 / p, x / 2 % p;
    assert x / 2 == p * q + r;
    assert 2 * p * q == 2 * (p * q);
    DivUnique(x, 2 * p, q, 2 * r + x % 2);
  }

  /** Shifting by k bits is dividing by 2^k. */
  lemma {:induction false} ShiftIsDivision(x: nat, k: nat)
    ensures Shift(x, k) == x / Pow2(k)
  {
    if k > 0 {
      ShiftIsDivision(x / 2, k - 1);
      HalveThenDivide(x, Pow2(k - 1));
    }
  }

  lemma {:induction false} ShiftSum(x: nat, j: nat, k: nat)
    ensures Shift(x, j + k) == Shift(Shift(x, j), k)
  {
    if j > 0 {
      ShiftSum(x / 2, j - 1, k);
    }
  }

  /** Shifts within an octet, in numbers. */
  lemma ShiftsWithinOctet(x: nat)
    ensures Shift(x, 1) == x / 2 && Shift(x, 2) == x / 4 && Shift(x, 3) == x / 8 && Shift(x, 4) == x / 16
    ensures Shift(x, 5) == x / 32 && Shift(x, 6) == x / 64 && Shift(x, 7) == x / 128 && Shift(x, 8) == x / 256
  {
  }

  // ----- Prefixes octet by octet -----

  /** Dropping eight more bits drops one more octet. */
  lemma {:induction false} DropOctets(ip: IP, m: nat)
    requires m <= |ip|
    ensures Shift(Value(ip), 8 * m) == Value(ip[..|ip| - m])
  {
    if m == 0 {
      assert ip[..|ip|] == ip;
    } else {
      var init := ip[..|ip| - 1];
      DropOctets(init, m - 1);
      assert init[..|init| - (m - 1)] == ip[..|ip| - m];
      ShiftSum(Value(ip), 8, 8 * (m - 1));
      ShiftsWithinOctet(Value(ip));
    }
  }

  lemma {:induction false} ValueInjective(a: IP, b: IP)
    requires |a| == |b| && Value(a) == Value(b)
    ensures a == b
  {
    if a != [] {
      var n := |a| - 1;
      ValueInjective(a[..n], b[..n]);
      assert a == a[..n] + [a[n]] && b == b[..n] + [b[n]];
    }
  }

  /** The bits of octet `x` that the mask 0xff << (8 - r) keeps. */
  function Masked(x: Octet, r: nat): Octet
    requires 0 < r < 8
  {
    if r == 1 then x - x % 128
    else if r == 2 then x - x % 64
    else if r == 3 then x - x % 32
    else if r == 4 then x - x % 16
    else if r == 5 then x - x % 8
    else if r == 6 then x - x % 4
    else x - x % 2
  }

  /** The same bits as a number below 2^r. */
  function Upper(x: Octet, r: nat): nat
    requires 0 < r < 8
  {
    if r == 1 then x / 128
    else if r == 2 then x / 64
    else if r == 3 then x / 32
    else if r == 4 then x / 16
    else if r == 5 then x / 8
    else if r == 6 then x / 4
    else x / 2
  }

  /** 2^r */
  function Two(r: nat): nat
    requires 0 < r < 8
  {
    if r == 1 then 2
    else if r == 2 then 4
    else if r == 3 then 8
    else if r == 4 then 16
    else if r == 5 then 32
    else if r == 6 then 64
    else 128
  }

  lemma MaskedIsUpper(x: Octet, y: Octet, r: nat)
    requires 0 < r < 8
    ensures Masked(x, r) == Masked(y, r) <==> Upper(x, r) == Upper(y, r)
  {
  }

  lemma ShiftSplits(v: nat, x: Octet, r: nat)
    requires 0 < r < 8
    ensures Shift(v * 256 + x, 8 - r) == Two(r) * v + Upper(x, r) && Upper(x, r) < Two(r)
  {
    hide Shift;
    ShiftsWithinOctet(v * 256 + x);
  }

  /** Dropping the bits that the mask clears leaves the octets above, and the masked octet's upper bits. */
  lemma ShiftAgrees(v: nat, w: nat, x: Octet, y: Octet, r: nat)
    requires 0 < r < 8
    ensures Shift(v * 256 + x, 8 - r) == Shift(w * 256 + y, 8 - r) <==> v == w && Masked(x, r) == Masked(y, r)
  {
    hide Shift, Masked, Upper, Two;
    ShiftSplits(v, x, r);
    ShiftSplits(w, y, r);
    MaskedIsUpper(x, y, r);
    Digits(Two(r), v, Upper(x, r), w, Upper(y, r));
  }

  /** Same network at a byte boundary: the octets before it agree. */
  lemma SameOctets(a: IP, b: IP, q: nat)
    requires |a| == |b| && q <= |a|
    ensures SameNetwork(a, b, 8 * q) <==> a[..q] == b[..q]
  {
    DropOctets(a, |a| - q);
    DropOctets(b, |b| - q);
    if Value(a[..q]) == Value(b[..q]) {
      ValueInjective(a[..q], b[..q]);
    }
  }

  /** Same network within an octet: those before it agree, and so do the masked octets. */
  lemma SameBits(a: IP, b: IP, q: nat, r: nat)
    requires |a| == |b| && q < |a| && 0 < r < 8
    ensures SameNetwork(a, b, 8 * q + r) <==> a[..q] == b[..q] && Masked(a[q], r) == Masked(b[q], r)
  {
    var m := |a| - q - 1;
    PrefixWithinOctet(a, q, r);
    PrefixWithinOctet(b, q, r);
    ShiftAgrees(Value(a[..q]), Value(b[..q]), a[q], b[q], r);
    if Value(a[..q]) == Value(b[..q]) {
      ValueInjective(a[..q], b[..q]);
    }
  }

  lemma PrefixWithinOctet(ip: IP, q: nat, r: nat)
    requires q < |ip| && 0 < r < 8
    ensures Prefix(ip, 8 * q + r) == Shift(Value(ip[..q]) * 256 + ip[q], 8 - r)
  {
    var m := |ip| - q - 1;
    ShiftSum(Value(ip), 8 * m, 8 - r);
    DropOctets(ip, m);
    assert ip[..q + 1][..q] == ip[..q];
  }

  // ----- The code -----

  method CidrMatch(ip: IP, network: IP, bits: int) returns (match_: bool)
    ensures match_ <==> SameNetwork(Canonical(ip), Canonical(network), bits)
  {
    var a, b := ip, network;
    if To4(a).Some? {
      a := To4(a).value;
    }
    if To4(b).Some? {
      b := To4(b).value;
    }
    if |a| != |b| {
      return false;
    }
    if bits <= 0 {
      SameOctets(a, b, 0);
      return true;
    }
    if bits >= |a| * 8 {
      SameOctets(a, b, |a|);
      assert a[..|a|] == a && b[..|b|] == b;
      return Equal(a, b);
    }
    var fullBytes := bits / 8;
    var i := 0;
    while i < fullBytes
      invariant i <= fullBytes && a[..i] == b[..i]
    {
      if a[i] != b[i] {
        DifferentOctet(a, b, i, bits);
        return false;
      }
      i := i + 1;
    }
    var remaining := bits % 8;
    if remaining > 0 {
      SameBits(a, b, fullBytes, remaining);
      return Masked(a[fullBytes], remaining) == Masked(b[fullBytes], remaining);
    }
    SameOctets(a, b, fullBytes);
    return true;
  }

  lemma DifferentOctet(a: IP, b: IP, i: nat, bits: nat)
    requires |a| == |b| && i < bits / 8 && bits < 8 * |a| && a[i] != b[i]
    ensures !SameNetwork(a, b, bits)
  {
    var q, r := bits / 8, bits % 8;
    assert a[..q][i] != b[..q][i];
    if r > 0 {
      SameBits(a, b, q, r);
    } else {
      SameOctets(a, b, q);
    }
  }

  // ----- Consequences -----

  /** The prefix is the address as a big-endian integer, divided by two to the number of bits left out. */
  lemma SameNetworkInNumbers(a: IP, b: IP, bits: int)
    ensures SameNetwork(a, b, bits) <==>
      |a| == |b| && (var left := Pow2(8 * |a| - Clamp(bits, 8 * |a|)); Value(a) / left == Value(b) / left)
  {
    ShiftIsDivision(Value(a), 8 * |a| - Clamp(bits, 8 * |a|));
    ShiftIsDivision(Value(b), 8 * |b| - Clamp(bits, 8 * |b|));
  }

  /** For a fixed prefix length, matching is an equivalence on addresses. */
  lemma NetworksPartition(a: IP, b: IP, c: IP, bits: int)
    ensures SameNetwork(a, a, bits)
    ensures SameNetwork(a, b, bits) ==> SameNetwork(b, a, bits)
    ensures SameNetwork(a, b, bits) && SameNetwork(b, c, bits) ==> SameNetwork(a, c, bits)
  {
  }

  /** A match at some length is a match at every shorter one. */
  lemma ShorterPrefixMatches(a: IP, b: IP, short: int, long: int)
    requires short <= long && SameNetwork(a, b, long)
    ensures SameNetwork(a, b, short)
  {
    var n := 8 * |a|;
    var s, l := Clamp(short, n), Clamp(long, n);
    ShiftSum(Value(a), n - l, l - s);
    ShiftSum(Value(b), n - l, l - s);
  }

  /** Two networks are nested or have nothing in common. */
  lemma NetworksNest(a: IP, b: IP, short: int, long: int)
    requires short <= long
    ensures (forall c :: SameNetwork(b, c, long) ==> SameNetwork(a, c, short))
         || (forall c :: SameNetwork(b, c, long) ==> !SameNetwork(a, c, short))
  {
    forall c | SameNetwork(b, c, long)
      ensures SameNetwork(a, c, short) <==> SameNetwork(a, b, short)
    {
      ShorterPrefixMatches(b, c, short, long);
      NetworksPartition(a, b, c, short);
      NetworksPartition(a, c, b, short);
    }
  }
}
