/**
 * IPv4 addresses and CIDR blocks, with the parsing rules of Python's
 * `ipaddress` module that the rule engine depends on: `ip_address` for a
 * dotted quad and `ip_network(..., strict=False)` for a network, whose host
 * bits are masked off. A parsed network is kept as the closed interval
 * [network address, broadcast address].
 */
module IPv4 {

  import opened Wrappers
  import opened Text

  const AddressCount: nat := 0x1_0000_0000
  const MaxAddress: nat := 0xFFFF_FFFF

  type Addr = a: nat | a < 0x1_0000_0000

  /**
   * One octet of a dotted quad: one to three ASCII digits, no leading zero
   * unless the octet is "0", and a value of at most 255.
   */
  function ParseOctet(s: string): (r: Option<nat>)
    ensures r.Some? ==> r.value < 256 && 1 <= |s| <= 3 && AllDigits(s)
  {
    if s == [] || !AllDigits(s) || |s| > 3 || (s != "0" && s[0] == '0') then None
    else
      var v := DigitsValue(s);
      if v > 255 then None else Some(v)
  }

  function FromOctets(a: nat, b: nat, c: nat, d: nat): (x: Addr)
    requires a < 256 && b < 256 && c < 256 && d < 256
  {
    ((a * 256 + b) * 256 + c) * 256 + d
  }

  /** `ipaddress.ip_address(s)` for IPv4: exactly four dot-separated octets. */
  function ParseAddress(s: string): (r: Option<Addr>)
    ensures r.Some? ==> |Split(s, '.')| == 4
  {
    var parts := Split(s, '.');
    if |parts| != 4 then None
    else
      match (ParseOctet(parts[0]), ParseOctet(parts[1]), ParseOctet(parts[2]), ParseOctet(parts[3]))
      case (Some(a), Some(b), Some(c), Some(d)) => Some(FromOctets(a, b, c, d))
      case _ => None
  }

  /** `str(address)`: the dotted quad, most significant octet first. */
  function FormatAddress(x: Addr): (s: string)
  {
    var r1 := x / 256;
    var r2 := r1 / 256;
    NatToDecimal(r2 / 256) + "." + NatToDecimal(r2 % 256) + "." + NatToDecimal(r1 % 256) + "." + NatToDecimal(x % 256)
  }

  lemma OctetRoundTrip(n: nat)
    requires n < 256
    ensures ParseOctet(NatToDecimal(n)) == Some(n)
  {
    DecimalLength(n);
    DecimalRoundTrip(n);
  }

  lemma NoDotInDigits(s: string)
    requires AllDigits(s)
    ensures '.' !in s && '/' !in s
  {
  }

  lemma SplitQuad(a: string, b: string, c: string, d: string)
    requires AllDigits(a) && AllDigits(b) && AllDigits(c) && AllDigits(d)
    ensures Split(a + "." + b + "." + c + "." + d, '.') == [a, b, c, d]
  {
    NoDotInDigits(a);
    NoDotInDigits(b);
    NoDotInDigits(c);
    NoDotInDigits(d);
    assert a + "." + b + "." + c + "." + d == a + ['.'] + (b + ['.'] + (c + ['.'] + d));
    SplitJoin(a, '.', b + ['.'] + (c + ['.'] + d));
    SplitJoin(b, '.', c + ['.'] + d);
    SplitJoin(c, '.', d);
  }

  lemma OctetsRecombine(x: Addr)
    ensures var r1 := x / 256; var r2 := r1 / 256;
            r2 / 256 < 256 && FromOctets(r2 / 256, r2 % 256, r1 % 256, x % 256) == x
  {
  }

  /** Parsing what `str(address)` printed gives the address back. */
  lemma AddressRoundTrip(x: Addr)
    ensures ParseAddress(FormatAddress(x)) == Some(x)
  {
    var r1 := x / 256;
    var r2 := r1 / 256;
    OctetsRecombine(x);
    var a, b, c, d := r2 / 256, r2 % 256, r1 % 256, x % 256;
    SplitQuad(NatToDecimal(a), NatToDecimal(b), NatToDecimal(c), NatToDecimal(d));
    OctetRoundTrip(a);
    OctetRoundTrip(b);
    OctetRoundTrip(c);
    OctetRoundTrip(d);
  }

  function Pow2(k: nat): (p: nat)
    ensures p >= 1
  {
    if k == 0 then 1 else 2 * Pow2(k - 1)
  }

  lemma {:induction false} Pow2Add(i: nat, j: nat)
    ensures Pow2(i) * Pow2(j) == Pow2(i + j)
  {
    if i > 0 {
      Pow2Add(i - 1, j);
      assert Pow2(i) * Pow2(j) == 2 * (Pow2(i - 1) * Pow2(j));
    }
  }

  lemma Pow2Of32()
    ensures Pow2(32) == AddressCount
  {
    assert Pow2(2) == 4;
    Pow2Add(2, 2);
    Pow2Add(4, 4);
    Pow2Add(8, 8);
    Pow2Add(16, 16);
  }

  lemma Pow2Split(k: nat)
    requires k <= 32
    ensures Pow2(32 - k) * Pow2(k) == AddressCount
  {
    Pow2Add(32 - k, k);
    Pow2Of32();
  }

  lemma MulLe(a: nat, b: nat, p: nat)
    requires a <= b
    ensures a * p <= b * p
  {
    assert b * p - a * p == (b - a) * p;
  }

  lemma DivModUnique(a: nat, p: nat, q: nat, r: nat)
    requires p >= 1 && r < p && a == q * p + r
    ensures a / p == q && a % p == r
  {
    var q', r' := a / p, a % p;
    assert a == q' * p + r';
    if q' > q {
      MulLe(q + 1, q', p);
    } else if q' < q {
      MulLe(q' + 1, q, p);
    }
  }

  /** If `a` is below a multiple `p * m`, the multiple of `p` at or below `a` leaves room for one more `p`. */
  lemma AlignedBelow(a: nat, p: nat, m: nat)
    requires p >= 1 && a < p * m
    ensures a - a % p + p <= p * m
  {
    var q := a / p;
    assert a == q * p + a % p;
    if q >= m {
      MulLe(m, q, p);
    }
    MulLe(q + 1, m, p);
    assert (q + 1) * p == q * p + p;
  }

  lemma AlignFacts(x: nat, p: nat, m: nat)
    requires p >= 1 && x < p * m
    ensures x % p <= x && x - x % p + p <= p * m && (x - x % p) % p == 0
  {
    AlignedBelow(x, p, m);
    var q := x / p;
    assert x - x % p == q * p + 0;
    DivModUnique(x - x % p, p, q, 0);
  }

  lemma CidrFacts(x: Addr, len: nat)
    requires len <= 32
    ensures x % Pow2(32 - len) <= x
    ensures x - x % Pow2(32 - len) + Pow2(32 - len) <= AddressCount
    ensures (x - x % Pow2(32 - len)) % Pow2(32 - len) == 0
  {
    Pow2Split(len);
    AlignFacts(x, Pow2(32 - len), Pow2(len));
  }

  /** A network as the closed interval of its addresses. */
  datatype Block = Block(lo: Addr, hi: Addr)

  /**
   * The network `x/len` with the host bits of `x` cleared, as
   * `ip_network(..., strict=False)` builds it.
   */
  function CidrBlock(x: Addr, len: nat): (b: Block)
    requires len <= 32
    ensures b.lo <= x <= b.hi
    ensures b.hi - b.lo + 1 == Pow2(32 - len) && b.lo % Pow2(32 - len) == 0
  {
    var size := Pow2(32 - len);
    CidrFacts(x, len);
    var lo := x - x % size;
    Block(lo, lo + size - 1)
  }

  /** `ip in network`: the address agrees with the network address on the prefix bits. */
  predicate InBlock(b: Block, a: nat)
  {
    b.lo <= a <= b.hi
  }

  /** `Contains` on a CIDR block is the mask test `a & netmask == network_address`. */
  lemma InCidrIffMasked(x: Addr, len: nat, a: Addr)
    requires len <= 32
    ensures var p := Pow2(32 - len);
            InBlock(CidrBlock(x, len), a) <==> a - a % p == CidrBlock(x, len).lo
  {
    var p := Pow2(32 - len);
    var b := CidrBlock(x, len);
    var q := b.lo / p;
    assert b.lo == q * p;
    if InBlock(b, a) {
      var r := a - b.lo;
      assert 0 <= r < p;
      assert a == q * p + r;
      DivModUnique(a, p, q, r);
    }
  }

  /** `network.overlaps(other)`, which tests the four end points one against the other. */
  predicate Overlaps(n: Block, other: Block)
  {
    InBlock(other, n.lo) || InBlock(other, n.hi) || InBlock(n, other.lo) || InBlock(n, other.hi)
  }

  /** `network.subnet_of(other)`: the other network starts no later and ends no earlier. */
  predicate SubnetOf(n: Block, other: Block)
  {
    other.lo <= n.lo && n.hi <= other.hi
  }

  /** The end-point test of `overlaps` is exactly "the two networks share an address". */
  lemma OverlapsIffShareAddress(n: Block, other: Block)
    requires n.lo <= n.hi && other.lo <= other.hi
    ensures Overlaps(n, other) <==> exists a: nat :: InBlock(n, a) && InBlock(other, a)
  {
    if exists a: nat :: InBlock(n, a) && InBlock(other, a) {
      var a: nat :| InBlock(n, a) && InBlock(other, a);
      if n.lo <= other.lo {
        assert InBlock(n, other.lo);
      } else {
        assert InBlock(other, n.lo);
      }
    }
  }

  /** `subnet_of` is inclusion of address sets. */
  lemma SubnetOfIffIncluded(n: Block, other: Block)
    requires n.lo <= n.hi
    ensures SubnetOf(n, other) <==> forall a: nat :: InBlock(n, a) ==> InBlock(other, a)
  {
    if forall a: nat :: InBlock(n, a) ==> InBlock(other, a) {
      assert InBlock(n, n.lo) && InBlock(n, n.hi);
    }
  }

  /** A subnet of a network overlaps it. */
  lemma SubnetImpliesOverlap(n: Block, other: Block)
    requires n.lo <= n.hi && SubnetOf(n, other)
    ensures Overlaps(n, other)
  {
    assert InBlock(other, n.lo);
  }

  /** The prefix length after '/': decimal digits, leading zeros allowed, at most 32. */
  function ParsePrefixLength(s: string): (r: Option<nat>)
    ensures r.Some? ==> r.value <= 32
  {
    if s != [] && AllDigits(s) && DigitsValue(s) <= 32 then Some(DigitsValue(s)) else None
  }

  /**
   * `ipaddress.ip_network(s, strict=False)` for IPv4: an address, optionally
   * followed by '/' and a prefix length; a bare address is a /32.
   */
  function ParseNetwork(s: string): (r: Option<Block>)
    ensures r.Some? ==> r.value.lo <= r.value.hi
    ensures r.Some? ==> exists x: Addr, len: nat :: len <= 32 && r.value == CidrBlock(x, len)
  {
    var parts := Split(s, '/');
    if |parts| > 2 then None
    else
      match ParseAddress(parts[0])
      case None => None
      case Some(x) =>
        var len := if |parts| == 1 then Some(32) else ParsePrefixLength(parts[1]);
        match len
        case None => None
        case Some(n) => Some(CidrBlock(x, n))
  }

  /** A bare address parses as the single-address network around it. */
  lemma BareAddressIsHost(x: Addr)
    ensures ParseNetwork(FormatAddress(x)) == Some(Block(x, x))
  {
    var r1 := x / 256;
    var r2 := r1 / 256;
    var A, B, C, D := NatToDecimal(r2 / 256), NatToDecimal(r2 % 256), NatToDecimal(r1 % 256), NatToDecimal(x % 256);
    NoDotInDigits(A);
    NoDotInDigits(B);
    NoDotInDigits(C);
    NoDotInDigits(D);
    var s := FormatAddress(x);
    assert s == A + "." + B + "." + C + "." + D;
    assert '/' !in s;
    assert Split(s, '/') == [s];
    AddressRoundTrip(x);
    var b := CidrBlock(x, 32);
    assert Pow2(0) == 1;
  }

  /** A network written "a.b.c.d/n" parses as the CIDR block of that address and length. */
  lemma CidrRoundTrip(x: Addr, n: nat)
    requires n <= 32
    ensures ParseNetwork(FormatAddress(x) + "/" + NatToDecimal(n)) == Some(CidrBlock(x, n))
  {
    var r1 := x / 256;
    var r2 := r1 / 256;
    var A, B, C, D := NatToDecimal(r2 / 256), NatToDecimal(r2 % 256), NatToDecimal(r1 % 256), NatToDecimal(x % 256);
    NoDotInDigits(A);
    NoDotInDigits(B);
    NoDotInDigits(C);
    NoDotInDigits(D);
    var a := FormatAddress(x);
    assert a == A + "." + B + "." + C + "." + D;
    assert '/' !in a;
    var len := NatToDecimal(n);
    NoDotInDigits(len);
    SplitJoin(a, '/', len);
    assert a + "/" + len == a + ['/'] + len;
    assert Split(a + "/" + len, '/') == [a, len];
    AddressRoundTrip(x);
    DecimalRoundTrip(n);
    assert ParsePrefixLength(len) == Some(n);
  }
}
