/**
 The tenant CIDR allocator: the lowest block of the pool that meets no occupied prefix, searched with
 32-bit arithmetic. Prefixes are CIDR blocks as in section 3.1 of RFC 4632.
 */
module Cidr {
  // ---------------------------------------------------------------- arithmetic

  const TWO32 := 0x1_0000_0000

  /** A 32-bit result wraps around. */
  function U32(x: int): (r: int)
    ensures 0 <= r < TWO32
  {
    x % TWO32
  }

  function Pow2(n: nat): (r: int)
    ensures r >= 1
  {
    if n == 0 then 1 else 2 * Pow2(n - 1)
  }

  lemma {:induction false} Pow2Add(a: nat, b: nat)
    ensures Pow2(a + b) == Pow2(a) * Pow2(b)
  {
    if a > 0 {
      Pow2Add(a - 1, b);
    }
  }

  lemma MulLess(a: int, b: int, s: int)
    requires s > 0 && a * s < b * s
    ensures a < b
  {}

  lemma MulLeq(a: int, b: int, s: int)
    requires s >= 0 && a <= b
    ensures a * s <= b * s
  {}

  /** A number inside the q-th interval of length s has quotient q. */
  lemma QuotientIs(x: int, s: int, q: int)
    requires s > 0 && q * s <= x < q * s + s
    ensures x / s == q
  {
    var d := x / s;
    assert x == d * s + x % s;
    MulLess(d, q + 1, s);
    MulLess(q, d + 1, s);
  }

  lemma QuotientBounds(x: int, s: int)
    requires s > 0
    ensures (x / s) * s <= x < (x / s) * s + s
  {}

  lemma Aligned(x: int, s: int)
    requires s > 0 && x % s == 0
    ensures x == x / s * s
  {}

  lemma AlignedIff(x: int, s: int)
    requires s > 0
    ensures x / s * s == x <==> x % s == 0
  {}

  lemma Associate(a: int, b: int, c: int)
    ensures a * (b * c) == (a * b) * c
  {}

  lemma MultipleAligned(q: int, s: int)
    requires s > 0
    ensures (q * s) % s == 0
  {
    QuotientIs(q * s, s, q);
  }

  /** A multiple of a multiple is a multiple. */
  lemma AlignedFiner(a: int, k: int, s: int)
    requires k > 0 && s > 0 && k * s > 0 && a % (k * s) == 0
    ensures a % s == 0
  {
    var q := a / (k * s);
    Aligned(a, k * s);
    Associate(q, k, s);
    MultipleAligned(q * k, s);
  }

  /** The i-th of k consecutive blocks of length s from an aligned start. */
  lemma BlockArithmetic(a: int, k: int, s: int, i: int)
    requires 0 <= i < k && s > 0 && a % s == 0
    ensures a <= a + i * s && a + i * s + s == a + (i + 1) * s <= a + k * s
    ensures (a + i * s) % s == 0
  {
    MulLeq(0, i, s);
    MulLeq(i + 1, k, s);
    BlockAligned(a, s, i);
  }

  lemma BlockAligned(a: int, s: int, i: int)
    requires s > 0 && a % s == 0
    ensures (a + i * s) % s == 0
  {
    var q := a / s;
    Aligned(a, s);
    assert a + i * s == (q + i) * s;
    MultipleAligned(q + i, s);
  }

  /** An aligned position among k blocks is the start of one of them. */
  lemma BlockNumber(a: int, k: int, s: int, c: int) returns (i: int)
    requires s > 0 && a % s == 0 && c % s == 0 && a <= c < a + k * s
    ensures 0 <= i < k && c == a + i * s
  {
    var qa, qc := a / s, c / s;
    Aligned(a, s);
    Aligned(c, s);
    i := qc - qa;
    assert c - a == i * s;
    MulLess(-1, i, s);
    MulLess(i, k, s);
  }

  lemma Pow2Of32()
    ensures Pow2(32) == TWO32
  {
    assert Pow2(8) == 256;
    Pow2Add(8, 8);
    Pow2Add(16, 16);
  }

  /** The leading bits: `x >> n`. */
  function ShiftRight(x: nat, n: nat): nat {
    if n == 0 then x else ShiftRight(x / 2, n - 1)
  }

  /** The low n bits cleared. */
  function ClearLow(x: nat, n: nat): (r: nat)
    ensures r <= x
  {
    if n == 0 then x else 2 * ClearLow(x / 2, n - 1)
  }

  lemma HalveThenDivide(x: nat, m: int)
    requires m > 0
    ensures x / 2 / m == x / (2 * m)
  {
    var q := x / 2 / m;
    QuotientBounds(x / 2, m);
    assert q * (2 * m) == 2 * (q * m);
    QuotientIs(x, 2 * m, q);
  }

  lemma {:induction false} ShiftDivides(x: nat, n: nat)
    ensures ShiftRight(x, n) == x / Pow2(n)
  {
    if n > 0 {
      ShiftDivides(x / 2, n - 1);
      HalveThenDivide(x, Pow2(n - 1));
    }
  }

  lemma {:induction false} ClearAligns(x: nat, n: nat)
    ensures ClearLow(x, n) == x / Pow2(n) * Pow2(n)
  {
    if n > 0 {
      ClearAligns(x / 2, n - 1);
      ClearOnce(x, Pow2(n - 1), ClearLow(x / 2, n - 1));
    }
  }

  lemma ClearOnce(x: nat, m: int, low: int)
    requires m > 0 && low == x / 2 / m * m
    ensures 2 * low == x / (2 * m) * (2 * m)
  {
    HalveThenDivide(x, m);
    Regroup(x / (2 * m), m);
  }

  lemma Regroup(q: int, m: int)
    ensures 2 * (q * m) == q * (2 * m)
  {}

  // ---------------------------------------------------------------- prefixes

  /** A parsed prefix; an IPv6 one never meets an IPv4 address. */
  datatype PrefixData = V4(addr: int, bits: int) | V6(text: string)

  predicate WellFormed(p: PrefixData) {
    p.V4? ==> 0 <= p.addr < TWO32 && 0 <= p.bits <= 32
  }

  type Prefix = p: PrefixData | WellFormed(p) witness V4(0, 0)

  function Size(bits: int): (s: int)
    requires 0 <= bits <= 32
    ensures s >= 1
  {
    Pow2(32 - bits)
  }

  /** `Prefix.Masked`: the host bits are cleared. */
  function Masked(p: Prefix): (r: Prefix) {
    if p.V4? then V4(ClearLow(p.addr, 32 - p.bits), p.bits) else p
  }

  /** `Prefix.Contains` of an IPv4 address: the leading bits agree. */
  predicate Covers(p: Prefix, addr: nat) {
    p.V4? && ShiftRight(addr, 32 - p.bits) == ShiftRight(p.addr, 32 - p.bits)
  }

  predicate Overlaps(a: Prefix, b: Prefix) {
    a.V4? && b.V4? && (Covers(a, b.addr) || Covers(b, a.addr))
  }

  predicate IsMasked(p: Prefix) {
    Masked(p) == p
  }

  /** A masked prefix starts at a multiple of its size. */
  lemma MaskedIff(p: Prefix)
    requires p.V4?
    ensures IsMasked(p) <==> p.addr % Size(p.bits) == 0
  {
    ClearAligns(p.addr, 32 - p.bits);
    AlignedIff(p.addr, Size(p.bits));
  }

  predicate InRange(p: Prefix, addr: int) {
    p.V4? && p.addr <= addr < p.addr + Size(p.bits)
  }

  /** Two prefixes share an address. */
  ghost predicate Meet(a: Prefix, b: Prefix) {
    exists x :: InRange(a, x) && InRange(b, x)
  }

  lemma MaskedIsMasked(p: Prefix)
    ensures IsMasked(Masked(p))
  {
    if p.V4? {
      ClearAligns(p.addr, 32 - p.bits);
      MultipleAligned(p.addr / Size(p.bits), Size(p.bits));
      MaskedIff(Masked(p));
    }
  }

  /** A masked prefix contains exactly the addresses of its range. */
  lemma CoversRange(p: Prefix, x: nat)
    requires p.V4? && IsMasked(p)
    ensures Covers(p, x) <==> InRange(p, x)
  {
    MaskedIff(p);
    ShiftDivides(x, 32 - p.bits);
    ShiftDivides(p.addr, 32 - p.bits);
    SameQuotient(p.addr, x, Size(p.bits));
  }

  lemma SameQuotient(a: int, x: int, s: int)
    requires s > 0 && a % s == 0
    ensures x / s == a / s <==> a <= x < a + s
  {
    Aligned(a, s);
    QuotientBounds(x, s);
    if a <= x < a + s {
      QuotientIs(x, s, a / s);
    }
  }

  /** Aligned blocks nest: a shorter one that reaches into a longer one starts inside it. */
  lemma Nested(a: int, b: int, k: int, s: int, x: int)
    requires s > 0 && k > 0 && k * s > 0 && a % (k * s) == 0 && b % s == 0
    requires a <= x && b <= x < b + s
    ensures a <= b
  {
    var qa, qb := a / (k * s), b / s;
    Aligned(a, k * s);
    Aligned(b, s);
    Associate(qa, k, s);
    MulLess(qa * k, qb + 1, s);
    MulLeq(qa * k, qb, s);
  }

  /** The start of the shorter block lies in the longer one as soon as they share an address. */
  lemma MeetCovers(a: Prefix, b: Prefix, x: int)
    requires a.V4? && b.V4? && IsMasked(a) && IsMasked(b) && a.bits <= b.bits
    requires InRange(a, x) && InRange(b, x)
    ensures Covers(a, b.addr)
  {
    var k, s := Pow2(b.bits - a.bits), Size(b.bits);
    Pow2Add(b.bits - a.bits, 32 - b.bits);
    MaskedIff(a);
    MaskedIff(b);
    assert Size(a.bits) == k * s;
    Nested(a.addr, b.addr, k, s, x);
    CoversRange(a, b.addr);
  }

  /** Checking only the two start addresses decides whether masked prefixes share any address. */
  lemma OverlapExact(a: Prefix, b: Prefix)
    requires IsMasked(a) && IsMasked(b)
    ensures Overlaps(a, b) <==> Meet(a, b)
  {
    if a.V4? && b.V4? {
      CoversRange(a, b.addr);
      CoversRange(b, a.addr);
      assert InRange(a, a.addr) && InRange(b, b.addr);
      if Meet(a, b) {
        var x :| InRange(a, x) && InRange(b, x);
        if a.bits <= b.bits {
          MeetCovers(a, b, x);
        } else {
          MeetCovers(b, a, x);
        }
      }
    }
  }

  // ---------------------------------------------------------------- addresses and 32-bit words

  function ToBytes(value: int): (r: seq<int>)
    ensures |r| == 4
  {
    [value / 0x100_0000 % 256, value / 0x1_0000 % 256, value / 0x100 % 256, value % 256]
  }

  function FromBytes(b: seq<int>): int
    requires |b| == 4
  {
    b[0] * 0x100_0000 + b[1] * 0x1_0000 + b[2] * 0x100 + b[3]
  }

  /** `addrToUint32` undoes `uint32ToAddr`. */
  lemma WordRoundTrip(value: int)
    requires 0 <= value < TWO32
    ensures FromBytes(ToBytes(value)) == value
  {
    var a, b, c := value / 0x100, value / 0x1_0000, value / 0x100_0000;
    assert b == a / 256 && c == b / 256 && 0 <= c < 256;
    assert value == a * 256 + value % 256 && a == b * 256 + a % 256 && b == c * 256 + b % 256;
  }

  /** `uint32ToAddr` undoes `addrToUint32`. */
  lemma AddressRoundTrip(b: seq<int>)
    requires |b| == 4 && forall i :: 0 <= i < 4 ==> 0 <= b[i] < 256
    ensures 0 <= FromBytes(b) < TWO32 && ToBytes(FromBytes(b)) == b
  {
    var v := FromBytes(b);
    assert v / 0x100_0000 == b[0];
    assert v / 0x1_0000 == b[0] * 0x100 + b[1];
    assert v / 0x100 == b[0] * 0x1_0000 + b[1] * 0x100 + b[2];
  }
}
