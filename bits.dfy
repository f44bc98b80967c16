/** Machine words as unbounded integers.

    C's `unsigned long`, `uint64_t`, `int` and `unsigned char` are modelled as
    integers in their ranges; wrap-around, truncating casts, shifts and the
    bitwise operators the patcher uses are written out as arithmetic, and the
    lemmas below connect each bitwise form to the arithmetic fact it encodes. */
module Bits {

  /** 2^64: every `unsigned long` / `uint64_t` value is below it. */
  const U64_LIMIT: int := 0x1_0000_0000_0000_0000

  type u64 = x: int | 0 <= x < U64_LIMIT
  type byte = x: int | 0 <= x < 256

  function Pow2(k: nat): (r: nat)
    ensures r > 0
  {
    if k == 0 then 1 else 2 * Pow2(k - 1)
  }

  lemma {:induction false} Pow2Add(a: nat, b: nat)
    ensures Pow2(a + b) == Pow2(a) * Pow2(b)
  {
    if a > 0 {
      Pow2Add(a - 1, b);
      assert Pow2(a + b) == 2 * Pow2(a - 1 + b);
    }
  }

  lemma Pow2Monotonic(a: nat, b: nat)
    requires a <= b
    ensures Pow2(a) <= Pow2(b)
  {
    Pow2Add(a, b - a);
    assert Pow2(b) == Pow2(a) * Pow2(b - a);
  }

  /** The powers of two that the 8-, 32- and 64-bit types use. */
  lemma Pow2Constants()
    ensures Pow2(7) == 0x80 && Pow2(8) == 0x100
    ensures Pow2(31) == 0x8000_0000 && Pow2(32) == 0x1_0000_0000
    ensures Pow2(63) == 0x8000_0000_0000_0000 && Pow2(64) == U64_LIMIT
  {
    assert Pow2(1) == 2;
    assert Pow2(2) == 4;
    assert Pow2(3) == 8;
    assert Pow2(4) == 16;
    assert Pow2(5) == 32;
    assert Pow2(6) == 64;
    assert Pow2(7) == 128;
    assert Pow2(8) == 256;
    Pow2Add(8, 8);
    assert Pow2(16) == 0x1_0000;
    Pow2Add(16, 16);
    assert Pow2(32) == 0x1_0000 * 0x1_0000;
    Pow2Add(32, 32);
    assert Pow2(64) == 0x1_0000_0000 * 0x1_0000_0000;
    assert Pow2(32) == 2 * Pow2(31);
    assert Pow2(64) == 2 * Pow2(63);
  }

  /** Reduction modulo 2^64: the result of `unsigned long` arithmetic, and the
      bit pattern a signed value has once converted to `unsigned long`. */
  function Wrap64(x: int): u64
  {
    x % U64_LIMIT
  }

  /** Reducing an intermediate sum modulo 2^64 does not change the final residue. */
  lemma Wrap64Add(a: int, b: int)
    ensures Wrap64(Wrap64(a) + b) == Wrap64(a + b)
  {
    var q, r := a / U64_LIMIT, a % U64_LIMIT;
    var x := r + b;
    assert a == U64_LIMIT * q + r;
    assert x == U64_LIMIT * (x / U64_LIMIT) + x % U64_LIMIT;
    DivUnique(a + b, U64_LIMIT, q + x / U64_LIMIT, x % U64_LIMIT);
  }

  /** The two's-complement value of a `bits`-wide bit pattern. */
  function ToSigned(x: nat, bits: nat): (r: int)
    requires 0 < bits && x < Pow2(bits)
    ensures -(Pow2(bits - 1) as int) <= r < Pow2(bits - 1)
  {
    assert Pow2(bits) == 2 * Pow2(bits - 1);
    if x < Pow2(bits - 1) then x else x - Pow2(bits)
  }

  /** `~x` on a 64-bit unsigned value. */
  function Not64(x: u64): u64
  {
    U64_LIMIT - 1 - x
  }

  /** `x >> k` on an unsigned value. */
  function Shr(x: nat, k: nat): nat
  {
    DivNonNegative(x, Pow2(k));
    x / Pow2(k)
  }

  lemma DivNonNegative(x: nat, d: int)
    requires d > 0
    ensures x / d >= 0
  {
  }

  /** `x << k` on a 64-bit unsigned value. */
  function Shl64(x: nat, k: nat): u64
  {
    Wrap64(x * Pow2(k))
  }

  /** `a | b` on unsigned values, bit by bit from the least significant. */
  function BitOr(a: nat, b: nat): nat
    decreases a + b
  {
    if a == 0 then b
    else if b == 0 then a
    else 2 * BitOr(a / 2, b / 2) + (if a % 2 == 1 || b % 2 == 1 then 1 else 0)
  }

  /** `a & b` on unsigned values, bit by bit from the least significant. */
  function BitAnd(a: nat, b: nat): nat
    decreases a
  {
    if a == 0 || b == 0 then 0
    else 2 * BitAnd(a / 2, b / 2) + (a % 2) * (b % 2)
  }

  /** Dividing by 2^k in two steps: (x / 2) / 2^(k-1) == x / 2^k. */
  lemma DivPow2Step(x: nat, k: nat)
    requires k > 0
    ensures x / Pow2(k) == (x / 2) / Pow2(k - 1)
  {
    var p := Pow2(k - 1);
    var q, r := x / Pow2(k), x % Pow2(k);
    assert Pow2(k) == 2 * p;
    assert x == 2 * p * q + r && 0 <= r < 2 * p;
    assert x / 2 == p * q + r / 2 by {
      assert x == 2 * (p * q + r / 2) + r % 2;
    }
    DivUnique(x / 2, p, q, r / 2);
  }

  lemma MulAtLeast(d: int, a: int)
    requires d > 0 && a >= 1
    ensures d * a >= d
  {
    assert d * a == d * (a - 1) + d;
  }

  /** Division is determined by any decomposition with an in-range remainder. */
  lemma DivUnique(x: int, d: int, q: int, r: int)
    requires 0 < d && 0 <= r < d && x == d * q + r
    ensures x / d == q && x % d == r
  {
    var q', r' := x / d, x % d;
    assert x == d * q' + r' && 0 <= r' < d;
    assert d * (q - q') == r' - r;
    assert d * (q' - q) == r - r';
    if q > q' {
      MulAtLeast(d, q - q');
    } else if q < q' {
      MulAtLeast(d, q' - q);
    }
  }

  /** A value below 2^k has no bits at or above bit k. */
  lemma ShrZero(x: nat, k: nat)
    ensures Shr(x, k) == 0 <==> x < Pow2(k)
  {
    var p := Pow2(k);
    if x < p {
      DivUnique(x, p, 0, x);
    } else {
      assert x == p * (x / p) + x % p && x % p < p;
    }
  }

  /** OR-ing bytes above the low k bits of m is addition: the lanes are disjoint. */
  lemma {:induction false} OrDisjoint(m: nat, b: nat, k: nat)
    requires m < Pow2(k)
    ensures BitOr(m, b * Pow2(k)) == m + b * Pow2(k)
  {
    var c := b * Pow2(k);
    if k == 0 {
      assert m == 0;
    } else if m != 0 && c != 0 {
      var c' := b * Pow2(k - 1);
      assert c == 2 * c';
      assert c / 2 == c' && c % 2 == 0;
      assert m / 2 < Pow2(k - 1);
      OrDisjoint(m / 2, b, k - 1);
      assert BitOr(m, c) == 2 * (m / 2 + c') + m % 2;
    }
  }

  /** AND with the low j bits set keeps a value that already fits in them. */
  lemma {:induction false} AndLowOnes(y: nat, j: nat)
    requires y < Pow2(j)
    ensures BitAnd(y, Pow2(j) - 1) == y
  {
    if j > 0 && y > 0 {
      var ones := Pow2(j) - 1;
      assert Pow2(j) == 2 * Pow2(j - 1);
      assert ones / 2 == Pow2(j - 1) - 1 && ones % 2 == 1;
      AndLowOnes(y / 2, j - 1);
      assert BitAnd(y, ones) == 2 * (y / 2) + y % 2;
    }
  }

  /** AND with an even pattern drops the lowest bit of the other operand. */
  lemma AndDouble(a: nat, c: nat)
    requires a != 0 && c != 0
    ensures BitAnd(a, 2 * c) == 2 * BitAnd(a / 2, c)
  {
    assert (2 * c) / 2 == c && (2 * c) % 2 == 0;
    assert (a % 2) * ((2 * c) % 2) == 0;
  }

  lemma MulTwice(x: int, p: int, p': int)
    requires p == 2 * p'
    ensures x * p == 2 * (x * p')
  {
  }

  /** One step of `AndShifted`, with every product named so that the solver
      does not unfold them. */
  lemma AndShiftedStep(a: nat, c: nat, k: nat, p: nat, p': nat, c': nat, cp: nat, x: nat, s: nat)
    requires k > 0 && a != 0 && c != 0
    requires p == Pow2(k) && p' == Pow2(k - 1) && c' == c * p' && cp == c * p
    requires s == Shr(a, k) && x == BitAnd(s, c)
    requires BitAnd(a / 2, c') == BitAnd(Shr(a / 2, k - 1), c) * p'
    ensures BitAnd(a, cp) == x * p
  {
    assert p == 2 * p';
    MulTwice(c, p, p');
    MulAtLeast(p', c);
    DivPow2Step(a, k);
    AndDouble(a, c');
    MulTwice(x, p, p');
  }

  /** AND with a pattern shifted left by k is the AND of the shifted-down value. */
  lemma {:induction false} AndShifted(a: nat, c: nat, k: nat)
    ensures BitAnd(a, c * Pow2(k)) == BitAnd(Shr(a, k), c) * Pow2(k)
  {
    if k == 0 {
      assert Shr(a, k) == a;
    } else if a == 0 {
      assert Shr(a, k) == 0;
    } else if c == 0 {
      assert BitAnd(Shr(a, k), c) == 0;
    } else {
      AndShifted(a / 2, c, k - 1);
      AndShiftedStep(a, c, k, Pow2(k), Pow2(k - 1), c * Pow2(k - 1), c * Pow2(k),
                     BitAnd(Shr(a, k), c), Shr(a, k));
    }
  }

  /** The low k bits set: the mask `ip_gen_offset` builds for k / 8 bytes. */
  function Ones(k: nat): (r: u64)
    requires k <= 64
    ensures r == Pow2(k) - 1
  {
    Pow2Constants();
    Pow2Monotonic(k, 64);
    Pow2(k) - 1
  }

  /** A quotient of a value below p * h by p is below h. */
  lemma DivBelow(a: nat, p: nat, h: nat)
    requires p > 0 && a < p * h
    ensures a / p < h
  {
    var q := a / p;
    assert a == p * q + a % p && 0 <= a % p;
    assert p * q == p * (q - h + 1) + p * (h - 1);
    if q >= h {
      MulAtLeast(p, q - h + 1);
    }
  }

  /** `~mask` for a mask of the low k bits is the 64 - k high bits, shifted. */
  lemma NotOnes(k: nat, p: nat, h: nat)
    requires k <= 64 && p == Pow2(k) && h == Pow2(64 - k)
    ensures Not64(Ones(k)) == (h - 1) * p
    ensures U64_LIMIT == h * p
  {
    Pow2Constants();
    Pow2Add(64 - k, k);
    assert h * p == U64_LIMIT;
    MulPred(h, p);
  }

  lemma MulPred(h: int, p: int)
    ensures (h - 1) * p == h * p - p
  {
  }

  /** `a & ~mask` is zero exactly when a fits in the mask's k low bits.  This is
      how a mask of k one-bits tests that a 64-bit value is below 2^k. */
  lemma AndNotLowMask(a: u64, k: nat)
    requires k <= 64
    ensures BitAnd(a, Not64(Ones(k))) == 0 <==> a < Pow2(k)
  {
    var p, h := Pow2(k), Pow2(64 - k);
    NotOnes(k, p, h);
    var s := Shr(a, k);
    AndShifted(a, h - 1, k);
    assert BitAnd(a, Not64(Ones(k))) == BitAnd(s, h - 1) * p;
    DivBelow(a, p, h);
    AndLowOnes(s, 64 - k);
    assert BitAnd(a, Not64(Ones(k))) == s * p;
    ShrZero(a, k);
    if s != 0 {
      MulAtLeast(p, s);
    }
  }

  /** `x & 1` is the lowest bit. */
  lemma AndOne(x: nat)
    ensures BitAnd(x, 1) == x % 2
  {
    if x != 0 {
      assert BitAnd(x / 2, 0) == 0;
    }
  }

  /** The n bytes of `v`'s low 8n bits, least significant first: how a
      little-endian machine stores v, and what `memcpy` of n bytes copies. */
  function LeBytes(v: nat, n: nat): (r: seq<byte>)
    ensures |r| == n
  {
    if n == 0 then [] else [v % 256] + LeBytes(v / 256, n - 1)
  }

  /** The unsigned value of little-endian bytes. */
  function LeValue(b: seq<byte>): nat
  {
    if b == [] then 0 else b[0] + 256 * LeValue(b[1..])
  }

  /** Reducing modulo 256 * p splits into the low byte and the rest modulo p. */
  lemma ModByteSplit(v: nat, p: nat)
    requires p > 0
    ensures v % (256 * p) == v % 256 + 256 * ((v / 256) % p)
    ensures (v % (256 * p)) % 256 == v % 256
    ensures (v % (256 * p)) / 256 == (v / 256) % p
  {
    var q, r := (v / 256) / p, (v / 256) % p;
    assert v / 256 == p * q + r;
    assert v == 256 * p * q + (256 * r + v % 256);
    DivUnique(v, 256 * p, q, 256 * r + v % 256);
    DivUnique(256 * r + v % 256, 256, r, v % 256);
  }

  lemma {:induction false} LeRoundTrip(v: nat, n: nat)
    ensures LeValue(LeBytes(v, n)) == v % Pow2(8 * n)
  {
    if n > 0 {
      LeRoundTrip(v / 256, n - 1);
      Pow2Constants();
      Pow2Add(8, 8 * (n - 1));
      assert Pow2(8 * n) == 256 * Pow2(8 * (n - 1));
      ModByteSplit(v, Pow2(8 * (n - 1)));
      assert LeBytes(v, n)[1..] == LeBytes(v / 256, n - 1);
    }
  }

  /** Eight little-endian bytes hold a 64-bit value exactly. */
  lemma LeRoundTrip64(v: u64)
    ensures LeValue(LeBytes(v, 8)) == v
  {
    LeRoundTrip(v, 8);
    Pow2Constants();
    assert 8 * 8 == 64;
  }

  /** The stored bytes depend only on the low 8n bits of the value. */
  lemma {:induction false} LeBytesLowBits(v: nat, n: nat)
    ensures LeBytes(v % Pow2(8 * n), n) == LeBytes(v, n)
  {
    if n > 0 {
      Pow2Constants();
      Pow2Add(8, 8 * (n - 1));
      var p := Pow2(8 * (n - 1));
      assert Pow2(8 * n) == 256 * p;
      ModByteSplit(v, p);
      LeBytesLowBits(v / 256, n - 1);
    }
  }

  /** The first n of m stored bytes are the n-byte store: copying fewer bytes
      of the same value keeps its low end. */
  lemma {:induction false} LeBytesPrefix(v: nat, n: nat, m: nat)
    requires n <= m
    ensures LeBytes(v, m)[..n] == LeBytes(v, n)
  {
    if n > 0 {
      LeBytesPrefix(v / 256, n - 1, m - 1);
      assert LeBytes(v, m)[..n] == [v % 256] + LeBytes(v / 256, m - 1)[..n - 1];
    }
  }

  /** `memcpy(dst + at, src, n)` within a local buffer: the first n bytes of
      `src` replace n bytes of `dst` from position `at`, and nothing else changes. */
  method MemCpy(dst: array<byte>, at: nat, src: seq<byte>, n: nat)
    requires n <= |src| && at + n <= dst.Length
    modifies dst
    ensures dst[..] == old(dst[..at]) + src[..n] + old(dst[at + n..])
  {
    forall j | 0 <= j < n {
      dst[at + j] := src[j];
    }
  }
}
