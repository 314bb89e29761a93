/** Failure-carrying results, used where the engine throws. */
module Results {
  datatype Option<+T> = None | Some(value: T)

  datatype Result<+T, +E> = Success(value: T) | Failure(error: E)
}

/** Machine words: 64-bit wrap-around, little-endian byte images and the bit operations the engine uses. */
module Words {
  const TWO_31 := 0x8000_0000
  const TWO_32 := 0x1_0000_0000
  const TWO_64 := 0x1_0000_0000_0000_0000

  type byte = x: int | 0 <= x < 256
  type u32 = x: int | 0 <= x < TWO_32
  type u64 = x: int | 0 <= x < TWO_64

  function Wrap(x: int): u64 {
    x % TWO_64
  }

  lemma WrapAdd(x: int, y: int)
    ensures Wrap(Wrap(x) + y) == Wrap(x + y)
  {
  }

  // ---------- Little-endian images ----------

  function Power(base: nat, n: nat): (p: nat)
    ensures base > 0 ==> p > 0
  {
    if n == 0 then 1 else base * Power(base, n - 1)
  }

  /** The `n` bytes that memcpy of a little-endian integer produces. */
  function LeBytes(x: nat, n: nat): (bs: seq<byte>)
    ensures |bs| == n
  {
    if n == 0 then [] else [x % 256] + LeBytes(x / 256, n - 1)
  }

  function FromLe(bs: seq<byte>): nat {
    if bs == [] then 0 else bs[0] + 256 * FromLe(bs[1..])
  }

  lemma {:induction false} LeRoundTrip(x: nat, n: nat)
    requires x < Power(256, n)
    ensures FromLe(LeBytes(x, n)) == x
  {
    if n != 0 {
      assert x / 256 < Power(256, n - 1);
      LeRoundTrip(x / 256, n - 1);
      assert LeBytes(x, n)[1..] == LeBytes(x / 256, n - 1);
    }
  }

  lemma QuadRoundTrip(x: u64)
    ensures FromLe(LeBytes(x, 8)) == x
  {
    assert Power(256, 4) == TWO_32;
    assert Power(256, 8) == TWO_64;
    LeRoundTrip(x, 8);
  }

  lemma DwordRoundTrip(x: u32)
    ensures FromLe(LeBytes(x, 4)) == x
  {
    assert Power(256, 4) == TWO_32;
    LeRoundTrip(x, 4);
  }

  /** Two's-complement reading of an unsigned value of `bits` = 8 or 32 bits. */
  function Signed8(x: byte): int {
    if x < 128 then x else x - 256
  }

  function Signed32(x: int): int {
    if x < TWO_31 then x else x - TWO_32
  }

  // ---------- Bit masks ----------

  /** `n ^ 1`. */
  function XorOne(n: nat): nat {
    if n % 2 == 0 then n + 1 else n - 1
  }

  /** Bitwise `a & b`. */
  function And(a: nat, b: nat): nat
    decreases a
  {
    if a == 0 then 0 else 2 * And(a / 2, b / 2) + (a % 2) * (b % 2)
  }

  /** Bitwise `~x` on a 64-bit word. */
  function Not64(x: u64): u64 {
    TWO_64 - 1 - x
  }

  lemma {:induction false} AndOnes(a: nat, w: nat)
    requires a < Power(2, w)
    ensures And(a, Power(2, w) - 1) == a
  {
    if a != 0 {
      assert (Power(2, w) - 1) / 2 == Power(2, w - 1) - 1;
      AndOnes(a / 2, w - 1);
    }
  }

  lemma {:induction false} PowerAdd(base: nat, m: nat, n: nat)
    ensures Power(base, m + n) == Power(base, m) * Power(base, n)
  {
    if m != 0 {
      PowerAdd(base, m - 1, n);
      var p, q := Power(base, m - 1), Power(base, n);
      assert base * (p * q) == base * p * q;
    }
  }

  lemma WordPowers()
    ensures Power(2, 63) * 2 == Power(2, 64) == TWO_64
  {
    assert Power(2, 8) == 256;
    PowerAdd(2, 8, 8);
    PowerAdd(2, 16, 16);
    PowerAdd(2, 32, 32);
    PowerAdd(2, 1, 63);
    assert Power(2, 1) == 2;
  }

  lemma {:induction false} PowerMonotone(m: nat, n: nat)
    requires m <= n
    ensures Power(2, m) <= Power(2, n)
  {
    if m < n {
      PowerMonotone(m, n - 1);
    }
  }

  /** The multiple of `d` at or below `a`. */
  function RoundDown(a: nat, d: nat): nat
    requires d > 0
  {
    a / d * d
  }

  /** Masking with `2^w - 2^k` clears the low `k` bits of a `w`-bit number. */
  lemma {:induction false} AndHighMask(a: nat, k: nat, w: nat)
    requires k <= w && a < Power(2, w)
    ensures Power(2, w) >= Power(2, k)
    ensures And(a, Power(2, w) - Power(2, k)) == RoundDown(a, Power(2, k))
  {
    hide And, RoundDown;
    PowerMonotone(k, w);
    if k == 0 {
      AndOnes(a, w);
      RoundDownByOne(a);
    } else {
      PowerMonotone(k - 1, w - 1);
      AndHighMask(a / 2, k - 1, w - 1);
      AndHighStep(a, Power(2, k - 1), Power(2, w - 1));
    }
  }

  lemma RoundDownByOne(a: nat)
    ensures RoundDown(a, Power(2, 0)) == a
  {
  }

  lemma AndHighStep(a: nat, p: nat, q: nat)
    requires 0 < p <= q && And(a / 2, q - p) == RoundDown(a / 2, p)
    ensures And(a, 2 * q - 2 * p) == RoundDown(a, 2 * p)
  {
    DoubleRoundDown(a, p);
    var h := q - p;
    assert 2 * q - 2 * p == 2 * h;
    if a != 0 {
      assert 2 * h / 2 == h && 2 * h % 2 == 0;
    }
  }

  lemma DoubleRoundDown(a: nat, p: nat)
    requires p > 0
    ensures RoundDown(a, 2 * p) == 2 * RoundDown(a / 2, p)
  {
    DivDiv(a, p);
    var q := a / 2 / p;
    assert q * (2 * p) == 2 * (q * p);
  }

  lemma DivDiv(a: nat, p: nat)
    requires p > 0
    ensures a / (2 * p) == a / 2 / p
  {
    var h := a / 2;
    var q, r := h / p, h % p;
    assert a == 2 * p * q + 2 * r + a % 2;
    assert 0 <= 2 * r + a % 2 < 2 * p;
    DivUnique(a, 2 * p, q, 2 * r + a % 2);
  }

  lemma DivUnique(a: int, d: int, q: int, r: int)
    requires d > 0 && 0 <= r < d && a == d * q + r
    ensures a / d == q && a % d == r
  {
    var q', r' := a / d, a % d;
    assert a == d * q' + r';
    if q < q' {
      assert d * (q' - q) >= d by { MulAtLeast(d, q' - q); }
    } else if q' < q {
      assert d * (q - q') >= d by { MulAtLeast(d, q - q'); }
    }
  }

  lemma PositiveFactor(d: int, n: int)
    requires d > 0 && d * n > 0
    ensures n >= 1
  {
  }

  lemma MulAtLeast(d: int, n: int)
    requires d > 0 && n >= 1
    ensures d * n >= d
  {
  }
}

/** Finite sets. */
module Sets {
  lemma {:induction false} SubsetSize<T>(a: set<T>, b: set<T>)
    requires a <= b
    ensures |a| <= |b|
    decreases a
  {
    if a != {} {
      var x :| x in a;
      SubsetSize(a - {x}, b - {x});
    }
  }
}
