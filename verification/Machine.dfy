/** Fixed-width machine arithmetic, written out over the unbounded integers. */
module Machine {

  const TWO_32: int := 0x1_0000_0000
  const TWO_64: int := 0x1_0000_0000_0000_0000

  type u32 = x: int | 0 <= x < TWO_32
  type u64 = x: int | 0 <= x < TWO_64
  type byte = x: int | 0 <= x < 256
  type s32 = x: int | -0x8000_0000 <= x < 0x8000_0000

  datatype Option<+T> = None | Some(value: T)

  /** The low 32 bits of an integer. */
  function Wrap32(x: int): u32 {
    x % TWO_32
  }

  /** The low 64 bits of an integer. */
  function Wrap64(x: int): u64 {
    x % TWO_64
  }

  function Add32(a: u32, b: u32): u32 {
    Wrap32(a + b)
  }

  function Sub32(a: u32, b: u32): u32 {
    Wrap32(a - b)
  }

  function Add64(a: u64, b: int): u64 {
    Wrap64(a + b)
  }

  function Sub64(a: u64, b: u64): u64 {
    Wrap64(a - b)
  }

  function Min(a: int, b: int): int {
    if a <= b then a else b
  }

  function Max(a: int, b: int): int {
    if a <= b then b else a
  }

  /** Bitwise conjunction of two naturals. */
  function And(a: nat, b: nat): nat {
    if a == 0 || b == 0 then 0 else (a % 2) * (b % 2) + 2 * And(a / 2, b / 2)
  }

  function Pow2(k: nat): (p: nat)
    ensures p >= 1
  {
    if k == 0 then 1 else 2 * Pow2(k - 1)
  }

  lemma AndHalves(a: nat, p: nat)
    requires p > 0
    ensures And(a, 2 * p - 1) == a % 2 + 2 * And(a / 2, p - 1)
  {
    RemainderUnique(2 * p - 1, 2, p - 1, 1);
  }

  /** Masking with 2^k - 1 is the remainder by 2^k. */
  lemma {:induction false} AndMask(a: nat, k: nat)
    ensures And(a, Pow2(k) - 1) == a % Pow2(k)
  {
    if k == 0 {
    } else if a == 0 {
      RemainderUnique(0, Pow2(k), 0, 0);
    } else {
      var p := Pow2(k - 1);
      assert Pow2(k) == 2 * p;
      hide And, Pow2;
      AndHalves(a, p);
      AndMask(a / 2, k - 1);
      HalfMod(a, p);
    }
  }

  lemma HalfMod(a: nat, p: nat)
    requires p > 0
    ensures a % (2 * p) == a % 2 + 2 * ((a / 2) % p)
  {
    var q, r := (a / 2) / p, (a / 2) % p;
    assert a == (a / 2) * 2 + a % 2;
    assert a / 2 == q * p + r;
    assert a == (2 * p) * q + (2 * r + a % 2) by {
      assert (q * p) * 2 == (2 * p) * q;
    }
    RemainderUnique(a, 2 * p, q, 2 * r + a % 2);
  }

  /** Euclidean division is determined by its quotient and remainder. */
  lemma RemainderUnique(a: int, m: int, q: int, r: int)
    requires m > 0 && 0 <= r < m && a == m * q + r
    ensures a % m == r && a / m == q
  {
    var d := a / m - q;
    assert m * d == r - a % m by {
      assert m * (a / m) + a % m == a;
      assert m * d == m * (a / m) - m * q;
    }
    if d >= 1 {
      MulMonotone(m, 1, d);
    } else if d <= -1 {
      MulMonotone(m, d, -1);
    }
  }

  /**
   Unsigned division, written as repeated subtraction so that a proof deals with division by a variable
   only where it calls QuotientIsDivision.
   */
  function Quotient(a: nat, n: nat): (q: nat)
    requires n > 0
    ensures q <= a
  {
    if a < n then 0 else 1 + Quotient(a - n, n)
  }

  lemma {:induction false} QuotientIsDivision(a: nat, n: nat)
    requires n > 0
    ensures Quotient(a, n) == a / n
  {
    if a < n {
      RemainderUnique(a, n, 0, a);
    } else {
      var b := a - n;
      QuotientIsDivision(b, n);
      RemainderUnique(a, n, b / n + 1, b % n);
    }
  }

  /** Adding a multiple of m does not change the remainder by m. */
  lemma ModShift(x: int, m: int, q: int)
    requires m > 0
    ensures (x + m * q) % m == x % m
  {
    assert m * (x / m + q) == m * (x / m) + m * q;
    RemainderUnique(x + m * q, m, x / m + q, x % m);
  }

  /** A wrapped counter may be wrapped before or after a further step. */
  lemma AddToWrapped(a: int, n: int)
    ensures Wrap32(Wrap32(a) + n) == Wrap32(a + n)
    ensures Wrap32(Wrap32(a) - n) == Wrap32(a - n)
  {
    var q := a / TWO_32;
    ModShift(a % TWO_32 + n, TWO_32, q);
    ModShift(a % TWO_32 - n, TWO_32, q);
  }

  /** The difference of two wrapped counters is the true difference when that fits in 32 bits. */
  lemma SubOfWrapped(a: int, b: int)
    requires b <= a < b + TWO_32
    ensures Sub32(Wrap32(a), Wrap32(b)) == a - b
  {
    var q := b / TWO_32 - a / TWO_32;
    ModShift(a % TWO_32 - b % TWO_32, TWO_32, -q);
    RemainderUnique(a - b, TWO_32, 0, a - b);
  }

  lemma MulMonotone(m: int, a: int, b: int)
    requires m >= 0 && a <= b
    ensures m * a <= m * b
  {
  }

  /** Reducing modulo a multiple of m first does not change the remainder by m. */
  lemma ModOfMod(x: int, m: int, c: int)
    requires m > 0 && c > 0
    ensures (x % (m * c)) % m == x % m
  {
    assert m * c > 0;
    var n := m * c;
    var r := x % n;
    assert r == m * (r / m) + r % m;
    assert x == n * (x / n) + r;
    var q := c * (x / n) + r / m;
    assert n * (x / n) == m * (c * (x / n)) by { MulAssociative(m, c, x / n); }
    assert m * q == m * (c * (x / n)) + m * (r / m);
    RemainderUnique(x, m, q, r % m);
  }

  lemma MulAssociative(a: int, b: int, c: int)
    ensures (a * b) * c == a * (b * c)
  {
  }

  /** Two different integers less than m apart have different remainders by m. */
  lemma NearbyRemaindersDiffer(a: int, b: int, m: int)
    requires m > 0 && a < b < a + m
    ensures a % m != b % m
  {
    if a % m == b % m {
      var d := b / m - a / m;
      assert m * d == b - a by {
        assert m * d == m * (b / m) - m * (a / m);
      }
      if d >= 1 {
        MulMonotone(m, 1, d);
      } else {
        MulMonotone(m, d, 0);
      }
    }
  }

  lemma {:induction false} Pow2Divides(j: nat, k: nat)
    requires j <= k
    ensures Pow2(k) == Pow2(j) * Pow2(k - j)
  {
    if j < k {
      Pow2Divides(j, k - 1);
      var a, b := Pow2(j), Pow2(k - 1 - j);
      assert Pow2(k) == 2 * Pow2(k - 1) && Pow2(k - j) == 2 * b;
      hide Pow2;
      MulAssociative(a, b, 2);
    }
  }
}
