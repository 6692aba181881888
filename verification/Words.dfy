/** Machine integers of the 32-bit target, as bounded mathematical integers. */
module Words {
  /** Number of values of a `uint32_t`, a `size_t` or a pointer. */
  const WORD := 0x1_0000_0000
  /** Number of values of a `uint16_t`. */
  const HALFWORD := 0x1_0000

  type byte = b: int | 0 <= b < 256
  type u16 = h: int | 0 <= h < HALFWORD
  type u32 = w: int | 0 <= w < WORD

  datatype Option<+T> = None | Some(value: T)

  function Max(a: int, b: int): int {
    if a >= b then a else b
  }

  function Min(a: int, b: int): int {
    if a <= b then a else b
  }

  /** Conversion to an unsigned integer: reduction modulo its number of values. */
  function Wrap(n: int): u32 {
    n % WORD
  }

  lemma WrapsToItself(n: nat)
    ensures n < WORD ==> Wrap(n) == n
  {
  }

  lemma WrapAdds(a: int, b: int)
    ensures Wrap(Wrap(a) + b) == Wrap(a + b)
  {
  }

  lemma WrapDiffers(a: int, d: int)
    requires 0 < d < WORD
    ensures Wrap(a) != Wrap(a + d)
  {
  }

  function Wrap16(n: int): u16 {
    n % HALFWORD
  }

  /** Division as C does it: towards zero. */
  function Quot(n: int, d: int): int
    requires d > 0
  {
    if n >= 0 then n / d else -(-n / d)
  }

  function Rem(n: int, d: int): int
    requires d > 0
  {
    n - Quot(n, d) * d
  }

  lemma Assoc<T>(a: seq<T>, b: seq<T>, c: seq<T>)
    ensures (a + b) + c == a + (b + c)
  {
  }

  lemma SubSlice<T>(s: seq<T>, i: nat, n: nat, j: nat, k: nat)
    requires i <= n <= |s| && j <= k <= n - i
    ensures s[i..n][j..k] == s[i + j..i + k]
  {
    var r, t := s[i..n][j..k], s[i + j..i + k];
    assert |r| == |t| && forall l :: 0 <= l < |r| ==> r[l] == s[i + j + l] && t[l] == s[i + j + l];
  }

  lemma SliceBehind<T>(a: seq<T>, b: seq<T>, i: nat, j: nat)
    requires i <= j <= |b|
    ensures (a + b)[|a| + i..|a| + j] == b[i..j]
  {
  }

  // ---------------------------------------------------------------- division by a variable

  lemma Times(p: nat, a: int, b: int)
    requires a <= b
    ensures p * a <= p * b
  {
  }

  lemma DivUnique(t: int, p: nat, q: int, r: int)
    requires 0 <= r < p && t == p * q + r
    ensures t / p == q
  {
    if t / p < q { Times(p, t / p + 1, q); }
    if t / p > q { Times(p, q + 1, t / p); }
  }

  lemma DivShift(p: nat, x: int, e: int)
    requires p > 0
    ensures (p * x + e) / p == x + e / p
  {
    var q, r := e / p, e % p;
    assert p * x + e == p * (x + q) + r;
    DivUnique(p * x + e, p, x + q, r);
  }

  lemma QuotientTwice(n: nat, p: nat, q: nat)
    requires p > 0 && q > 0
    ensures q * p > 0 && n / p / q == n / (q * p)
  {
    var a, b := n / p, n / p / q;
    var r, s := n % p, a % q;
    assert n == p * a + r && a == q * b + s;
    assert n == (q * p) * b + (p * s + r) by { assert p * (q * b) == (q * p) * b; }
    Times(p, s, q - 1);
    assert p * (q - 1) == q * p - p;
    assert 0 <= p * s;
    DivUnique(n, q * p, b, p * s + r);
  }

  lemma QuotientAtMost(t: int, p: nat, q: nat)
    requires p >= 2 && t <= 2 * q
    ensures t / p <= q
  {
    if t / p > q {
      Times(p, q + 1, t / p);
      Times(q + 1, 2, p);
    }
  }

  lemma ModShift(p: nat, x: int, e: int)
    requires p > 0
    ensures (p * x + e) % p == e % p
  {
    DivShift(p, x, e);
    assert p * (x + e / p) == p * x + p * (e / p);
  }

  // ---------------------------------------------------------------- shifts

  /** 1 << k */
  function Power2(k: nat): (p: nat)
    ensures p > 0
  {
    if k == 0 then 1 else 2 * Power2(k - 1)
  }

  lemma {:induction false} Power2Bound(k: nat)
    requires k <= 32
    ensures Power2(k) <= WORD
    decreases 32 - k
  {
    if k < 32 {
      Power2Bound(k + 1);
    } else {
      assert Power2(8) == 0x100;
      assert Power2(16) == 0x100 * Power2(8);
      assert Power2(24) == 0x100 * Power2(16);
      assert Power2(32) == 0x100 * Power2(24);
    }
  }
}
