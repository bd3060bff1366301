/** Machine words: `size_t` and pointers on a 64-bit target.  Sums and negations wrap modulo 2^64
    and `&` is the bitwise operation; the lemmas say what the mask idioms of the linker compute. */
module Words {

  const MODULUS: int := 0x1_0000_0000_0000_0000

  const SSIZE_MAX: int := 0x7FFF_FFFF_FFFF_FFFF

  type word = x: int | 0 <= x < MODULUS

  function Wrap(x: int): (w: word) {
    x % MODULUS
  }

  function Pow2(k: nat): (p: int)
    ensures p > 0
    ensures k > 0 ==> p % 2 == 0
  {
    if k == 0 then 1 else 2 * Pow2(k - 1)
  }

  /** Bitwise `&`, one binary digit at a time. */
  function And(x: nat, y: nat): (z: nat)
    ensures z <= x && z <= y
  {
    if x == 0 || y == 0 then 0 else (if x % 2 == 1 && y % 2 == 1 then 1 else 0) + 2 * And(x / 2, y / 2)
  }

  /** Two's-complement negation, C's unary minus on `size_t`. */
  function Neg(x: int): (w: word) {
    Wrap(-x)
  }

  ghost predicate IsPow2(a: int) {
    exists k: nat :: k < 64 && a == Pow2(k)
  }

  function Max(a: int, b: int): int {
    if a < b then b else a
  }

  /** The macro MAXP2(a,b). */
  function MaxP2(a: word, b: word): (r: word) {
    AndIsWord(Neg(a), Neg(b));
    Neg(And(Neg(a), Neg(b)))
  }

  /** The macro ALIGN(x,y), and the expression `x+PAGE_SIZE-1 & -PAGE_SIZE` it abbreviates. */
  function Align(x: word, y: word): (r: word) {
    And(Wrap(x + y - 1), Neg(y))
  }

  lemma AndIsWord(x: word, y: word)
    ensures 0 <= And(x, y) < MODULUS
  {}

  lemma {:induction false} Pow2Add(a: nat, b: nat)
    ensures Pow2(a + b) == Pow2(a) * Pow2(b)
  {
    if a > 0 {
      Pow2Add(a - 1, b);
    }
  }

  lemma Pow2OfWord()
    ensures Pow2(64) == MODULUS
  {
    assert Pow2(8) == 0x100;
    Pow2Add(8, 8);
    assert Pow2(16) == 0x1_0000;
    Pow2Add(16, 16);
    assert Pow2(32) == 0x1_0000_0000;
    Pow2Add(32, 32);
  }

  lemma {:induction false} Pow2Order(i: nat, j: nat)
    requires i <= j
    ensures Pow2(i) <= Pow2(j)
    ensures i < j ==> Pow2(i) < Pow2(j)
  {
    if i < j {
      Pow2Order(i, j - 1);
    }
  }

  lemma Pow2Divides(i: nat, j: nat)
    requires i <= j
    ensures Pow2(j) % Pow2(i) == 0
  {
    Pow2Add(j - i, i);
    MulMod(Pow2(j - i), Pow2(i));
  }

  lemma MulMod(q: nat, d: nat)
    requires d > 0
    ensures q * d % d == 0 && q * d / d == q
  {
    DivUnique(q * d, d, q, 0);
  }

  lemma MulLower(k: int, d: int)
    requires d > 0
    ensures k > 0 ==> k * d >= d
    ensures k < 0 ==> k * d <= -d
  {}

  /** Quotient and remainder are the only pair with their defining property. */
  lemma DivUnique(x: int, d: int, q: int, r: int)
    requires 0 <= r < d && x == q * d + r
    ensures x / d == q && x % d == r
  {
    var k := x / d - q;
    assert k * d == (x / d) * d - q * d;
    assert k * d == r - x % d;
    MulLower(k, d);
  }

  lemma AndEven(x: nat, h: nat)
    ensures And(x, 2 * h) == 2 * And(x / 2, h)
  {
    assert 2 * h / 2 == h && 2 * h % 2 == 0;
  }

  lemma AndOdd(x: nat, h: nat)
    ensures And(x, 2 * h + 1) == x % 2 + 2 * And(x / 2, h)
  {
    assert (2 * h + 1) / 2 == h && (2 * h + 1) % 2 == 1;
  }

  /** `x & (2^k - 1)` keeps the remainder modulo 2^k. */
  lemma {:induction false} AndLowMask(x: nat, k: nat)
    ensures And(x, Pow2(k) - 1) == x % Pow2(k)
  {
    if k > 0 {
      var h := Pow2(k - 1);
      AndLowMask(x / 2, k - 1);
      AndOdd(x, h - 1);
      HalfMod(x, h);
      assert Pow2(k) == 2 * h;
    }
  }

  lemma HalfMod(x: nat, h: nat)
    requires h > 0
    ensures x % (2 * h) == x % 2 + 2 * (x / 2 % h)
  {
    var q, r := x / 2 / h, x / 2 % h;
    assert x == 2 * (q * h + r) + x % 2;
    assert x == q * (2 * h) + (2 * r + x % 2);
    DivUnique(x, 2 * h, q, 2 * r + x % 2);
  }

  /** `x & -(2^k)` on n-bit words clears the remainder modulo 2^k. */
  lemma {:induction false} AndHighMask(x: nat, n: nat, k: nat)
    requires x < Pow2(n) && k <= n
    ensures Pow2(k) <= Pow2(n)
    ensures And(x, Pow2(n) - Pow2(k)) == x - x % Pow2(k)
  {
    hide And;
    Pow2Order(k, n);
    if k == n {
      DivUnique(x, Pow2(n), 0, x);
    } else if k == 0 {
      AndLowMask(x, n);
      DivUnique(x, Pow2(n), 0, x);
    } else {
      var m, h := Pow2(n - 1), Pow2(k - 1);
      AndHighMask(x / 2, n - 1, k - 1);
      HalfMod(x, h);
      AndEven(x, m - h);
      assert Pow2(n) - Pow2(k) == 2 * (m - h);
    }
  }

  lemma Pow2IsWord(k: nat)
    requires k < 64
    ensures 1 <= Pow2(k) < MODULUS
    ensures MODULUS % Pow2(k) == 0
  {
    Pow2OfWord();
    Pow2Order(k, 64);
    Pow2Divides(k, 64);
  }

  lemma NegIs(x: int)
    requires 0 < x < MODULUS
    ensures Neg(x) == MODULUS - x
  {}

  /** Masking with `a-1`, for a power of two `a`, is the remainder. */
  lemma MaskIsMod(x: word, a: word)
    requires IsPow2(a)
    ensures a > 0 && And(x, a - 1) == x % a
  {
    var k: nat :| k < 64 && a == Pow2(k);
    AndLowMask(x, k);
  }

  /** Masking with `-a`, for a power of two `a`, rounds down to a multiple. */
  lemma MaskIsRoundDown(x: word, a: word)
    requires IsPow2(a)
    ensures a > 0 && And(x, Neg(a)) == x - x % a
  {
    var k: nat :| k < 64 && a == Pow2(k);
    Pow2IsWord(k);
    NegIs(a);
    Pow2OfWord();
    AndHighMask(x, 64, k);
  }

  /** Wrapping does not change a remainder modulo a power of two. */
  lemma WrapMod(x: int, a: int)
    requires IsPow2(a)
    ensures a > 0 && Wrap(x) % a == x % a
  {
    var k: nat :| k < 64 && a == Pow2(k);
    Pow2IsWord(k);
    var c, q := MODULUS / a, x / MODULUS;
    assert MODULUS == c * a && x == q * MODULUS + Wrap(x);
    hide Wrap, Pow2, IsPow2;
    Regroup(q, c, a);
    ModShift(Wrap(x), q * c, a);
  }

  lemma Regroup(q: int, c: int, a: int)
    ensures q * (c * a) == (q * c) * a
  {}

  lemma ModShift(y: int, m: int, a: int)
    requires a > 0
    ensures (y + m * a) % a == y % a
  {
    assert (y / a + m) * a == y / a * a + m * a;
    DivUnique(y + m * a, a, y / a + m, y % a);
  }

  lemma WrapShift(x: int, k: int)
    ensures Wrap(x + k * MODULUS) == Wrap(x)
  {
    DivUnique(x + k * MODULUS, MODULUS, x / MODULUS + k, x % MODULUS);
  }

  /** Wrapping an operand first makes no difference to a wrapped sum or difference. */
  lemma WrapSum(x: int, y: int)
    ensures Wrap(x + Wrap(y)) == Wrap(x + y)
  {
    WrapShift(x + y, -(y / MODULUS));
  }

  lemma WrapDiff(x: int, y: int)
    ensures Wrap(x - Wrap(y)) == Wrap(x - y)
  {
    WrapShift(x - y, y / MODULUS);
  }

  lemma WrapSmall(x: int)
    requires 0 <= x < MODULUS
    ensures Wrap(x) == x
  {}

  lemma SubMod(x: int, y: int, d: int)
    requires d > 0 && x % d == 0 && y % d == 0
    ensures (x - y) % d == 0
  {
    assert (x / d - y / d) * d == (x / d) * d - (y / d) * d;
    DivUnique(x - y, d, x / d - y / d, 0);
  }

  lemma SubModLess(x: int, y: int, d: int)
    requires 0 < y < d && x % d == 0
    ensures (x - y) % d == d - y
  {
    assert (x / d - 1) * d == (x / d) * d - d;
    DivUnique(x - y, d, x / d - 1, d - y);
  }

  lemma AndNegs(a: word, b: word)
    requires IsPow2(a) && IsPow2(b) && 0 < a && 0 < b && MODULUS % b == 0
    requires a < b || a % b == 0
    ensures And(Neg(a), Neg(b)) == MODULUS - Max(a, b)
  {
    NegIs(a);
    MaskIsRoundDown(MODULUS - a, b);
    if a < b {
      SubModLess(MODULUS, a, b);
    } else {
      SubMod(MODULUS, a, b);
    }
  }

  /** MAXP2 is the maximum of two powers of two. */
  lemma MaxP2IsMax(a: word, b: word)
    requires IsPow2(a) && IsPow2(b)
    ensures MaxP2(a, b) == Max(a, b)
  {
    var i: nat :| i < 64 && a == Pow2(i);
    var j: nat :| j < 64 && b == Pow2(j);
    Pow2IsWord(i);
    Pow2IsWord(j);
    if i < j {
      Pow2Order(i, j);
    } else {
      Pow2Order(j, i);
      Pow2Divides(j, i);
    }
    AndNegs(a, b);
    NegIs(MODULUS - Max(a, b));
  }

  /** `x` is a multiple of `d`, said without division so that it stays cheap in invariants. */
  ghost predicate Multiple(x: int, d: int) {
    d > 0 && exists q: int :: Times(q, d) == x
  }

  function Times(q: int, d: int): int {
    q * d
  }

  lemma MultipleIsMod(x: int, d: int)
    requires d > 0
    ensures Multiple(x, d) <==> x % d == 0
  {
    if x % d == 0 {
      assert Times(x / d, d) == x;
    }
    if Multiple(x, d) {
      var q: int :| Times(q, d) == x;
      DivUnique(x, d, q, 0);
    }
  }

  lemma MultipleSum(x: int, y: int, d: int)
    requires Multiple(x, d) && Multiple(y, d)
    ensures Multiple(x + y, d) && Multiple(x - y, d)
  {
    var p: int :| Times(p, d) == x;
    var q: int :| Times(q, d) == y;
    assert Times(p + q, d) == x + y && Times(p - q, d) == x - y;
  }

  /** A multiple closer to zero than `d` is zero. */
  lemma MultipleSmall(x: int, d: int)
    requires Multiple(x, d) && -d < x < d
    ensures x == 0
  {
    var q: int :| Times(q, d) == x;
    MulLower(q, d);
  }

  lemma MultipleTrans(x: int, big: int, small: int, c: int)
    requires Multiple(x, big) && big == c * small && small > 0
    ensures Multiple(x, small)
  {
    var q: int :| Times(q, big) == x;
    assert q * (c * small) == (q * c) * small;
    assert Times(q * c, small) == x;
  }

  /** A multiple of a power of two is a multiple of every smaller power of two. */
  lemma MultiplePow2(x: int, big: int, small: int)
    requires IsPow2(big) && IsPow2(small) && small <= big && Multiple(x, big)
    ensures Multiple(x, small)
  {
    var i: nat :| i < 64 && small == Pow2(i);
    var j: nat :| j < 64 && big == Pow2(j);
    if j < i {
      Pow2Order(j, i);
    } else {
      Pow2Add(j - i, i);
      MultipleTrans(x, big, small, Pow2(j - i));
    }
  }

  lemma RoundDown(s: int, y: int)
    requires y > 0
    ensures s - y < s - s % y <= s && (s - s % y) % y == 0
  {
    DivUnique(s - s % y, y, s / y, 0);
  }

  /** ALIGN rounds up to the next multiple when the sum does not wrap. */
  lemma AlignIsRoundUp(x: word, y: word)
    requires IsPow2(y) && x + y - 1 < MODULUS
    ensures y > 0 && x <= Align(x, y) < x + y && Align(x, y) % y == 0
  {
    hide And, Neg;
    WrapSmall(x + y - 1);
    MaskIsRoundDown(x + y - 1, y);
    RoundDown(x + y - 1, y);
  }
}
