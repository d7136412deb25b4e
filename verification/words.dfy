/** Machine words as bounded integers, and the bitwise operations that the library uses on them. */
module Words {

  const WORD: nat := 0x1_0000_0000_0000_0000

  /** The largest word, used by the C++ headers as a "no index" mark. */
  const SIZE_MAX: nat := WORD - 1

  type Word = x: int | 0 <= x < WORD

  /** A char is signed on the targets of this library. */
  type Char = c: int | -128 <= c < 128

  datatype Option<+T> = None | Some(value: T)

  /** Reduction modulo 2^64: what an unsigned 64-bit operation leaves. */
  function Wrap(x: int): Word {
    x % WORD
  }

  lemma WrapSmall(x: Word)
    ensures Wrap(x) == x
  {
  }

  function Pow2(k: nat): (p: nat)
    ensures p >= 1
  {
    if k == 0 then 1 else 2 * Pow2(k - 1)
  }

  ghost predicate IsPow2(n: nat) {
    exists k: nat :: n == Pow2(k)
  }

  /** Bitwise AND, bit by bit from the least significant end. */
  function And(a: nat, b: nat): nat {
    if a == 0 || b == 0 then 0
    else 2 * And(a / 2, b / 2) + (if a % 2 == 1 && b % 2 == 1 then 1 else 0)
  }

  /** The remainder, by name: proofs that only need facts about it hide its nonlinear definition. */
  function Rem(x: nat, m: nat): nat
    requires m > 0
  {
    x % m
  }

  lemma HalveMod(x: nat, m: nat)
    requires m > 0
    ensures Rem(x, 2 * m) == 2 * Rem(x / 2, m) + x % 2
  {
    var q, r := (x / 2) / m, (x / 2) % m;
    assert x == 2 * (m * q + r) + x % 2;
    assert x == (2 * m) * q + (2 * r + x % 2);
    ModUnique(x, 2 * m, q, 2 * r + x % 2);
  }

  /** A quotient and remainder in range are the quotient and remainder. */
  lemma ModUnique(x: int, m: int, q: int, r: int)
    requires 0 <= r < m && x == m * q + r
    ensures x % m == r && x / m == q
  {
    var d := q - x / m;
    assert m * d == x % m - r by {
      assert m * d == m * q - m * (x / m);
    }
    if d != 0 {
      MultipleIsLarge(m, d);
    }
  }

  /** Wrapping early does not change what wrapping late gives. */
  lemma WrapEarly(x: int, k: int, c: int)
    ensures Wrap(Wrap(x) * k + c) == Wrap(x * k + c)
  {
    var q, y := x / WORD, Wrap(x) * k + c;
    assert x * k + c == y + WORD * (q * k) by {
      assert x == WORD * q + Wrap(x);
    }
    ModUnique(x * k + c, WORD, y / WORD + q * k, y % WORD);
  }

  lemma MultipleIsLarge(m: int, d: int)
    requires m > 0 && d != 0
    ensures m * d >= m || m * d <= -m
  {
    if d > 0 {
      assert m * (d - 1) >= 0;
    } else {
      assert m * (-1 - d) >= 0;
    }
  }

  lemma ShiftByEight(k: nat)
    ensures Pow2(k + 8) == 0x100 * Pow2(k)
  {
    assert Pow2(k + 2) == 4 * Pow2(k);
    assert Pow2(k + 4) == 4 * Pow2(k + 2);
    assert Pow2(k + 6) == 4 * Pow2(k + 4);
    assert Pow2(k + 8) == 4 * Pow2(k + 6);
  }

  lemma SmallPowers()
    ensures Pow2(3) == 8 && Pow2(4) == 16 && Pow2(8) == 0x100 && Pow2(16) == 0x1_0000
    ensures Pow2(32) == 0x1_0000_0000 && Pow2(64) == WORD
  {
    ShiftByEight(0);
    ShiftByEight(8);
    ShiftByEight(16);
    ShiftByEight(24);
    ShiftByEight(32);
    ShiftByEight(40);
    ShiftByEight(48);
    ShiftByEight(56);
  }

  lemma RemSelf(m: nat, b: nat)
    requires b > 0
    ensures Rem(m, b) == m <==> m < b
  {
  }

  /** Taking the remainder off leaves a multiple. */
  lemma RemCleared(x: nat, b: nat)
    requires b > 0
    ensures Rem(x, b) < b && (x - Rem(x, b)) % b == 0
  {
    ModUnique(x - x % b, b, x / b, 0);
  }

  lemma RemOfRem(v: nat, b: nat, c: nat)
    requires b > 0 && c > 0
    ensures b * c > 0 && Rem(v, b) == Rem(Rem(v, b * c), b)
  {
    MultipleIsLarge(b, c);
    var q, m := v / (b * c), v % (b * c);
    var d, r := m / b, m % b;
    assert v == (b * c) * q + m && m == b * d + r;
    assert (b * c) * q == b * (c * q);
    assert b * (c * q + d) == b * (c * q) + b * d;
    ModUnique(v, b, c * q + d, r);
  }

  /** The remainders modulo b and modulo a multiple of b agree exactly when the larger one is below b. */
  lemma ClearAbove(v: nat, b: nat, c: nat)
    requires b > 0 && c > 0
    ensures b * c > 0 && (Rem(v, b * c) == Rem(v, b) <==> Rem(v, b * c) < b)
  {
    hide Rem;
    RemOfRem(v, b, c);
    RemSelf(Rem(v, b * c), b);
  }

  lemma AndHalves(a: nat, b: nat, half: nat)
    requires b == 2 * half || b == 2 * half + 1
    ensures And(a, b) == 2 * And(a / 2, half) + (if b == 2 * half then 0 else a % 2)
  {
    assert half == b / 2;
  }

  lemma RemOne(x: nat)
    ensures Rem(x, 1) == 0
  {
  }

  /** One bit more at the low end of a number and of a mask. */
  lemma MaskHalves(x: nat, m: nat, l: nat)
    requires 0 < l <= m
    requires And(x / 2, m - l) == Rem(x / 2, m) - Rem(x / 2, l)
    ensures And(x, 2 * m - 2 * l) == Rem(x, 2 * m) - Rem(x, 2 * l)
  {
    hide And, Rem;
    HalveMod(x, m);
    HalveMod(x, l);
    AndHalves(x, 2 * m - 2 * l, m - l);
  }

  lemma {:induction false} LowMaskKeepsRem(x: nat, w: nat)
    ensures And(x, Pow2(w) - 1) == Rem(x, Pow2(w))
  {
    hide Rem;
    if w == 0 {
      RemOne(x);
      return;
    }
    var m := Pow2(w - 1);
    LowMaskKeepsRem(x / 2, w - 1);
    assert Pow2(w) == 2 * m;
    hide And, Pow2;
    HalveMod(x, m);
    AndHalves(x, 2 * m - 1, m - 1);
  }

  lemma {:induction false} MaskKeepsRem(x: nat, w: nat, k: nat)
    requires k <= w
    ensures Pow2(k) <= Pow2(w)
    ensures And(x, Pow2(w) - Pow2(k)) == Rem(x, Pow2(w)) - Rem(x, Pow2(k))
  {
    hide Rem;
    if k == w {
      return;
    }
    if k == 0 {
      LowMaskKeepsRem(x, w);
      RemOne(x);
      return;
    }
    var m, l := Pow2(w - 1), Pow2(k - 1);
    MaskKeepsRem(x / 2, w - 1, k - 1);
    assert Pow2(w) == 2 * m && Pow2(k) == 2 * l;
    hide And, Pow2;
    MaskHalves(x, m, l);
  }

  /** A mask with ones exactly in bit positions k to w-1 keeps those bits: masking is a difference of remainders. */
  lemma MaskKeepsBits(x: nat, w: nat, k: nat)
    requires k <= w
    ensures Pow2(k) <= Pow2(w)
    ensures And(x, Pow2(w) - Pow2(k)) == x % Pow2(w) - x % Pow2(k)
  {
    MaskKeepsRem(x, w, k);
  }

  /** `h & (n - 1)` is `h mod n` when n is a power of two. */
  lemma MaskIsMod(h: nat, n: nat)
    requires n > 0 && IsPow2(n)
    ensures And(h, n - 1) == h % n
  {
    var k: nat :| n == Pow2(k);
    MaskKeepsBits(h, k, 0);
  }

  lemma DoublePow2(n: nat)
    requires IsPow2(n)
    ensures IsPow2(2 * n)
  {
    var k: nat :| n == Pow2(k);
    assert Pow2(k + 1) == 2 * n;
  }

  lemma Pow2IsEven(n: nat)
    requires IsPow2(n) && n > 1
    ensures n % 2 == 0
  {
    var k: nat :| n == Pow2(k);
    if k > 0 {
      var half := Pow2(k - 1);
      assert n == 2 * half;
      hide Pow2, IsPow2;
    }
  }

  /** Bitwise exclusive OR, bit by bit from the least significant end. */
  function Xor(a: nat, b: nat): nat {
    if a == 0 && b == 0 then 0
    else 2 * Xor(a / 2, b / 2) + (if a % 2 == b % 2 then 0 else 1)
  }

  lemma {:induction false} XorCancels(a: nat, b: nat)
    ensures Xor(Xor(a, b), b) == a
  {
    if a == 0 && b == 0 {
      return;
    }
    var half, bit := Xor(a / 2, b / 2), if a % 2 == b % 2 then 0 else 1;
    XorCancels(a / 2, b / 2);
    assert Xor(a, b) == 2 * half + bit;
    hide Xor;
    XorDoubles(half, b / 2, bit, b % 2);
  }

  lemma XorDoubles(x: nat, y: nat, b: nat, c: nat)
    requires b < 2 && c < 2
    ensures Xor(2 * x + b, 2 * y + c) == 2 * Xor(x, y) + (if b == c then 0 else 1)
  {
  }

  lemma XorSplitsOneBit(a: nat, b: nat, c: nat, q: nat, s: nat)
    requires Xor(a + q / 2, b + s / 2) == c + Xor(q / 2, s / 2)
    ensures Xor(2 * a + q, 2 * b + s) == 2 * c + Xor(q, s)
  {
    hide Xor;
    XorDoubles(a + q / 2, b + s / 2, q % 2, s % 2);
    XorDoubles(q / 2, s / 2, q % 2, s % 2);
    assert 2 * (a + q / 2) + q % 2 == 2 * a + q && 2 * (b + s / 2) + s % 2 == 2 * b + s;
    assert 2 * (q / 2) + q % 2 == q && 2 * (s / 2) + s % 2 == s;
  }

  /** x << k, without a width */
  function Shl(x: nat, k: nat): nat {
    if k == 0 then x else 2 * Shl(x, k - 1)
  }

  lemma {:induction false} XorBelow(k: nat, q: nat, s: nat)
    requires q < Pow2(k) && s < Pow2(k)
    ensures Xor(q, s) < Pow2(k)
  {
    if k == 0 {
      return;
    }
    var m := Pow2(k - 1);
    assert Pow2(k) == 2 * m;
    XorBelow(k - 1, q / 2, s / 2);
    XorDoubles(q / 2, s / 2, q % 2, s % 2);
    hide Xor, Pow2;
  }

  lemma ShlDoubles(x: nat, k: nat)
    requires k > 0
    ensures Shl(x, k) == 2 * Shl(x, k - 1)
  {
  }

  lemma Pow2Doubles(k: nat)
    requires k > 0
    ensures Pow2(k) == 2 * Pow2(k - 1)
  {
  }

  lemma UnsplitXor(p: nat, q: nat, r: nat, s: nat)
    requires q < Pow2(0) && s < Pow2(0)
    ensures Xor(Shl(p, 0) + q, Shl(r, 0) + s) == Shl(Xor(p, r), 0) + Xor(q, s)
  {
  }

  /** The low k bits and the bits above them do not meet. */
  lemma {:induction false} XorSplits(k: nat, p: nat, q: nat, r: nat, s: nat)
    requires q < Pow2(k) && s < Pow2(k)
    ensures Xor(q, s) < Pow2(k)
    ensures Xor(Shl(p, k) + q, Shl(r, k) + s) == Shl(Xor(p, r), k) + Xor(q, s)
  {
    hide Xor, Shl, Pow2;
    XorBelow(k, q, s);
    if k == 0 {
      UnsplitXor(p, q, r, s);
      return;
    }
    Pow2Doubles(k);
    XorSplits(k - 1, p, q / 2, r, s / 2);
    ShlDoubles(p, k);
    ShlDoubles(r, k);
    ShlDoubles(Xor(p, r), k);
    XorSplitsOneBit(Shl(p, k - 1), Shl(r, k - 1), Shl(Xor(p, r), k - 1), q, s);
  }

  lemma ShlSixteen(x: nat)
    ensures Shl(x, 16) == 0x1_0000 * x
  {
    assert Shl(x, 1) == 2 * x;
    assert Shl(x, 2) == 2 * Shl(x, 1);
    assert Shl(x, 4) == 4 * Shl(x, 2);
    assert Shl(x, 6) == 4 * Shl(x, 4);
    assert Shl(x, 8) == 4 * Shl(x, 6);
    assert Shl(x, 10) == 4 * Shl(x, 8);
    assert Shl(x, 12) == 4 * Shl(x, 10);
    assert Shl(x, 14) == 4 * Shl(x, 12);
    assert Shl(x, 16) == 4 * Shl(x, 14);
  }
}
