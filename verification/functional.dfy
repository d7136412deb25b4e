/** The mixing hashes of cxx/include/functional, on 64-bit words. */
module Functional {
  import opened Words

  const SEED: Word := 0xdead_beef
  const MULTIPLIER: Word := 413679843

  /** MULTIPLIER times this is 1 modulo 2^64. */
  const INVERSE: Word := 0x97f9_43ba_71fb_04cb

  const LIMB: nat := 0x1_0000

  /** h ^ (h >> 16) */
  function XorShift(h: nat): nat {
    Xor(h, h / LIMB)
  }

  lemma XorShiftFits(h: Word)
    ensures XorShift(h) < WORD
  {
    SmallPowers();
    XorSplits(64, 0, h, 0, h / LIMB);
  }

  /** The tail of both operators: multiply, then mix upper bits into lower ones. */
  function Mix(h: Word): Word {
    XorShiftFits(Wrap(h * MULTIPLIER));
    XorShift(Wrap(h * MULTIPLIER))
  }

  function HashSize(value: Word): Word {
    Mix(Wrap(SEED + value))
  }

  function Round(h: Word, c: Char): Word {
    Mix(Wrap(h + c))
  }

  // ---------- Mixing is a permutation ----------

  /** Each 16 bits are recovered with the help of those above. */
  function Unshift(x: nat): nat {
    if x < LIMB then x
    else
      var high := Unshift(x / LIMB);
      LIMB * high + Xor(x % LIMB, high % LIMB)
  }

  lemma XorShiftLimbs(m: nat)
    ensures var p, q := m / LIMB, m % LIMB;
            XorShift(m) == LIMB * XorShift(p) + Xor(q, p % LIMB) && Xor(q, p % LIMB) < LIMB
  {
    hide Xor, Shl, Pow2;
    var p, q := m / LIMB, m % LIMB;
    SmallPowers();
    XorSplits(16, p, q, p / LIMB, p % LIMB);
    ShlSixteen(p);
    ShlSixteen(p / LIMB);
    ShlSixteen(Xor(p, p / LIMB));
  }

  lemma LimbsUnique(x: nat, high: nat, low: nat)
    requires low < LIMB && x == LIMB * high + low
    ensures x / LIMB == high && x % LIMB == low
  {
  }

  lemma {:induction false} ShiftThenUnshift(m: nat)
    ensures Unshift(XorShift(m)) == m
  {
    var p, q, x := m / LIMB, m % LIMB, XorShift(m);
    XorShiftLimbs(m);
    XorCancels(q, p % LIMB);
    hide Xor, XorShift;
    LimbsUnique(x, XorShift(p), Xor(q, p % LIMB));
    if p > 0 {
      ShiftThenUnshift(p);
    } else {
      XorShiftOfZero();
      XorWithZero(q);
    }
    UnshiftZero();
  }

  lemma XorShiftOfZero()
    ensures XorShift(0) == 0
  {
  }

  lemma UnshiftZero()
    ensures Unshift(0) == 0
  {
  }

  lemma {:induction false} XorWithZero(q: nat)
    ensures Xor(q, 0) == q
  {
    if q > 0 {
      XorWithZero(q / 2);
    }
  }

  lemma {:induction false} UnshiftThenShift(x: nat)
    ensures XorShift(Unshift(x)) == x
  {
    var high, low := x / LIMB, x % LIMB;
    if high > 0 {
      UnshiftThenShift(high);
      var h := Unshift(high);
      XorLimb(low, h % LIMB);
      XorCancels(low, h % LIMB);
      LimbsUnique(Unshift(x), h, Xor(low, h % LIMB));
      XorShiftLimbs(Unshift(x));
    } else {
      XorWithZero(x);
    }
  }

  lemma XorLimb(q: nat, s: nat)
    requires q < LIMB && s < LIMB
    ensures Xor(q, s) < LIMB
  {
    SmallPowers();
    XorSplits(16, 0, q, 0, s);
  }

  ghost function Limbs(k: nat): nat {
    if k == 0 then 1 else LIMB * Limbs(k - 1)
  }

  lemma {:induction false} UnshiftFits(x: nat, k: nat)
    requires x < Limbs(k)
    ensures Unshift(x) < Limbs(k)
  {
    if x >= LIMB {
      UnshiftFits(x / LIMB, k - 1);
      XorLimb(x % LIMB, Unshift(x / LIMB) % LIMB);
    }
  }

  function Unmix(x: Word): Word {
    Wrap(Unshift(x) * INVERSE)
  }

  /** Multiplying by two factors whose product is 1 modulo 2^64 changes nothing. */
  lemma FactorsCancel(h: Word, a: Word, b: Word, k: nat)
    requires a * b == 1 + k * WORD
    ensures Wrap(Wrap(h * a) * b) == h
  {
    var q := h * a / WORD;
    var m := Wrap(h * a);
    assert m == h * a - q * WORD;
    assert m * b == h * (a * b) - q * WORD * b;
    assert h * (a * b) == h + h * k * WORD;
    assert m * b == WORD * (h * k - q * b) + h;
    ModUnique(m * b, WORD, h * k - q * b, h);
  }

  lemma MultiplierInverts(h: Word)
    ensures Wrap(Wrap(h * MULTIPLIER) * INVERSE) == h
    ensures Wrap(Wrap(h * INVERSE) * MULTIPLIER) == h
  {
    var k := MULTIPLIER * INVERSE / WORD;
    assert MULTIPLIER * INVERSE == 1 + k * WORD;
    FactorsCancel(h, MULTIPLIER, INVERSE, k);
    FactorsCancel(h, INVERSE, MULTIPLIER, k);
  }

  /** Mix is a permutation of the 64-bit words. */
  lemma MixIsPermutation(h: Word)
    ensures Unmix(Mix(h)) == h && Mix(Unmix(h)) == h
  {
    ShiftThenUnshift(Wrap(h * MULTIPLIER));
    MultiplierInverts(h);
    assert Limbs(4) == WORD;
    UnshiftFits(h, 4);
    MultiplierInverts(Unshift(h));
    UnshiftThenShift(h);
  }

  // ---------- The hashes ----------

  /** Adding a fixed amount modulo 2^64 is undone by subtracting it. */
  lemma AddThenSubtract(h: Word, x: int)
    ensures Wrap(Wrap(h + x) - x) == h
    ensures Wrap(Wrap(h - x) + x) == h
  {
  }

  function UnhashSize(h: Word): Word {
    Wrap(Unmix(h) - SEED)
  }

  /** The hash of a word is a permutation: no two words collide, and every word is a hash. */
  lemma HashSizeIsPermutation(value: Word)
    ensures UnhashSize(HashSize(value)) == value && HashSize(UnhashSize(value)) == value
  {
    hide Mix, Unmix, Wrap;
    MixIsPermutation(Wrap(SEED + value));
    MixIsPermutation(value);
    AddThenSubtract(value, SEED);
    AddThenSubtract(Unmix(value), SEED);
  }

  lemma CharsStayApart(h: Word, c: Char, d: Char)
    ensures Wrap(h + c) == Wrap(h + d) ==> c == d
  {
  }

  function Unround(h: Word, c: Char): Word {
    Wrap(Unmix(h) - c)
  }

  /** One round permutes the states, for each char, and keeps different chars apart, for each state. */
  lemma RoundIsPermutation(h: Word, c: Char, d: Char)
    ensures Unround(Round(h, c), c) == h && Round(Unround(h, c), c) == h
    ensures Round(h, c) == Round(h, d) ==> c == d
  {
    hide Mix, Unmix, Wrap;
    MixIsPermutation(Wrap(h + c));
    MixIsPermutation(Wrap(h + d));
    MixIsPermutation(h);
    CharsStayApart(h, c, d);
    AddThenSubtract(h, c);
    AddThenSubtract(Unmix(h), c);
  }

  /** The loop of the string operator from state h. */
  function HashFrom(h: Word, str: seq<Char>): Word
    decreases |str|
  {
    if str == [] then h else HashFrom(Round(h, str[0]), str[1..])
  }

  /** What both operators compute: 0xdeadbeef plus the word, times 413679843, then `h ^= h >> 16`. */
  lemma HashSizeValue(value: Word)
    ensures var x := Wrap((0xdead_beef + value) * 413679843); HashSize(value) == Xor(x, x / 0x1_0000)
  {
    hide Wrap, Xor;
    MixValue(SEED + value);
  }

  lemma MixValue(h: int)
    ensures var x := Wrap(h * 413679843); Mix(Wrap(h)) == Xor(x, x / 0x1_0000)
  {
    hide Wrap, Xor;
    WrapEarly(h, 413679843, 0);
  }

  lemma HashFromEnds(h: Word, c: Char)
    ensures HashFrom(h, []) == h && HashFrom(h, [c]) == Round(h, c)
  {
    hide Round;
    assert [c][1..] == [];
  }

  /** The empty string hashes to 0xdeadbeef; each further char is added, multiplied and mixed in. */
  lemma HashStringValue(str: seq<Char>, c: Char)
    ensures HashFrom(SEED, []) == 0xdead_beef
    ensures var x := Wrap((HashFrom(SEED, str) + c) * 413679843); HashFrom(SEED, str + [c]) == Xor(x, x / 0x1_0000)
  {
    hide HashFrom, Wrap, Xor, Mix;
    var h := HashFrom(SEED, str);
    HashFromAppend(SEED, str, [c]);
    HashFromEnds(h, c);
    HashFromEnds(SEED, c);
    MixValue(h + c);
  }

  method HashString(str: seq<Char>) returns (h: Word)
    ensures h == HashFrom(SEED, str)
    ensures str == [] ==> h == 0xdead_beef
    ensures str != [] ==>
              var before, c := HashFrom(SEED, str[..|str| - 1]), str[|str| - 1];
              var x := Wrap((before + c) * 413679843);
              h == Xor(x, x / 0x1_0000)
  {
    if str != [] {
      assert str == str[..|str| - 1] + [str[|str| - 1]];
      HashStringValue(str[..|str| - 1], str[|str| - 1]);
    }
    h := SEED;
    var i := 0;
    while i < |str|
      invariant i <= |str| && HashFrom(h, str[i..]) == HashFrom(SEED, str)
    {
      assert str[i..][1..] == str[i + 1..];
      h := Wrap(h + str[i]);
      h := Wrap(h * MULTIPLIER);
      XorShiftFits(h);
      h := XorShift(h);
      i := i + 1;
    }
  }

  lemma {:induction false} HashFromAppend(h: Word, a: seq<Char>, b: seq<Char>)
    ensures HashFrom(h, a + b) == HashFrom(HashFrom(h, a), b)
    decreases |a|
  {
    hide Round;
    if a == [] {
      assert a + b == b;
    } else {
      HashFromAppend(Round(h, a[0]), a[1..], b);
      assert (a + b)[1..] == a[1..] + b;
    }
  }

  /** A common text keeps equal states equal and different states different. */
  lemma {:induction false} SuffixKeepsDifference(g: Word, h: Word, suffix: seq<Char>)
    ensures HashFrom(g, suffix) == HashFrom(h, suffix) <==> g == h
    decreases |suffix|
  {
    hide Round;
    if suffix != [] {
      SuffixKeepsDifference(Round(g, suffix[0]), Round(h, suffix[0]), suffix[1..]);
      RoundIsPermutation(g, suffix[0], suffix[0]);
      RoundIsPermutation(h, suffix[0], suffix[0]);
    }
  }

  /** Two strings that share a suffix collide exactly when what precedes the suffix collides. */
  lemma CommonSuffix(a: seq<Char>, b: seq<Char>, suffix: seq<Char>)
    ensures HashFrom(SEED, a + suffix) == HashFrom(SEED, b + suffix) <==> HashFrom(SEED, a) == HashFrom(SEED, b)
  {
    HashFromAppend(SEED, a, suffix);
    HashFromAppend(SEED, b, suffix);
    SuffixKeepsDifference(HashFrom(SEED, a), HashFrom(SEED, b), suffix);
  }

  /** Strings of equal length that differ in exactly one position never collide. */
  lemma OneDifferenceNeverCollides(a: seq<Char>, b: seq<Char>, i: nat)
    requires |a| == |b| && i < |a| && a[i] != b[i]
    requires forall k :: 0 <= k < |a| && k != i ==> a[k] == b[k]
    ensures HashFrom(SEED, a) != HashFrom(SEED, b)
  {
    var prefix, suffix := a[..i], a[i + 1..];
    assert a == prefix + ([a[i]] + suffix) && b == prefix + ([b[i]] + suffix);
    HashFromAppend(SEED, prefix, [a[i]] + suffix);
    HashFromAppend(SEED, prefix, [b[i]] + suffix);
    var h := HashFrom(SEED, prefix);
    hide Round;
    RoundIsPermutation(h, a[i], b[i]);
    assert HashFrom(h, [a[i]] + suffix) == HashFrom(Round(h, a[i]), suffix);
    assert HashFrom(h, [b[i]] + suffix) == HashFrom(Round(h, b[i]), suffix);
    SuffixKeepsDifference(Round(h, a[i]), Round(h, b[i]), suffix);
  }
}
