/**
  The strtol/strtoll/strtoul/strtoull template of c/strtox.c, with the 64-bit limits of
  c/include/limits.h, against the grammar of section 7.22.1.4 of ISO/IEC 9899:2011.
 */
module Stdlib {
  import opened Words

  /** A C string, without its terminating NUL. */
  type CString = s: seq<char> | '\0' !in s witness []

  function At(s: CString, i: nat): char
    requires i <= |s|
  {
    if i < |s| then s[i] else '\0'
  }

  const LONG_MAX: int := 0x7fff_ffff_ffff_ffff
  const LONG_MIN: int := -0x8000_0000_0000_0000
  const ULONG_MAX: int := WORD - 1

  // ---------- The grammar ----------

  predicate IsSpace(c: char) {
    c == ' ' || '\t' <= c <= '\r'
  }

  /** The six white-space characters of section 7.4.1.10 of ISO/IEC 9899:2011 in the C locale. */
  lemma SixSpaces(c: char)
    ensures IsSpace(c) <==> c == ' ' || c == '\t' || c == '\n' || c == '\U{0B}' || c == '\U{0C}' || c == '\r'
  {
  }

  predicate IsSign(c: char) {
    c == '+' || c == '-'
  }

  /** The value of a digit in any base, or 36 for a character that is a digit in none. */
  function Digit(c: char): nat {
    if '0' <= c <= '9' then c as int - '0' as int
    else if 'a' <= c <= 'z' then 10 + (c as int - 'a' as int)
    else if 'A' <= c <= 'Z' then 10 + (c as int - 'A' as int)
    else 36
  }

  /** Digits, then letters of either case; the two cases of a letter are 32 apart. */
  lemma DigitValues(c: char)
    ensures '0' <= c <= '9' ==> Digit(c) == c as int - 48
    ensures 'a' <= c <= 'z' ==> Digit(c) == c as int - 87 == Digit((c as int - 32) as char)
    ensures Digit(c) < 36 <==> '0' <= c <= '9' || 'a' <= c <= 'z' || 'A' <= c <= 'Z'
  {
  }

  ghost predicate AllDigits(t: seq<char>, base: nat) {
    forall k :: 0 <= k < |t| ==> Digit(t[k]) < base
  }

  ghost function Value(t: seq<char>, base: nat): nat {
    if t == [] then 0 else base * Value(t[..|t| - 1], base) + Digit(t[|t| - 1])
  }

  predicate HexPrefix(t: seq<char>) {
    |t| >= 2 && t[0] == '0' && (t[1] == 'x' || t[1] == 'X')
  }

  predicate ValidBase(base: int) {
    base == 0 || 2 <= base <= 36
  }

  /** The base an unsigned subject sequence is written in: base 0 takes it from the sequence itself. */
  ghost function WrittenBase(t: seq<char>, base: nat): nat {
    if base == 16 || (base == 0 && HexPrefix(t)) then 16
    else if base == 0 then (if t != [] && t[0] == '0' then 8 else 10)
    else base
  }

  ghost function Digits(t: seq<char>, base: nat): seq<char> {
    if (base == 0 || base == 16) && HexPrefix(t) then t[2..] else t
  }

  ghost predicate IsUnsignedSubject(t: seq<char>, base: nat) {
    Digits(t, base) != [] && AllDigits(Digits(t, base), WrittenBase(t, base))
  }

  ghost function Unsigned(t: seq<char>): seq<char> {
    if t != [] && IsSign(t[0]) then t[1..] else t
  }

  /** A subject sequence of the standard: an optional sign, then an integer in the base. */
  ghost predicate IsSubject(t: seq<char>, base: nat) {
    IsUnsignedSubject(Unsigned(t), base)
  }

  ghost function Magnitude(t: seq<char>, base: nat): nat {
    Value(Digits(Unsigned(t), base), WrittenBase(Unsigned(t), base))
  }

  ghost predicate Negative(t: seq<char>) {
    t != [] && t[0] == '-'
  }

  /** The result the standard asks for: clamped when signed; negated modulo 2^64 or saturated when unsigned. */
  ghost function Result(unsigned_: bool, negative: bool, magnitude: nat): int {
    var v := if negative then 0 - magnitude else magnitude;
    if unsigned_ then (if magnitude > ULONG_MAX then ULONG_MAX else Wrap(v))
    else if v > LONG_MAX then LONG_MAX
    else if v < LONG_MIN then LONG_MIN
    else v
  }

  ghost function SpacesEnd(s: seq<char>, i: nat): (e: nat)
    requires i <= |s|
    ensures i <= e <= |s|
    decreases |s| - i
  {
    if i < |s| && IsSpace(s[i]) then SpacesEnd(s, i + 1) else i
  }

  /** No initial part of `s` from `from` to beyond `end` is a subject sequence. */
  ghost predicate NoSubjectBeyond(s: seq<char>, from: nat, end: nat, base: nat)
  {
    forall e :: from <= e <= |s| && end < e ==> !IsSubject(s[from..e], base)
  }

  /** What the standard says strtol and its variants report for a string. */
  ghost predicate Parsed(s: seq<char>, base: nat, unsigned_: bool, value: int, end: nat) {
    var from := SpacesEnd(s, 0);
    if end == 0 then
      value == 0 && NoSubjectBeyond(s, from, from, base)
    else
      && from < end <= |s|
      && IsSubject(s[from..end], base)
      && NoSubjectBeyond(s, from, end, base)
      && value == Result(unsigned_, Negative(s[from..end]), Magnitude(s[from..end], base))
  }

  // ---------- From the scan to the grammar ----------

  /** The characters from p to i are digits, and no further one is. */
  ghost predicate DigitRun(s: CString, p: nat, i: nat, base: nat) {
    p <= i <= |s| && AllDigits(s[p..i], base) && (i < |s| ==> Digit(s[i]) >= base)
  }

  lemma DigitRunIsLongest(s: CString, p: nat, i: nat, base: nat, e: nat)
    requires DigitRun(s, p, i, base) && p <= e <= |s|
    ensures AllDigits(s[p..e], base) <==> e <= i
  {
    if e <= i {
      assert forall k :: 0 <= k < e - p ==> s[p..e][k] == s[p..i][k];
    } else {
      assert s[p..e][i - p] == s[i];
    }
  }

  /** The base the code settles on at position p, where any sign has been passed. */
  function ScannedBase(s: CString, p: nat, base: nat): nat
    requires p <= |s|
  {
    if (base == 0 || base == 16) && HexPrefix(s[p..]) then 16
    else if base == 0 && At(s, p) == '0' then 8
    else if base == 0 then 10
    else base
  }

  function ScannedStart(s: CString, p: nat, base: nat): (d: nat)
    requires p <= |s|
    ensures d <= |s|
  {
    if (base == 0 || base == 16) && HexPrefix(s[p..]) then p + 2 else p
  }

  /** An initial part is a subject sequence exactly when it ends within the digits scanned, or right after the 0 of 0x. */
  lemma UnsignedSubjects(s: CString, p: nat, base: nat, i: nat, e: nat)
    requires ValidBase(base) && p <= e <= |s|
    requires DigitRun(s, ScannedStart(s, p, base), i, ScannedBase(s, p, base))
    ensures IsUnsignedSubject(s[p..e], base) <==>
            ScannedStart(s, p, base) < e <= i || (ScannedStart(s, p, base) == p + 2 && e == p + 1)
    ensures ScannedStart(s, p, base) < e ==>
            WrittenBase(s[p..e], base) == ScannedBase(s, p, base) && Digits(s[p..e], base) == s[ScannedStart(s, p, base)..e]
    ensures ScannedStart(s, p, base) == p + 2 && e == p + 1 ==> Digits(s[p..e], base) == s[p..e] == "0"
  {
    var d := ScannedStart(s, p, base);
    var t := s[p..e];
    if d == p + 2 {
      if e >= p + 2 {
        assert HexPrefix(t);
        assert t[2..] == s[d..e];
        DigitRunIsLongest(s, d, i, 16, e);
      } else if e == p + 1 {
        assert t == "0";
      }
    } else {
      assert (base == 0 || base == 16) ==> !HexPrefix(t);
      DigitRunIsLongest(s, d, i, ScannedBase(s, p, base), e);
    }
  }

  /** Past the white space at `from`, the sign takes the subject sequences one character further. */
  lemma SignedSubjects(s: CString, from: nat, p: nat, base: nat, i: nat, e: nat)
    requires ValidBase(base) && from <= e <= |s|
    requires p == if from < |s| && IsSign(s[from]) then from + 1 else from
    requires DigitRun(s, ScannedStart(s, p, base), i, ScannedBase(s, p, base))
    ensures IsSubject(s[from..e], base) <==> p <= e && IsUnsignedSubject(s[p..e], base)
    ensures p <= e ==> Unsigned(s[from..e]) == s[p..e] && (p < e ==> (Negative(s[from..e]) <==> s[from] == '-'))
  {
  }

  // ---------- The overflow test ----------

  lemma {:induction false} ValuePush(t: seq<char>, c: char, base: nat)
    ensures Value(t + [c], base) == base * Value(t, base) + Digit(c)
  {
    assert (t + [c])[..|t|] == t;
  }

  /** Comparing with the limit's quotient and last digit decides, before multiplying, whether one more digit overflows. */
  lemma OverflowTest(limit: nat, base: nat, v: nat, digit: nat)
    requires digit < base
    ensures base * v + digit > limit <==> v > limit / base || (v == limit / base && digit > limit % base)
  {
    var q, r := limit / base, limit % base;
    assert limit == base * q + r;
    if v > q {
      MultipleIsLarge(base, v - q);
      assert base * v == base * q + base * (v - q);
    } else if v < q {
      MultipleIsLarge(base, q - v);
      assert base * q == base * v + base * (q - v);
    }
  }

  /** What the loop knows of the digits read so far. */
  ghost predicate Accumulated(read: nat, limit: nat, absval: Word, overflow: bool) {
    if overflow then read > limit else absval == read <= limit
  }

  lemma Accumulate(t: seq<char>, c: char, base: nat, limit: Word, absval: Word, overflow: bool)
    requires Digit(c) < base
    requires Accumulated(Value(t, base), limit, absval, overflow)
    ensures var grows := absval > limit / base || (absval == limit / base && Digit(c) > limit % base);
            Accumulated(Value(t + [c], base), limit,
                        if overflow || grows then absval else Wrap(Wrap(absval * base) + Digit(c)), overflow || grows)
  {
    hide Wrap;
    var v, v' := Value(t, base), Value(t + [c], base);
    assert v' == base * v + Digit(c) by {
      ValuePush(t, c, base);
    }
    OverflowTest(limit, base, v, Digit(c));
    assert v <= base * v by {
      ValueGrows(base, v);
    }
    if !overflow && v' <= limit {
      assert absval * base == base * v;
      WrapSmall(absval * base);
      WrapSmall(absval * base + Digit(c));
    }
  }

  lemma ValueGrows(base: nat, v: nat)
    requires base > 0
    ensures v <= base * v
  {
    assert base * v == v + (base - 1) * v;
  }

  /** Reading an unsigned word as a signed one. */
  function ToSigned(x: Word): int {
    if x > LONG_MAX then x - WORD else x
  }

  /** What the code after the loop makes of the accumulated digits is what the standard asks for. */
  lemma FinalValue(unsigned_: bool, positive: bool, read: nat, summed: Word, overflow: bool, absval: Word)
    requires Accumulated(read, if unsigned_ then ULONG_MAX else if positive then LONG_MAX else -LONG_MIN, summed, overflow)
    requires absval == if overflow then (if unsigned_ then ULONG_MAX else if positive then LONG_MAX else Wrap(LONG_MIN))
                       else if positive then summed else Wrap(WORD - summed)
    ensures (if unsigned_ then absval else ToSigned(absval)) == Result(unsigned_, !positive, read)
  {
  }

  /** Which initial parts of the text past the white space are subject sequences. */
  lemma SubjectEnds(s: CString, base: nat, from: nat, p: nat, i: nat, e: nat)
    requires ValidBase(base) && from <= e <= |s|
    requires p == if from < |s| && IsSign(s[from]) then from + 1 else from
    requires DigitRun(s, ScannedStart(s, p, base), i, ScannedBase(s, p, base))
    ensures IsSubject(s[from..e], base) <==>
            ScannedStart(s, p, base) < e <= i || (ScannedStart(s, p, base) == p + 2 && e == p + 1)
  {
    SignedSubjects(s, from, p, base, i, e);
    if p <= e {
      UnsignedSubjects(s, p, base, i, e);
    }
  }

  /** The magnitude of the longest subject sequence is the value of the digits scanned. */
  lemma SubjectMagnitude(s: CString, base: nat, from: nat, p: nat, i: nat, endc: nat)
    requires ValidBase(base) && from <= |s|
    requires p == if from < |s| && IsSign(s[from]) then from + 1 else from
    requires DigitRun(s, ScannedStart(s, p, base), i, ScannedBase(s, p, base))
    requires var d := ScannedStart(s, p, base); endc == if i > d then i else p + 1
    requires p < endc <= |s| && IsSubject(s[from..endc], base)
    ensures Magnitude(s[from..endc], base) == Value(s[ScannedStart(s, p, base)..i], ScannedBase(s, p, base))
    ensures Negative(s[from..endc]) <==> s[from] == '-'
  {
    var d := ScannedStart(s, p, base);
    SignedSubjects(s, from, p, base, i, endc);
    UnsignedSubjects(s, p, base, i, endc);
    if i <= d {
      assert s[d..i] == [];
      assert Value("0", WrittenBase(s[p..endc], base)) == 0;
    }
  }

  lemma NoDigits(unsigned_: bool, negative: bool, radix: nat)
    ensures Result(unsigned_, negative, Value([], radix)) == 0
  {
  }

  /** Everything the digit loop knows. */
  ghost predicate Scanned(s: CString, d: nat, i: nat, radix: nat, limit: Word, absval: Word, overflow: bool) {
    && d <= i <= |s|
    && AllDigits(s[d..i], radix)
    && Accumulated(Value(s[d..i], radix), limit, absval, overflow)
  }

  lemma ScanStart(s: CString, d: nat, radix: nat, limit: Word)
    requires d <= |s|
    ensures Scanned(s, d, d, radix, limit, 0, false)
  {
  }

  lemma ScanStep(s: CString, d: nat, i: nat, radix: nat, limit: Word, absval: Word, overflow: bool)
    requires Scanned(s, d, i, radix, limit, absval, overflow)
    requires i < |s| && Digit(s[i]) < radix
    ensures var grows := absval > limit / radix || (absval == limit / radix && Digit(s[i]) > limit % radix);
            Scanned(s, d, i + 1, radix, limit,
                    if overflow || grows then absval else Wrap(Wrap(absval * radix) + Digit(s[i])), overflow || grows)
  {
    hide Accumulated, Digit, Wrap, Value;
    assert s[d..i + 1] == s[d..i] + [s[i]];
    Accumulate(s[d..i], s[i], radix, limit, absval, overflow);
  }

  /** Where the scan stops is the end of the longest subject sequence. */
  lemma LongestSubject(s: CString, base: nat, from: nat, p: nat, i: nat, endc: nat)
    requires ValidBase(base) && from <= |s|
    requires p == if from < |s| && IsSign(s[from]) then from + 1 else from
    requires DigitRun(s, ScannedStart(s, p, base), i, ScannedBase(s, p, base))
    requires var d := ScannedStart(s, p, base);
             endc == if i > d then i else if d == p + 2 then p + 1 else 0
    ensures endc == 0 ==> NoSubjectBeyond(s, from, from, base)
    ensures endc > 0 ==> p < endc <= |s| && IsSubject(s[from..endc], base) && NoSubjectBeyond(s, from, endc, base)
  {
    hide IsSubject;
    forall e | from <= e <= |s|
      ensures IsSubject(s[from..e], base) <==>
              ScannedStart(s, p, base) < e <= i || (ScannedStart(s, p, base) == p + 2 && e == p + 1)
    {
      SubjectEnds(s, base, from, p, i, e);
    }
  }

  /** Where the digits stop decides the end that the standard asks for, and their value the result. */
  lemma ScannedIsParsed(s: CString, base: nat, unsigned_: bool, p: nat, i: nat, endc: nat)
    requires ValidBase(base)
    requires var from := SpacesEnd(s, 0); p == if from < |s| && IsSign(s[from]) then from + 1 else from
    requires DigitRun(s, ScannedStart(s, p, base), i, ScannedBase(s, p, base))
    requires var d := ScannedStart(s, p, base);
             endc == if i > d then i else if d == p + 2 then p + 1 else 0
    ensures var v := Value(s[ScannedStart(s, p, base)..i], ScannedBase(s, p, base));
            Parsed(s, base, unsigned_, Result(unsigned_, At(s, SpacesEnd(s, 0)) == '-', v), endc)
  {
    hide Wrap, Result, Value, Magnitude, IsSubject, Negative, AllDigits, NoSubjectBeyond;
    var from, d, radix := SpacesEnd(s, 0), ScannedStart(s, p, base), ScannedBase(s, p, base);
    LongestSubject(s, base, from, p, i, endc);
    if endc != 0 {
      SubjectMagnitude(s, base, from, p, i, endc);
    } else {
      assert s[d..i] == [];
      NoDigits(unsigned_, At(s, from) == '-', radix);
    }
  }

  /** Where the scan stops is what the standard reports, and the code's last steps give its value. */
  lemma ScanStop(s: CString, base: nat, unsigned_: bool, p: nat, i: nat,
                 positive: bool, summed: Word, overflow: bool, absval: Word, endc: nat)
    requires ValidBase(base)
    requires var from := SpacesEnd(s, 0);
             && p == (if from < |s| && IsSign(s[from]) then from + 1 else from)
             && positive == (At(s, from) != '-')
    requires var limit := if unsigned_ then ULONG_MAX else if positive then LONG_MAX else -LONG_MIN;
             Scanned(s, ScannedStart(s, p, base), i, ScannedBase(s, p, base), limit, summed, overflow)
    requires i < |s| ==> Digit(s[i]) >= ScannedBase(s, p, base)
    requires absval == if overflow then (if unsigned_ then ULONG_MAX else if positive then LONG_MAX else Wrap(LONG_MIN))
                       else if positive then summed else Wrap(WORD - summed)
    requires var d := ScannedStart(s, p, base);
             endc == if i > d then i else if d == p + 2 then p + 1 else 0
    ensures Parsed(s, base, unsigned_, if unsigned_ then absval else ToSigned(absval), endc)
  {
    hide Wrap, Result, Value, AllDigits, Parsed;
    var d, radix := ScannedStart(s, p, base), ScannedBase(s, p, base);
    FinalValue(unsigned_, positive, Value(s[d..i], radix), summed, overflow, absval);
    ScannedIsParsed(s, base, unsigned_, p, i, endc);
  }

  // ---------- The template ----------

  /** The digit loop, from position d on; `endc` is the end so far. */
  method ScanDigits(s: CString, d: nat, unread: nat, radix: nat, limit: Word)
    returns (i: nat, endc: nat, absval: Word, overflow: bool)
    requires d <= |s| && 2 <= radix <= 36
    ensures Scanned(s, d, i, radix, limit, absval, overflow)
    ensures d <= i <= |s| && (i < |s| ==> Digit(s[i]) >= radix)
    ensures endc == if i > d then i else unread
  {
    hide Value, Scanned, Wrap;
    // The range of digit characters: in bases up to ten no letter is in it.
    var dtop: char, ltop: char, utop: char;
    if radix <= 10 {
      dtop := '0' + (radix - 1) as char;
      ltop, utop := '\0', '\0';
    } else {
      dtop := '9';
      ltop := 'a' + (radix - 11) as char;
      utop := 'A' + (radix - 11) as char;
    }
    var maxLastDigit, maxUnshifted := limit % radix, limit / radix;
    i, endc, absval, overflow := d, unread, 0, false;
    ScanStart(s, d, radix, limit);
    while At(s, i) != '\0'
      invariant d <= i <= |s|
      invariant endc == if i > d then i else unread
      invariant Scanned(s, d, i, radix, limit, absval, overflow)
      decreases |s| - i
    {
      var c := At(s, i);
      var digit: nat;
      if '0' <= c <= dtop {
        digit := c as int - '0' as int;
      } else if 'a' <= c <= ltop {
        digit := 10 + (c as int - 'a' as int);
      } else if 'A' <= c <= utop {
        digit := 10 + (c as int - 'A' as int);
      } else {
        break;
      }
      assert digit == Digit(c) < radix;
      hide Digit;
      ScanStep(s, d, i, radix, limit, absval, overflow);
      i := i + 1;
      endc := i;
      if !overflow {
        if absval > maxUnshifted {
          overflow := true;
        } else if absval == maxUnshifted && digit > maxLastDigit {
          overflow := true;
        } else {
          absval := Wrap(absval * radix);
          absval := Wrap(absval + digit);
        }
      }
    }
  }

  /**
    `endptr` is None when the call leaves `*endptr` untouched, which it does for an invalid base.
    Positions count characters from `nptr`.
   */
  method Strtox(s: CString, base: int, unsigned_: bool) returns (value: int, endptr: Option<nat>)
    ensures if base == 0 || 2 <= base <= 36 then endptr.Some? && Parsed(s, base, unsigned_, value, endptr.value)
            else value == 0 && endptr == None
  {
    hide Parsed, Value, Scanned, Wrap, ToSigned;
    if !(base == 0 || 2 <= base <= 36) {
      return 0, None;
    }
    var i, endc, positive := 0, 0, true;
    while At(s, i) != '\0' && IsSpace(At(s, i))
      invariant i <= |s| && SpacesEnd(s, i) == SpacesEnd(s, 0)
      decreases |s| - i
    {
      i := i + 1;
    }
    ghost var from := i;
    if At(s, i) == '+' {
      i := i + 1;
    } else if At(s, i) == '-' {
      positive := false;
      i := i + 1;
    }
    ghost var p := i;
    var radix := base;
    if base == 0 && HexPrefix(s[i..]) {
      radix := 16;
      endc := i + 1;
      i := i + 2;
    } else if base == 16 {
      if HexPrefix(s[i..]) {
        endc := i + 1;
        i := i + 2;
      }
    } else if base == 0 && At(s, i) == '0' {
      radix := 8;
    } else if base == 0 {
      radix := 10;
    }
    assert i == ScannedStart(s, p, base) && radix == ScannedBase(s, p, base);
    hide HexPrefix, SpacesEnd, ScannedStart, ScannedBase;

    var limit: Word := if unsigned_ then ULONG_MAX else if positive then LONG_MAX else -LONG_MIN;
    var absval: Word, overflow: bool;
    i, endc, absval, overflow := ScanDigits(s, i, endc, radix, limit);
    ghost var summed := absval;
    if overflow {
      if unsigned_ {
        absval := ULONG_MAX;
      } else {
        absval := if positive then LONG_MAX else Wrap(LONG_MIN);
      }
    } else if !positive {
      absval := Wrap(WORD - absval);
    }
    value := if unsigned_ then absval else ToSigned(absval);
    endptr := Some(endc);
    ScanStop(s, base, unsigned_, p, i, positive, summed, overflow, absval, endc);
  }

  // ---------- What follows for callers ----------

  /** One end for all four functions, and one value for each signedness. */
  lemma ParsedUnique(s: CString, base: nat, u1: bool, v1: int, e1: nat, u2: bool, v2: int, e2: nat)
    requires Parsed(s, base, u1, v1, e1) && Parsed(s, base, u2, v2, e2)
    ensures e1 == e2 && (u1 == u2 ==> v1 == v2)
  {
    var from := SpacesEnd(s, 0);
    assert e1 > 0 ==> IsSubject(s[from..e1], base);
    assert e2 > 0 ==> IsSubject(s[from..e2], base);
  }

  // ---------- Texts spelled out ----------

  lemma {:induction false} SpacesSkipped(w: seq<char>, t: seq<char>, i: nat)
    requires i <= |w| && forall c :: c in w ==> IsSpace(c)
    requires t == [] || !IsSpace(t[0])
    ensures SpacesEnd(w + t, i) == |w|
    decreases |w| - i
  {
    if i < |w| {
      assert (w + t)[i] == w[i] && w[i] in w;
      SpacesSkipped(w, t, i + 1);
    }
  }

  /** The six white-space characters of section 7.4.1.10 of ISO/IEC 9899:2011, in the C locale. */
  ghost predicate Blank(w: seq<char>) {
    forall c :: c in w ==> c in {' ', '\t', '\n', '\U{0B}', '\U{0C}', '\r'}
  }

  /** How a number may begin: what stands before its digits, and in which base they are. */
  ghost predicate Begins(prefix: seq<char>, digits: seq<char>, base: nat, radix: nat)
    requires digits != []
  {
    if prefix != "" then (prefix == "0x" || prefix == "0X") && (base == 0 || base == 16) && radix == 16
    else if base == 0 then radix == if digits[0] == '0' then 8 else 10
    else radix == base
  }

  /** A lone 0 before an x that a hexadecimal digit follows is no number of its own, but a prefix. */
  ghost predicate OpensPrefix(digits: seq<char>, rest: seq<char>, base: nat) {
    && digits == "0" && (base == 0 || base == 16)
    && |rest| >= 2 && (rest[0] == 'x' || rest[0] == 'X') && Digit(rest[1]) < 16
  }

  /**
    White space, a sign, a prefix, digits, and a rest that no digit begins: the end is that of the digits, and the
    value is theirs, clamped to 64 bits, negated if the sign says so.
   */
  lemma NumberParsed(w: seq<char>, sign: seq<char>, prefix: seq<char>, digits: seq<char>, rest: seq<char>,
                     base: nat, radix: nat, unsigned_: bool)
    requires base == 0 || 2 <= base <= 36
    requires Blank(w) && (sign == "" || sign == "+" || sign == "-")
    requires digits != [] && AllDigits(digits, radix) && Begins(prefix, digits, base, radix)
    requires (rest == [] || Digit(rest[0]) >= radix) && (prefix == "" ==> !OpensPrefix(digits, rest, base))
    requires '\0' !in w + sign + prefix + digits + rest
    ensures var v := Value(digits, radix);
            var result := if unsigned_ then
                            if v > 0xffff_ffff_ffff_ffff then 0xffff_ffff_ffff_ffff
                            else if sign == "-" && v > 0 then 0x1_0000_0000_0000_0000 - v
                            else v
                          else if sign == "-" then
                            if v > 0x8000_0000_0000_0000 then -0x8000_0000_0000_0000 else 0 - v
                          else if v > 0x7fff_ffff_ffff_ffff then 0x7fff_ffff_ffff_ffff else v;
            Parsed(w + sign + prefix + digits + rest, base, unsigned_, result, |w| + |sign| + |prefix| + |digits|)
  {
    hide Parsed, Value, SpacesEnd, Result, Blank, Begins, OpensPrefix, AllDigits, Digit, IsSpace, IsSign;
    ResultSpelledOut(unsigned_, sign == "-", Value(digits, radix));
    BodyIsPlain(prefix, digits, rest, base, radix);
    AfterBlanks(w, sign, prefix + digits + rest);
    Regroup(w, sign, prefix, digits, rest);
    NumberParsedAt(w + sign + prefix + digits + rest, |w| + |sign|, prefix, digits, rest, base, radix, unsigned_);
  }

  /** A number of which the digits and what is around them start at p, past white space and sign. */
  lemma NumberParsedAt(s: CString, p: nat, prefix: seq<char>, digits: seq<char>, rest: seq<char>,
                       base: nat, radix: nat, unsigned_: bool)
    requires base == 0 || 2 <= base <= 36
    requires var from := SpacesEnd(s, 0); p == if from < |s| && IsSign(s[from]) then from + 1 else from
    requires p <= |s| && s[p..] == prefix + digits + rest
    requires digits != [] && AllDigits(digits, radix) && Begins(prefix, digits, base, radix)
    requires (rest == [] || Digit(rest[0]) >= radix) && (prefix == "" ==> !OpensPrefix(digits, rest, base))
    ensures var from := SpacesEnd(s, 0);
            Parsed(s, base, unsigned_, Result(unsigned_, from < |s| && s[from] == '-', Value(digits, radix)),
                   p + |prefix| + |digits|)
  {
    hide Parsed, Value, SpacesEnd, ScannedStart, ScannedBase, DigitRun, Result, Begins, OpensPrefix, AllDigits, Digit;
    ScanOfBody(s, p, prefix, digits, rest, base, radix);
    var i := if ScannedStart(s, p, base) == p + |prefix| then p + |prefix| + |digits| else p + 2;
    ScannedIsParsed(s, base, unsigned_, p, i, p + |prefix| + |digits|);
  }

  lemma Regroup(w: seq<char>, sign: seq<char>, prefix: seq<char>, digits: seq<char>, rest: seq<char>)
    ensures var s, body := w + sign + prefix + digits + rest, prefix + digits + rest;
            s == w + (sign + body) && s[|w| + |sign|..] == body
  {
  }

  lemma ZeroValue(radix: nat)
    ensures Value("0", radix) == 0 == Value([], 16)
  {
    ValuePush([], '0', radix);
    assert [] + ['0'] == "0";
  }

  /** What begins with a digit begins with no white space or sign. */
  lemma BodyIsPlain(prefix: seq<char>, digits: seq<char>, rest: seq<char>, base: nat, radix: nat)
    requires base <= 36 && digits != [] && AllDigits(digits, radix) && Begins(prefix, digits, base, radix)
    ensures var body := prefix + digits + rest; body != [] && !IsSpace(body[0]) && !IsSign(body[0])
  {
    assert Digit(digits[0]) < 36;
    assert (prefix + digits + rest)[0] == if prefix == "" then digits[0] else '0';
  }

  /** Past white space and sign. */
  lemma AfterBlanks(w: seq<char>, sign: seq<char>, body: seq<char>)
    requires Blank(w) && (sign == "" || sign == "+" || sign == "-")
    requires sign == "" ==> body == [] || (!IsSpace(body[0]) && !IsSign(body[0]))
    ensures var s := w + (sign + body);
            && SpacesEnd(s, 0) == |w|
            && (if |w| < |s| && IsSign(s[|w|]) then |w| + 1 else |w|) == |w| + |sign|
            && ((|w| < |s| && s[|w|] == '-') <==> sign == "-")
  {
    forall c | c in w
      ensures IsSpace(c)
    {
      SixSpaces(c);
    }
    assert sign + body == [] || (sign + body)[0] == if sign == "" then body[0] else sign[0];
    SpacesSkipped(w, sign + body, 0);
  }

  /** Where the code takes the digits of a number to start, where they end, and what they are worth. */
  lemma ScanOfBody(s: CString, p: nat, prefix: seq<char>, digits: seq<char>, rest: seq<char>, base: nat, radix: nat)
    requires base == 0 || 2 <= base <= 36
    requires p <= |s| && s[p..] == prefix + digits + rest
    requires digits != [] && AllDigits(digits, radix) && Begins(prefix, digits, base, radix)
    requires (rest == [] || Digit(rest[0]) >= radix) && (prefix == "" ==> !OpensPrefix(digits, rest, base))
    ensures var d, end := ScannedStart(s, p, base), p + |prefix| + |digits|;
            var i := if d == p + |prefix| then end else p + 2;
            && DigitRun(s, d, i, ScannedBase(s, p, base))
            && Value(s[d..i], ScannedBase(s, p, base)) == Value(digits, radix)
            && end == if i > d then i else if d == p + 2 then p + 1 else 0
  {
    hide Value;
    var body, end := prefix + digits + rest, p + |prefix| + |digits|;
    PieceAt(s, p, prefix, digits, rest);
    if prefix != "" {
      assert HexPrefix(body);
      return;
    }
    assert |digits| >= 2 ==> Digit(digits[1]) < radix;
    if HexPrefix(body) && (base == 0 || base == 16) {
      LoneZero(digits, rest, base, radix);
      assert s[p + 2..p + 2] == [];
      ZeroValue(radix);
    }
  }

  lemma LoneZero(digits: seq<char>, rest: seq<char>, base: nat, radix: nat)
    requires digits != [] && AllDigits(digits, radix) && radix <= 16 && (base == 0 || base == 16)
    requires HexPrefix(digits + rest) && !OpensPrefix(digits, rest, base)
    ensures digits == "0" && |rest| > 0 && (|rest| > 1 ==> Digit(rest[1]) >= 16)
  {
    PrefixChars(digits, rest);
  }

  lemma PrefixChars(a: seq<char>, b: seq<char>)
    requires a != [] && HexPrefix(a + b)
    ensures a[0] == '0'
    ensures if |a| >= 2 then a[1] == 'x' || a[1] == 'X' else |b| > 0 && (b[0] == 'x' || b[0] == 'X')
  {
    var t := a + b;
    assert t[0] == a[0] && t[1] == if |a| >= 2 then a[1] else b[0];
  }

  lemma PieceAt(s: seq<char>, p: nat, a: seq<char>, digits: seq<char>, rest: seq<char>)
    requires p <= |s| && s[p..] == a + digits + rest
    ensures var d := p + |a|;
            d + |digits| + |rest| == |s| && s[d..d + |digits|] == digits && s[d + |digits|..] == rest
    ensures forall k :: 0 <= k < |rest| ==> s[p + |a| + |digits| + k] == rest[k]
    ensures digits != [] ==> s[p + |a|] == digits[0]
  {
    assert s[p..][|a|..][..|digits|] == digits;
    assert s[p..][|a|..][|digits|..] == rest;
    assert s[p..][|a|..] == s[p + |a|..];
  }

  lemma ResultSpelledOut(unsigned_: bool, negative: bool, v: nat)
    ensures Result(unsigned_, negative, v) ==
            if unsigned_ then
              if v > 0xffff_ffff_ffff_ffff then 0xffff_ffff_ffff_ffff
              else if negative && v > 0 then 0x1_0000_0000_0000_0000 - v
              else v
            else if negative then
              if v > 0x8000_0000_0000_0000 then -0x8000_0000_0000_0000 else 0 - v
            else if v > 0x7fff_ffff_ffff_ffff then 0x7fff_ffff_ffff_ffff else v
  {
  }

  /** Without a digit to begin with there is no number: 0, and the end is the beginning. */
  lemma NoNumberParsed(w: seq<char>, sign: seq<char>, rest: seq<char>, base: nat, unsigned_: bool)
    requires base == 0 || 2 <= base <= 36
    requires Blank(w) && (sign == "" || sign == "+" || sign == "-")
    requires rest == [] || Digit(rest[0]) >= if base == 0 then 10 else base
    requires sign == "" && rest != [] ==> !IsSpace(rest[0]) && !IsSign(rest[0])
    requires '\0' !in w + sign + rest
    ensures Parsed(w + sign + rest, base, unsigned_, 0, 0)
  {
    hide Parsed, SpacesEnd, Value, Result, ScannedStart, ScannedBase, DigitRun, Blank, Digit, IsSpace;
    var s, p := w + sign + rest, |w| + |sign|;
    AfterBlanks(w, sign, rest);
    assert s == w + (sign + rest) && s[p..] == rest;
    NothingToScan(s, p, rest, base);
    ScannedIsParsed(s, base, unsigned_, p, p, 0);
    NoDigits(unsigned_, At(s, SpacesEnd(s, 0)) == '-', ScannedBase(s, p, base));
  }

  lemma NothingToScan(s: CString, p: nat, rest: seq<char>, base: nat)
    requires base == 0 || 2 <= base <= 36
    requires p <= |s| && s[p..] == rest
    requires rest == [] || Digit(rest[0]) >= if base == 0 then 10 else base
    ensures ScannedStart(s, p, base) == p && DigitRun(s, p, p, ScannedBase(s, p, base)) && s[p..p] == []
  {
    assert p < |s| ==> s[p] == rest[0];
  }

  // ---------- Round trips ----------

  function DigitChar(d: nat): (c: char)
    requires d < 36
    ensures Digit(c) == d
  {
    if d < 10 then '0' + d as char else 'a' + (d - 10) as char
  }

  /** The canonical rendering of a magnitude: no leading zeros, lower-case letters. */
  function Render(v: nat, base: nat): (t: seq<char>)
    requires 2 <= base <= 36
    ensures |t| > 0
    decreases v
  {
    if v < base then [DigitChar(v)]
    else
      assert v / base < v;
      Render(v / base, base) + [DigitChar(v % base)]
  }

  function Canonical(v: int, base: nat): (t: seq<char>)
    requires 2 <= base <= 36
  {
    if v < 0 then "-" + Render(-v, base) else Render(v, base)
  }

  lemma QuotientShrinks(v: nat, base: nat) returns (q: nat, r: nat)
    requires v >= base >= 2
    ensures q == v / base && r == v % base && r < base && q < v && v == base * q + r
  {
    q, r := v / base, v % base;
  }

  lemma OneDigit(v: nat, base: nat)
    requires v < base <= 36
    ensures Value([DigitChar(v)], base) == v
  {
    ValuePush([], DigitChar(v), base);
    assert [] + [DigitChar(v)] == [DigitChar(v)];
  }

  lemma {:induction false} RenderedDigits(v: nat, base: nat)
    requires 2 <= base <= 36
    ensures AllDigits(Render(v, base), base) && Value(Render(v, base), base) == v
    decreases v
  {
    hide Digit, Value;
    if v < base {
      assert Render(v, base) == [DigitChar(v)];
      OneDigit(v, base);
      return;
    }
    var q, r := QuotientShrinks(v, base);
    assert Render(v, base) == Render(q, base) + [DigitChar(r)];
    hide Render;
    RenderedDigits(q, base);
    ValuePush(Render(q, base), DigitChar(r), base);
  }

  /** Digits are no white space, sign or NUL. */
  lemma DigitsArePlain(t: seq<char>, base: nat)
    requires base <= 36 && AllDigits(t, base)
    ensures forall c :: c in t ==> !IsSpace(c) && !IsSign(c) && c != '\0'
  {
    forall c | c in t
      ensures Digit(c) < 36
    {
      var k :| 0 <= k < |t| && t[k] == c;
    }
  }

  /** A text of digits alone is an unsigned subject sequence of a base other than 0, and stands for their value. */
  lemma DigitsAreSubject(t: seq<char>, base: nat)
    requires 2 <= base <= 36 && t != [] && AllDigits(t, base)
    ensures IsUnsignedSubject(t, base) && Digits(t, base) == t && WrittenBase(t, base) == base
  {
    if |t| >= 2 {
      assert Digit(t[1]) < base;
    }
  }

  /** A text that is a subject sequence as a whole is parsed as a whole. */
  lemma ParsedWhole(s: seq<char>, base: nat, unsigned_: bool)
    requires s != [] && !IsSpace(s[0]) && IsSubject(s, base)
    ensures Parsed(s, base, unsigned_, Result(unsigned_, Negative(s), Magnitude(s, base)), |s|)
  {
    hide IsSubject, IsSpace, Result;
    assert s[0..|s|] == s;
  }

  lemma ResultInRange(v: int, unsigned_: bool)
    requires if unsigned_ then 0 <= v <= ULONG_MAX else LONG_MIN <= v <= LONG_MAX
    ensures Result(unsigned_, v < 0, if v < 0 then -v else v) == v
  {
  }

  /** Parsing the canonical rendering of a value in range gives the value back, and consumes all of it. */
  lemma RoundTrip(v: int, base: nat, unsigned_: bool)
    requires 2 <= base <= 36
    requires if unsigned_ then 0 <= v <= ULONG_MAX else LONG_MIN <= v <= LONG_MAX
    ensures '\0' !in Canonical(v, base)
    ensures Parsed(Canonical(v, base), base, unsigned_, v, |Canonical(v, base)|)
  {
    var s, m := Canonical(v, base), if v < 0 then -v else v;
    var body := Render(m, base);
    RenderedDigits(m, base);
    DigitsArePlain(body, base);
    DigitsAreSubject(body, base);
    ResultInRange(v, unsigned_);
    hide Render, Value, Digits, WrittenBase, AllDigits, Digit, Result;
    assert body[0] in body;
    assert Unsigned(s) == body;
    ParsedWhole(s, base, unsigned_);
  }
}
