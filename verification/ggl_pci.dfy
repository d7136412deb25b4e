/** parse_pci_address of efi/ggl_pci.c: the grammar of PCI locations, built on strtoul. */
module GglPci {
  import opened Words
  import opened Stdlib

  datatype Locator = Locator(domain: Word, bus: Word, device: Word, function_: Word)

  // ---------- The grammar ----------

  predicate IsXDigit(c: char) {
    Digit(c) < 16
  }

  /** Digits and the letters of both cases up to F. */
  lemma XDigits(c: char)
    ensures IsXDigit(c) <==> '0' <= c <= '9' || 'a' <= c <= 'f' || 'A' <= c <= 'F'
  {
  }

  /** A number as the code accepts one: hexadecimal digits, possibly after a 0x that a digit follows. */
  ghost predicate IsField(f: seq<char>) {
    f != [] && IsXDigit(f[0]) && IsUnsignedSubject(f, 16)
  }

  ghost function FieldValue(f: seq<char>): int {
    Result(true, false, Value(Digits(f, 16), 16))
  }

  ghost predicate IsSeparator(c: char) {
    c == ':' || c == '.'
  }

  ghost predicate Splits(t: seq<char>, field: seq<char>, separator: char, rest: seq<char>) {
    var n := |field|;
    IsField(field) && n < |t| && t[..n] == field && t[n] == separator && t[n + 1..] == rest
  }

  /** The masks in the code are 32 bits wide, and the words they check are 64 bits wide. */
  predicate FitsLow(v: Word, bound: nat) {
    v % 0x1_0000_0000 < bound
  }

  ghost predicate PassesChecks(l: Locator) {
    FitsLow(l.domain, 0x1_0000) && FitsLow(l.bus, 0x100) && FitsLow(l.device, 0x100) && FitsLow(l.function_, 8)
  }

  /** function, after domain:bus:device. or what precedes the last dot of the long form */
  ghost predicate LongTail(t: seq<char>, domain: Word, bus: Word, l: Locator) {
    exists c, d :: Splits(t, c, '.', d) && IsField(d) && l == Locator(domain, bus, FieldValue(c), FieldValue(d))
  }

  /** device.function or bus:device.function, after a first number */
  ghost predicate Tail(t: seq<char>, first: Word, l: Locator) {
    || (exists b, c :: Splits(t, b, '.', c) && IsField(c) && l == Locator(0, first, FieldValue(b), FieldValue(c)))
    || (exists b, r :: Splits(t, b, ':', r) && LongTail(r, first, FieldValue(b), l))
  }

  /** bus:device.function or domain:bus:device.function */
  ghost predicate Address(s: seq<char>, l: Locator) {
    exists a, r :: Splits(s, a, ':', r) && Tail(r, FieldValue(a), l)
  }

  ghost predicate Denotes(s: seq<char>, l: Locator) {
    Address(s, l) && PassesChecks(l)
  }

  // ---------- Fields ----------

  /** Nothing that goes on past a separator is a field. */
  lemma NoFieldPastSeparator(t: seq<char>, k: nat)
    requires k < |t| && IsSeparator(t[k])
    ensures !IsField(t)
  {
    if HexPrefix(t) {
      assert Digits(t, 16)[k - 2] == t[k];
    } else {
      assert Digits(t, 16)[k] == t[k];
    }
  }

  lemma SplitUnique(t: seq<char>, f: seq<char>, c: char, r: seq<char>, f': seq<char>, c': char, r': seq<char>)
    requires Splits(t, f, c, r) && Splits(t, f', c', r') && IsSeparator(c) && IsSeparator(c')
    ensures f == f' && c == c' && r == r'
  {
    if |f| < |f'| {
      assert f'[|f|] == t[|f|] == c;
      NoFieldPastSeparator(f', |f|);
    } else if |f'| < |f| {
      assert f[|f'|] == t[|f'|] == c';
      NoFieldPastSeparator(f, |f'|);
    }
  }

  /** What ReadField reports: the only way to split a first field off the text. */
  ghost predicate FieldRead(t: seq<char>, ok: bool, value: int, end: nat) {
    if ok then
      && 0 < end <= |t| && IsField(t[..end]) && value == FieldValue(t[..end])
      && (forall f, c, r :: Splits(t, f, c, r) && IsSeparator(c) ==>
            end < |t| && f == t[..end] && c == t[end] && r == t[end + 1..])
      && (end < |t| ==> Splits(t, t[..end], t[end], t[end + 1..]))
      && (IsField(t) <==> end == |t|)
    else
      !IsField(t) && forall f, c, r :: !Splits(t, f, c, r)
  }

  /** Where strtoul stops in a text that starts with a digit is where its only possible first field ends. */
  lemma StrtoulReadsField(t: CString, v: int, e: nat)
    requires t != [] && IsXDigit(t[0]) && Parsed(t, 16, true, v, e)
    ensures FieldRead(t, true, v, e)
  {
    hide Parsed, IsField, FieldValue, IsXDigit;
    FirstCharIsSubject(t, v, e);
    forall f, c, r | Splits(t, f, c, r) && IsSeparator(c)
      ensures e < |t| && f == t[..e] && c == t[e] && r == t[e + 1..]
    {
      FieldEndsAtSeparator(t, e, f, c, r);
    }
    assert t[..|t|] == t;
  }

  /** A field that is split off the text is the longest field that the text begins with. */
  lemma FieldEndsAtSeparator(t: seq<char>, e: nat, f: seq<char>, c: char, r: seq<char>)
    requires 0 < e <= |t| && IsField(t[..e]) && forall k :: 0 < k <= |t| && IsField(t[..k]) ==> k <= e
    requires Splits(t, f, c, r) && IsSeparator(c)
    ensures e == |f| < |t| && f == t[..e] && c == t[e] && r == t[e + 1..]
  {
    assert f != [];
    hide IsField;
    assert IsField(t[..|f|]);
    if |f| < e {
      assert t[..e][|f|] == c;
      NoFieldPastSeparator(t[..e], |f|);
    }
  }

  lemma FirstCharIsSubject(t: CString, v: int, e: nat)
    requires t != [] && IsXDigit(t[0]) && Parsed(t, 16, true, v, e)
    ensures 0 < e <= |t| && IsField(t[..e]) && v == FieldValue(t[..e])
    ensures forall k :: 0 < k <= |t| && IsField(t[..k]) ==> k <= e
  {
    assert SpacesEnd(t, 0) == 0;
    assert t[0..1] == [t[0]];
    assert IsSubject(t[0..1], 16);
    assert t[0..e] == t[..e];
    forall k | 0 < k <= |t| && IsField(t[..k])
      ensures k <= e
    {
      assert t[0..k] == t[..k];
    }
  }

  lemma AddressIs(s: seq<char>, a: seq<char>, r: seq<char>, l: Locator)
    requires Splits(s, a, ':', r)
    ensures Address(s, l) <==> Tail(r, FieldValue(a), l)
  {
    if Address(s, l) {
      var a', r' :| Splits(s, a', ':', r') && Tail(r', FieldValue(a'), l);
      SplitUnique(s, a, ':', r, a', ':', r');
    }
  }

  lemma TailIs(t: seq<char>, first: Word, b: seq<char>, separator: char, r: seq<char>, l: Locator)
    requires Splits(t, b, separator, r) && IsSeparator(separator)
    ensures Tail(t, first, l) <==>
            if separator == '.' then IsField(r) && l == Locator(0, first, FieldValue(b), FieldValue(r))
            else LongTail(r, first, FieldValue(b), l)
  {
    if Tail(t, first, l) {
      if b', c' :| Splits(t, b', '.', c') && IsField(c') && l == Locator(0, first, FieldValue(b'), FieldValue(c')) {
        SplitUnique(t, b, separator, r, b', '.', c');
      } else {
        var b', r' :| Splits(t, b', ':', r') && LongTail(r', first, FieldValue(b'), l);
        SplitUnique(t, b, separator, r, b', ':', r');
      }
    }
  }

  lemma LongTailIs(t: seq<char>, domain: Word, bus: Word, c: seq<char>, d: seq<char>, l: Locator)
    requires Splits(t, c, '.', d)
    ensures LongTail(t, domain, bus, l) <==> IsField(d) && l == Locator(domain, bus, FieldValue(c), FieldValue(d))
  {
    if LongTail(t, domain, bus, l) {
      var c', d' :| Splits(t, c', '.', d') && IsField(d') && l == Locator(domain, bus, FieldValue(c'), FieldValue(d'));
      SplitUnique(t, c, '.', d, c', '.', d');
    }
  }

  lemma FieldChars(f: seq<char>)
    requires IsField(f)
    ensures forall c :: c in f ==> IsXDigit(c) || c == 'x' || c == 'X'
  {
    var ds := Digits(f, 16);
    if HexPrefix(f) {
      assert f == [f[0], f[1]] + ds;
    }
    forall c | c in ds
      ensures IsXDigit(c)
    {
      var k :| 0 <= k < |ds| && ds[k] == c;
    }
  }

  /** Of each separator, the text has those of the rest and the one split at. */
  lemma SplitCounts(t: seq<char>, f: seq<char>, separator: char, r: seq<char>)
    requires Splits(t, f, separator, r) && IsSeparator(separator)
    ensures multiset(t)['.'] == multiset(r)['.'] + if separator == '.' then 1 else 0
    ensures multiset(t)[':'] == multiset(r)[':'] + if separator == ':' then 1 else 0
  {
    FieldCounts(f);
    assert t == f + [separator] + r;
  }

  lemma FieldCounts(f: seq<char>)
    requires IsField(f)
    ensures multiset(f)['.'] == 0 == multiset(f)[':']
  {
    FieldChars(f);
  }

  /** An address has one dot, and a colon in front of device and function, or another one after a domain. */
  lemma AddressShape(s: seq<char>, l: Locator)
    requires Address(s, l)
    ensures multiset(s)['.'] == 1 && 1 <= multiset(s)[':'] <= 2
    ensures multiset(s)[':'] == 1 ==> l.domain == 0
  {
    hide Splits, IsField;
    var a, r :| Splits(s, a, ':', r) && Tail(r, FieldValue(a), l);
    SplitCounts(s, a, ':', r);
    if b, c :| Splits(r, b, '.', c) && IsField(c) && l == Locator(0, FieldValue(a), FieldValue(b), FieldValue(c)) {
      SplitCounts(r, b, '.', c);
      FieldCounts(c);
    } else {
      var b, t :| Splits(r, b, ':', t) && LongTail(t, FieldValue(a), FieldValue(b), l);
      SplitCounts(r, b, ':', t);
      var c, d :| Splits(t, c, '.', d) && IsField(d);
      SplitCounts(t, c, '.', d);
      FieldCounts(d);
    }
  }

  // ---------- The range checks ----------

  lemma MaskClear(v: Word, k: nat, bound: nat, c: nat)
    requires k <= 32 && bound == Pow2(k) <= 0x1_0000_0000 == bound * c
    ensures And(v, 0x1_0000_0000 - bound) == 0 <==> FitsLow(v, bound)
  {
    SmallPowers();
    MaskKeepsBits(v, 32, k);
    hide And, Pow2;
    ClearAbove(v, bound, c);
  }

  lemma ChecksPass(l: Locator)
    ensures PassesChecks(l) <==>
            && And(l.domain, 0xffff_0000) == 0 && And(l.bus, 0xffff_ff00) == 0
            && And(l.device, 0xffff_ff00) == 0 && And(l.function_, 0xffff_fff8) == 0
  {
    SmallPowers();
    hide And, FitsLow, Pow2;
    MaskClear(l.domain, 16, 0x1_0000, 0x1_0000);
    MaskClear(l.bus, 8, 0x100, 0x100_0000);
    MaskClear(l.device, 8, 0x100, 0x100_0000);
    MaskClear(l.function_, 3, 8, 0x2000_0000);
  }

  // ---------- The parser ----------

  /** The isxdigit guard and strtoul(t, &end, 16), which the code repeats for each number. */
  method ReadField(t: CString) returns (ok: bool, value: Word, end: nat)
    ensures end <= |t| && FieldRead(t, ok, value, end)
  {
    hide Parsed;
    value, end, ok := 0, 0, t != [] && IsXDigit(t[0]);
    if ok {
      var v, endptr := Strtox(t, 16, true);
      StrtoulReadsField(t, v, endptr.value);
      value, end := v, endptr.value;
    }
  }

  /** -1 for an address that does not parse or fails a check, 0 and the location otherwise. */
  method ParsePciAddress(locator: Option<CString>) returns (status: int, result: Locator)
    ensures status == 0 || status == -1
    ensures status == 0 ==> locator.Some? && forall l :: Denotes(locator.value, l) <==> l == result
    ensures status == -1 && locator.Some? ==> forall l :: !Denotes(locator.value, l)
  {
    hide Splits, IsField, FieldValue, PassesChecks, And;
    status, result := -1, Locator(0, 0, 0, 0);
    if locator.None? {
      return;
    }
    var s := locator.value;
    var ok, items0, e0 := ReadField(s);
    if !ok || At(s, e0) != ':' {
      return;
    }
    var s1 := s[e0 + 1..];
    forall l { AddressIs(s, s[..e0], s1, l); }
    var ok1, items1, e1 := ReadField(s1);
    if !ok1 || At(s1, e1) == '\0' {
      return;
    }
    var nitems := 3;
    if At(s1, e1) == ':' {
      nitems := 4;
    } else if At(s1, e1) != '.' {
      return;
    }
    var s2 := s1[e1 + 1..];
    forall l { TailIs(s1, items0, s1[..e1], s1[e1], s2, l); }
    var ok2, items2, e2 := ReadField(s2);
    if !ok2 {
      return;
    }
    if nitems == 3 {
      if At(s2, e2) != '\0' {
        return;
      }
      assert s2[..e2] == s2;
      result := Locator(0, items0, items1, items2);
    } else {
      if At(s2, e2) != '.' {
        return;
      }
      var s3 := s2[e2 + 1..];
      forall l { LongTailIs(s2, items0, items1, s2[..e2], s3, l); }
      var ok3, items3, e3 := ReadField(s3);
      if !ok3 || At(s3, e3) != '\0' {
        return;
      }
      assert s3[..e3] == s3;
      result := Locator(items0, items1, items2, items3);
    }
    ChecksPass(result);
    if And(result.domain, 0xffff_0000) != 0 { return; }
    if And(result.bus, 0xffff_ff00) != 0 { return; }
    if And(result.device, 0xffff_ff00) != 0 { return; }
    if And(result.function_, 0xffff_fff8) != 0 { return; }
    status := 0;
  }

  // ---------- Printing and parsing ----------

  function Zeros(n: nat): (t: seq<char>)
    ensures |t| == n
  {
    seq(n, _ => '0')
  }

  /** %0<width>lx */
  function HexField(v: Word, width: nat): seq<char> {
    var t := Render(v, 16);
    if |t| < width then Zeros(width - |t|) + t else t
  }

  /** %04lx:%02lx:%02lx.%lx */
  function Print(l: Locator): seq<char> {
    HexField(l.domain, 4) + [':'] + (HexField(l.bus, 2) + [':'] +
      (HexField(l.device, 2) + ['.'] + HexField(l.function_, 0)))
  }

  lemma {:induction false} LeadingZeros(n: nat, t: seq<char>, base: nat)
    ensures Value(Zeros(n) + t, base) == Value(t, base)
    decreases n + |t|
  {
    var z := Zeros(n) + t;
    if t != [] {
      LeadingZeros(n, t[..|t| - 1], base);
      assert z[..|z| - 1] == Zeros(n) + t[..|t| - 1];
    } else if n > 0 {
      LeadingZeros(n - 1, [], base);
      assert z[..n - 1] == Zeros(n - 1) + [];
    }
  }

  lemma PrintedField(v: Word, width: nat)
    ensures IsField(HexField(v, width)) && FieldValue(HexField(v, width)) == v
    ensures '\0' !in HexField(v, width)
  {
    var t, f := Render(v, 16), HexField(v, width);
    RenderedDigits(v, 16);
    if |t| < width {
      LeadingZeros(width - |t|, t, 16);
    }
    assert AllDigits(f, 16);
    DigitsArePlain(f, 16);
    DigitsAreSubject(f, 16);
    ResultInRange(v, true);
  }

  lemma JoinSplits(field: seq<char>, separator: char, rest: seq<char>)
    requires IsField(field)
    ensures Splits(field + [separator] + rest, field, separator, rest)
  {
  }

  lemma JoinedAddress(d: seq<char>, b: seq<char>, v: seq<char>, f: seq<char>, l: Locator)
    requires IsField(d) && IsField(b) && IsField(v) && IsField(f)
    requires l == Locator(FieldValue(d), FieldValue(b), FieldValue(v), FieldValue(f))
    ensures Address(d + [':'] + (b + [':'] + (v + ['.'] + f)), l)
  {
    var t2 := v + ['.'] + f;
    var t1 := b + [':'] + t2;
    JoinSplits(v, '.', f);
    JoinSplits(b, ':', t2);
    JoinSplits(d, ':', t1);
    hide IsField, FieldValue, Splits;
    LongTailIs(t2, l.domain, l.bus, v, f, l);
    TailIs(t1, l.domain, b, ':', t2, l);
    AddressIs(d + [':'] + t1, d, t1, l);
  }

  /** A printed location reads back as itself. */
  lemma PrintThenRead(l: Locator)
    ensures '\0' !in Print(l) && Address(Print(l), l)
    ensures Denotes(Print(l), l) <==> PassesChecks(l)
  {
    hide HexField, IsField, FieldValue, Address, PassesChecks;
    PrintedField(l.domain, 4);
    PrintedField(l.bus, 2);
    PrintedField(l.device, 2);
    PrintedField(l.function_, 0);
    JoinedAddress(HexField(l.domain, 4), HexField(l.bus, 2), HexField(l.device, 2), HexField(l.function_, 0), l);
  }

  ghost predicate InRange(l: Locator) {
    l.domain <= 0xffff && l.bus <= 0xff && l.device <= 0xff && l.function_ <= 7
  }

  lemma {:induction false} RenderLength(v: nat, k: nat)
    requires k > 0 && v < Power16(k)
    ensures |Render(v, 16)| <= k
    ensures forall c :: c in Render(v, 16) ==> '0' <= c <= '9' || 'a' <= c <= 'f'
    decreases k
  {
    if v >= 16 {
      RenderLength(v / 16, k - 1);
    }
  }

  ghost function Power16(k: nat): nat {
    if k == 0 then 1 else 16 * Power16(k - 1)
  }

  lemma HexFieldShape(v: Word, width: nat, k: nat)
    requires k > 0 && v < Power16(k) && (width == k || (k == 1 && width == 0))
    ensures |HexField(v, width)| == k
    ensures forall c :: c in HexField(v, width) ==> '0' <= c <= '9' || 'a' <= c <= 'f'
  {
    RenderLength(v, k);
  }

  /** A location in range is printed in twelve characters, with lower-case digits around the separators. */
  lemma PrintShape(l: Locator)
    requires InRange(l)
    ensures |Print(l)| == 12 && Print(l)[4] == Print(l)[7] == ':' && Print(l)[10] == '.'
    ensures forall i :: 0 <= i < 12 && i != 4 && i != 7 && i != 10 ==>
              '0' <= Print(l)[i] <= '9' || 'a' <= Print(l)[i] <= 'f'
  {
    assert Power16(1) == 16 && Power16(2) == 0x100 && Power16(4) == 0x1_0000;
    hide HexField, Power16;
    HexFieldShape(l.domain, 4, 4);
    HexFieldShape(l.bus, 2, 2);
    HexFieldShape(l.device, 2, 2);
    HexFieldShape(l.function_, 0, 1);
    Twelve(HexField(l.domain, 4), HexField(l.bus, 2), HexField(l.device, 2), HexField(l.function_, 0));
  }

  lemma Twelve(d: seq<char>, b: seq<char>, v: seq<char>, f: seq<char>)
    requires |d| == 4 && |b| == 2 == |v| && |f| == 1
    ensures var t := d + [':'] + (b + [':'] + (v + ['.'] + f));
            && |t| == 12 && t[4] == t[7] == ':' && t[10] == '.'
            && forall i :: 0 <= i < 12 && i != 4 && i != 7 && i != 10 ==> t[i] in d || t[i] in b || t[i] in v || t[i] in f
  {
    var t2 := v + ['.'] + f;
    var t1 := b + [':'] + t2;
    assert forall i :: 0 <= i < 4 && i != 2 ==> t2[i] in v || t2[i] in f;
    assert forall i :: 0 <= i < 7 && i != 2 && i != 5 ==> t1[i] in b || t1[i] in t2[..2] || t1[i] in f;
  }

  /** Every location in range is accepted, and printed locations in range read back. */
  lemma PciRoundTrip(l: Locator)
    requires InRange(l)
    ensures Denotes(Print(l), l)
  {
    hide Print, Address;
    PrintThenRead(l);
  }

  /**
    A text of the address form is accepted exactly when it names a location in range, unless one of its numbers
    does not fit the 32 bits that the checks look at and the checks on those bits pass.
   */
  lemma AcceptedIffInRange(s: seq<char>, l: Locator)
    requires Address(s, l)
    ensures (Denotes(s, l) <==> InRange(l)) <==>
            || (l.domain < 0x1_0000_0000 && l.bus < 0x1_0000_0000 && l.device < 0x1_0000_0000 && l.function_ < 0x1_0000_0000)
            || !PassesChecks(l)
  {
    hide Address;
  }

  /** A domain of 2^32 is accepted. */
  lemma WideDomainAccepted()
    ensures var l := Locator(0x1_0000_0000, 0, 0, 0); Denotes(Print(l), l) && !InRange(l)
  {
    hide Print, Address;
    PrintThenRead(Locator(0x1_0000_0000, 0, 0, 0));
  }

  /** The short form means the same as the long form with domain 0000 in front. */
  lemma ShortFormMeansDomainZero(s: seq<char>, a: seq<char>, r: seq<char>, b: seq<char>, c: seq<char>, l: Locator)
    requires Splits(s, a, ':', r) && Splits(r, b, '.', c)
    ensures Denotes("0000:" + s, l) <==> Denotes(s, l)
  {
    var zero := "0000";
    assert Zeros(4) + [] == zero;
    LeadingZeros(4, [], 16);
    DigitsAreSubject(zero, 16);
    assert IsField(zero) && FieldValue(zero) == 0;
    assert "0000:" + s == zero + [':'] + s;
    JoinSplits(zero, ':', s);
    hide IsField, FieldValue, Splits, PassesChecks;
    AddressIs("0000:" + s, zero, s, l);
    TailIs(s, 0, a, ':', r, l);
    LongTailIs(r, 0, FieldValue(a), b, c, l);
    AddressIs(s, a, r, l);
    TailIs(r, FieldValue(a), b, '.', c, l);
  }
}
