/** The memory moves, tokenizer and substring search of c/string.c. */
module CStrings {
  import opened Words
  import opened Stdlib

  // ---------- memcpy and memmove: one flat memory, pointers are indices ----------

  /** Memory `m` with the n elements at src copied, as they were, to dst. */
  ghost function Moved<T>(m: seq<T>, dst: nat, src: nat, n: nat): (r: seq<T>)
    requires dst + n <= |m| && src + n <= |m|
    ensures |r| == |m|
  {
    m[..dst] + m[src..src + n] + m[dst + n..]
  }

  /** The elements lo to hi-1 of the region have been copied, and nothing else has changed. */
  ghost predicate CopiedPart<T>(was: seq<T>, now: seq<T>, dst: nat, src: nat, lo: nat, hi: nat)
    requires dst + hi <= |was| == |now| && src + hi <= |was|
  {
    forall k :: 0 <= k < |now| ==> now[k] == was[if dst + lo <= k < dst + hi then k - dst + src else k]
  }

  lemma CopiedWhole<T>(was: seq<T>, now: seq<T>, dst: nat, src: nat, n: nat)
    requires dst + n <= |was| == |now| && src + n <= |was|
    requires CopiedPart(was, now, dst, src, 0, n)
    ensures now == Moved(was, dst, src, n)
  {
  }

  /** Which element of the source an upward copy to `d` places above it leaves at offset k: inside itself it repeats. */
  ghost function Origin(d: int, k: nat): (r: nat)
    ensures r <= k && (d <= 0 || k < d ==> r == k)
    ensures 0 < d <= k ==> r < d
    decreases k
  {
    if 0 < d <= k then Origin(d, k - d) else k
  }

  lemma {:induction false} OriginIsRemainder(d: nat, k: nat)
    requires d > 0
    ensures Origin(d, k) == k % d
    decreases k
  {
    if d <= k {
      OriginIsRemainder(d, k - d);
      var q, r := (k - d) / d, (k - d) % d;
      assert k == d * (q + 1) + r;
      ModUnique(k, d, q + 1, r);
    } else {
      ModUnique(k, d, 0, k);
    }
  }

  /** An element of the overlap has been written before it is read. */
  lemma OriginRepeats(d: int, k: nat)
    requires 0 < d <= k
    ensures Origin(d, k - d) == Origin(d, k)
  {
  }

  /** Memory after n elements have been copied upwards, one at a time. */
  ghost predicate CopiedUp<T>(was: seq<T>, now: seq<T>, dst: nat, src: nat, n: nat)
    requires dst + n <= |was| == |now| && src + n <= |was|
  {
    forall x :: 0 <= x < |now| ==> now[x] == was[if dst <= x < dst + n then src + Origin(dst - src, x - dst) else x]
  }

  /** Where the destination overlaps it, the source repeats what comes before. */
  ghost predicate RepeatsInOverlap<T>(m: seq<T>, dst: nat, src: nat, n: nat)
    requires src + n <= |m|
  {
    forall x :: src <= x < src + n ==> m[x] == m[src + Origin(dst - src, x - src)]
  }

  lemma MovedAt<T>(m: seq<T>, dst: nat, src: nat, n: nat, x: nat)
    requires dst + n <= |m| && src + n <= |m| && x < |m|
    ensures Moved(m, dst, src, n)[x] == m[if dst <= x < dst + n then src + (x - dst) else x]
  {
  }

  /** An upward copy is a move exactly when its source repeats itself in the overlap; below the source it always is. */
  lemma CopiedUpIsMoved<T>(was: seq<T>, now: seq<T>, dst: nat, src: nat, n: nat)
    requires dst + n <= |was| == |now| && src + n <= |was| && CopiedUp(was, now, dst, src, n)
    ensures now == Moved(was, dst, src, n) <==> RepeatsInOverlap(was, dst, src, n)
    ensures dst <= src || src + n <= dst ==> RepeatsInOverlap(was, dst, src, n)
  {
    var moved := Moved(was, dst, src, n);
    forall x: nat | x < |was|
      ensures moved[x] == was[if dst <= x < dst + n then src + (x - dst) else x]
    {
      MovedAt(was, dst, src, n, x);
    }
    hide Moved, Origin;
    if now == moved {
      forall x | src <= x < src + n
        ensures was[x] == was[src + Origin(dst - src, x - src)]
      {
        assert now[dst + (x - src)] == moved[dst + (x - src)];
      }
    }
  }

  /** What an upward copy reads at step i. */
  lemma ReadForCopy<T>(was: seq<T>, now: seq<T>, dst: nat, src: nat, i: nat)
    requires dst + i < |was| == |now| && src + i < |was| && CopiedUp(was, now, dst, src, i)
    ensures now[src + i] == was[src + Origin(dst - src, i)]
  {
    if dst <= src + i < dst + i {
      var k := src + i - dst;
      assert now[dst + k] == was[src + Origin(dst - src, k)];
      hide Origin;
      OriginRepeats(dst - src, i);
    }
  }

  lemma NothingCopied<T>(was: seq<T>, dst: nat, src: nat)
    requires dst <= |was| && src <= |was|
    ensures CopiedUp(was, was, dst, src, 0)
  {
  }

  lemma CopyOne<T>(was: seq<T>, now: seq<T>, dst: nat, src: nat, i: nat)
    requires dst + i < |was| == |now| && src + i < |was| && CopiedUp(was, now, dst, src, i)
    ensures CopiedUp(was, now[dst + i := now[src + i]], dst, src, i + 1)
  {
    hide Origin;
    ReadForCopy(was, now, dst, src, i);
  }

  /** memcpy copies upwards: a move, unless the destination lies inside the source's tail. */
  method Memcpy<T>(mem: array<T>, dst: nat, src: nat, n: nat)
    requires dst + n <= mem.Length && src + n <= mem.Length
    modifies mem
    ensures CopiedUp(old(mem[..]), mem[..], dst, src, n)
    ensures dst <= src || src + n <= dst ==> mem[..] == Moved(old(mem[..]), dst, src, n)
  {
    hide Moved, RepeatsInOverlap, CopiedUp;
    ghost var was := mem[..];
    var i := 0;
    NothingCopied(was, dst, src);
    while i < n
      invariant i <= n
      invariant CopiedUp(was, mem[..], dst, src, i)
    {
      ghost var now := mem[..];
      mem[dst + i] := mem[src + i];
      assert mem[..] == now[dst + i := now[src + i]];
      CopyOne(was, now, dst, src, i);
      i := i + 1;
    }
    CopiedUpIsMoved(was, mem[..], dst, src, n);
  }

  /** memmove is a move wherever the two regions lie. */
  method Memmove<T>(mem: array<T>, dst: nat, src: nat, n: nat)
    requires dst + n <= mem.Length && src + n <= mem.Length
    modifies mem
    ensures mem[..] == Moved(old(mem[..]), dst, src, n)
  {
    if dst <= src {
      Memcpy(mem, dst, src, n);
      return;
    }
    ghost var was := mem[..];
    var left: nat := n;
    while left > 0
      invariant left <= n
      invariant CopiedPart(was, mem[..], dst, src, left, n)
    {
      ghost var before := mem[..];
      left := left - 1;
      mem[dst + left] := mem[src + left];
      assert mem[..] == before[dst + left := was[src + left]];
    }
    CopiedWhole(was, mem[..], dst, src, n);
  }

  // ---------- strstr ----------

  /** The needle occurs in the haystack at k. */
  ghost predicate OccursAt(haystack: seq<char>, needle: seq<char>, k: nat) {
    k + |needle| <= |haystack| && haystack[k..k + |needle|] == needle
  }

  /** What section 7.24.5.7 of ISO/IEC 9899:2011 asks of strstr: the first occurrence, or None without one. */
  ghost predicate FirstOccurrence(haystack: seq<char>, needle: seq<char>, found: Option<nat>) {
    match found
    case Some(k) => OccursAt(haystack, needle, k) && forall j: nat :: j < k ==> !OccursAt(haystack, needle, j)
    case None => forall j: nat :: !OccursAt(haystack, needle, j)
  }

  /**
    After matching `j` characters the needle's first `k` are matched again by the last `k`, and the next
    character tells the two apart: the restart that the search would then need to make is not at the
    current character.
   */
  ghost predicate NeedsBackup(needle: seq<char>, j: nat, k: nat) {
    0 < k < j < |needle| && needle[..k] == needle[j - k..j] && needle[k] != needle[j]
  }

  ghost predicate NeverNeedsBackup(needle: seq<char>) {
    forall j, k :: !NeedsBackup(needle, j, k)
  }

  /** The loop of strstr from position h, with `matched` needle characters matched just before h. */
  function Search(haystack: CString, needle: CString, h: nat, matched: nat): Option<nat>
    requires matched < |needle| && matched <= h <= |haystack|
    decreases |haystack| - h
  {
    if h == |haystack| then None
    else
      var m := if haystack[h] != needle[matched] then 0 else matched;
      if haystack[h] == needle[m] then
        if m + 1 == |needle| then Some(h - m) else Search(haystack, needle, h + 1, m + 1)
      else Search(haystack, needle, h + 1, m)
  }

  function StrstrSpec(haystack: CString, needle: CString): Option<nat> {
    if needle == [] then Some(0) else Search(haystack, needle, 0, 0)
  }

  // An attempt begins at some position and matches as much of the needle as it can; the next one begins where it failed.

  /** How much of the needle the haystack has at x. */
  ghost function MatchLength(haystack: seq<char>, needle: seq<char>, x: nat): (l: nat)
    requires x <= |haystack|
    ensures l <= |needle| && x + l <= |haystack| && haystack[x..x + l] == needle[..l]
    ensures l < |needle| && x + l < |haystack| ==> haystack[x + l] != needle[l]
  {
    Extend(haystack, needle, x, 0)
  }

  ghost function Extend(haystack: seq<char>, needle: seq<char>, x: nat, k: nat): (l: nat)
    requires x + k <= |haystack| && k <= |needle| && haystack[x..x + k] == needle[..k]
    ensures k <= l <= |needle| && x + l <= |haystack| && haystack[x..x + l] == needle[..l]
    ensures l < |needle| && x + l < |haystack| ==> haystack[x + l] != needle[l]
    decreases |needle| - k
  {
    if k < |needle| && x + k < |haystack| && haystack[x + k] == needle[k] then
      assert haystack[x..x + k + 1] == haystack[x..x + k] + [haystack[x + k]];
      assert needle[..k + 1] == needle[..k] + [needle[k]];
      Extend(haystack, needle, x, k + 1)
    else k
  }

  lemma MatchLengthIs(haystack: seq<char>, needle: seq<char>, x: nat, l: nat)
    requires l <= |needle| && x + l <= |haystack| && haystack[x..x + l] == needle[..l]
    requires l < |needle| && x + l < |haystack| ==> haystack[x + l] != needle[l]
    ensures MatchLength(haystack, needle, x) == l
  {
    hide MatchLength;
    EqualPieces(haystack, needle, x, l);
    EqualPieces(haystack, needle, x, MatchLength(haystack, needle, x));
  }

  lemma EqualPieces(haystack: seq<char>, needle: seq<char>, x: nat, l: nat)
    requires l <= |needle| && x + l <= |haystack| && haystack[x..x + l] == needle[..l]
    ensures forall j :: 0 <= j < l ==> haystack[x + j] == needle[j]
  {
    forall j | 0 <= j < l
      ensures haystack[x + j] == needle[j]
    {
      assert haystack[x..x + l][j] == needle[..l][j];
    }
  }

  /** Where the attempt after the one at x begins. */
  ghost function NextAttempt(haystack: seq<char>, needle: seq<char>, x: nat): nat
    requires x <= |haystack|
  {
    var l := MatchLength(haystack, needle, x);
    if l == 0 then x + 1 else x + l
  }

  /** Attempts from x on, each failing, lead to one at k. */
  ghost predicate Attempted(haystack: seq<char>, needle: seq<char>, x: nat, k: nat)
    decreases |haystack| - x
  {
    x == k || (x < |haystack| && MatchLength(haystack, needle, x) < |needle| &&
               Attempted(haystack, needle, NextAttempt(haystack, needle, x), k))
  }

  lemma AttemptsGoUp(haystack: seq<char>, needle: seq<char>, x: nat, k: nat)
    requires Attempted(haystack, needle, x, k)
    ensures x <= k
    decreases |haystack| - x
  {
    if x != k {
      AttemptsGoUp(haystack, needle, NextAttempt(haystack, needle, x), k);
    }
  }

  /** Where a partial match fails, the search goes on as if from there. */
  lemma SearchRestarts(haystack: CString, needle: CString, h: nat, matched: nat)
    requires matched < |needle| && matched <= h < |haystack| && haystack[h] != needle[matched]
    ensures Search(haystack, needle, h, matched) == Search(haystack, needle, h, 0)
  {
  }

  /** An attempt begins at k, after attempts from x on that all fail, and succeeds. */
  ghost predicate FoundFrom(haystack: seq<char>, needle: seq<char>, x: nat, k: nat) {
    Attempted(haystack, needle, x, k) && OccursAt(haystack, needle, k)
  }

  lemma FailedAttempt(haystack: seq<char>, needle: seq<char>, x: nat, k: nat)
    requires x < |haystack| && MatchLength(haystack, needle, x) < |needle|
    ensures FoundFrom(haystack, needle, x, k) <==> FoundFrom(haystack, needle, NextAttempt(haystack, needle, x), k)
  {
    hide MatchLength;
    if OccursAt(haystack, needle, x) {
      MatchLengthIs(haystack, needle, x, |needle|);
      assert false;
    }
    if FoundFrom(haystack, needle, NextAttempt(haystack, needle, x), k) {
      AttemptsGoUp(haystack, needle, NextAttempt(haystack, needle, x), k);
    }
  }

  lemma CompleteAttempt(haystack: seq<char>, needle: seq<char>, x: nat, k: nat)
    requires x <= |haystack| && MatchLength(haystack, needle, x) == |needle|
    ensures FoundFrom(haystack, needle, x, k) <==> k == x
  {
    hide MatchLength;
  }

  /** An attempt that runs into the end of the haystack is the last that matters. */
  lemma CutShortAttempt(haystack: seq<char>, needle: seq<char>, x: nat, k: nat)
    requires x <= |haystack| && MatchLength(haystack, needle, x) == |haystack| - x < |needle|
    ensures !FoundFrom(haystack, needle, x, k)
  {
    if Attempted(haystack, needle, x, k) {
      AttemptsGoUp(haystack, needle, x, k);
    }
  }

  /** The search finds an occurrence exactly if an attempt begins at it, after attempts that all fail. */
  lemma {:induction false} SearchByAttempts(haystack: CString, needle: CString, h: nat, matched: nat, k: nat)
    requires matched < |needle| && MatchedBefore(haystack, needle, h, matched)
    ensures Search(haystack, needle, h, matched) == Some(k) <==> FoundFrom(haystack, needle, h - matched, k)
    decreases |haystack| - h, matched
  {
    hide MatchLength, FoundFrom, OccursAt;
    var x := h - matched;
    if h == |haystack| {
      MatchLengthIs(haystack, needle, x, matched);
      CutShortAttempt(haystack, needle, x, k);
    } else if haystack[h] == needle[matched] {
      MatchOneMore(haystack, needle, h, matched);
      if matched + 1 < |needle| {
        SearchByAttempts(haystack, needle, h + 1, matched + 1, k);
      } else {
        MatchLengthIs(haystack, needle, x, matched + 1);
        CompleteAttempt(haystack, needle, x, k);
      }
    } else {
      MatchLengthIs(haystack, needle, x, matched);
      FailedAttempt(haystack, needle, x, k);
      if matched > 0 {
        SearchRestarts(haystack, needle, h, matched);
        hide Search;
        SearchByAttempts(haystack, needle, h, 0, k);
      } else {
        SearchByAttempts(haystack, needle, h + 1, 0, k);
      }
    }
  }

  /** strstr on any needle: the occurrences that it finds are those at which an attempt begins. */
  lemma StrstrByAttempts(haystack: CString, needle: CString, k: nat)
    requires needle != []
    ensures StrstrSpec(haystack, needle) == Some(k) <==> FoundFrom(haystack, needle, 0, k)
  {
    assert MatchedBefore(haystack, needle, 0, 0);
    SearchByAttempts(haystack, needle, 0, 0, k);
  }

  method Strstr(haystack: CString, needle: CString) returns (result: Option<nat>)
    ensures result == StrstrSpec(haystack, needle)
    ensures result.Some? ==> OccursAt(haystack, needle, result.value)
    ensures NeverNeedsBackup(needle) ==> FirstOccurrence(haystack, needle, result)
  {
    StrstrSpecFinds(haystack, needle);
    hide NeverNeedsBackup, FirstOccurrence, OccursAt;
    if At(needle, 0) == '\0' {
      return Some(0);
    }
    var h, n := 0, 0;
    var found: Option<nat> := None;
    while At(haystack, h) != '\0'
      invariant h <= |haystack| && n < |needle| && n <= h
      invariant found == if n == 0 then None else Some(h - n)
      invariant StrstrSpec(haystack, needle) == Search(haystack, needle, h, n)
      decreases |haystack| - h
    {
      if found.Some? && At(haystack, h) != At(needle, n) {
        found := None;
        n := 0;
      }
      if At(haystack, h) == At(needle, n) {
        if found.None? {
          found := Some(h);
        }
        n := n + 1;
        if At(needle, n) == '\0' {
          return found;
        }
      }
      h := h + 1;
    }
    result := None;
  }

  /** Wherever the search stands, what it has matched ends there. */
  ghost predicate MatchedBefore(haystack: seq<char>, needle: seq<char>, h: nat, matched: nat) {
    matched <= |needle| && matched <= h <= |haystack| && haystack[h - matched..h] == needle[..matched]
  }

  lemma MatchOneMore(haystack: seq<char>, needle: seq<char>, h: nat, matched: nat)
    requires MatchedBefore(haystack, needle, h, matched) && h < |haystack| && matched < |needle|
    requires haystack[h] == needle[matched]
    ensures MatchedBefore(haystack, needle, h + 1, matched + 1)
  {
    assert haystack[h - matched..h + 1] == haystack[h - matched..h] + [haystack[h]];
    assert needle[..matched + 1] == needle[..matched] + [needle[matched]];
  }

  /** A result of strstr is an occurrence, for every haystack and needle. */
  lemma {:induction false} SearchSound(haystack: CString, needle: CString, h: nat, matched: nat)
    requires matched < |needle| && MatchedBefore(haystack, needle, h, matched)
    ensures var r := Search(haystack, needle, h, matched);
            r.Some? ==> OccursAt(haystack, needle, r.value) && r.value >= h - matched
    decreases |haystack| - h
  {
    if h < |haystack| {
      var m := if haystack[h] != needle[matched] then 0 else matched;
      assert MatchedBefore(haystack, needle, h, m);
      if haystack[h] == needle[m] {
        MatchOneMore(haystack, needle, h, m);
        if m + 1 < |needle| {
          SearchSound(haystack, needle, h + 1, m + 1);
        }
      } else {
        SearchSound(haystack, needle, h + 1, m);
      }
    }
  }

  /** When a partial match fails at h, no occurrence begins inside it, if the needle never needs backing up. */
  lemma NoneInside(haystack: seq<char>, needle: seq<char>, h: nat, matched: nat, x: nat)
    requires NeverNeedsBackup(needle)
    requires MatchedBefore(haystack, needle, h, matched) && h < |haystack| && matched < |needle|
    requires haystack[h] != needle[matched]
    requires h - matched <= x < h
    ensures !OccursAt(haystack, needle, x)
  {
    var k := h - x;
    assert haystack[x..h] == haystack[h - matched..h][matched - k..];
    assert needle[..matched][matched - k..] == needle[matched - k..matched];
    assert !NeedsBackup(needle, matched, k);
    if x + |needle| <= |haystack| {
      var w := haystack[x..x + |needle|];
      assert w[..k] == haystack[x..h] && w[k] == haystack[h];
    }
  }

  ghost predicate NoneBefore(haystack: seq<char>, needle: seq<char>, end: nat) {
    forall x: nat :: x < end ==> !OccursAt(haystack, needle, x)
  }

  lemma NoneBeforeRestart(haystack: seq<char>, needle: seq<char>, h: nat, matched: nat)
    requires NeverNeedsBackup(needle)
    requires MatchedBefore(haystack, needle, h, matched) && h < |haystack| && matched < |needle|
    requires NoneBefore(haystack, needle, h - matched)
    requires haystack[h] != needle[matched]
    ensures NoneBefore(haystack, needle, h) && (haystack[h] != needle[0] ==> NoneBefore(haystack, needle, h + 1))
  {
    forall x: nat | x < h
      ensures !OccursAt(haystack, needle, x)
    {
      if h - matched <= x {
        NoneInside(haystack, needle, h, matched, x);
      }
    }
    if h + |needle| <= |haystack| {
      assert haystack[h..h + |needle|][0] == haystack[h];
    }
  }

  lemma {:induction false} SearchFindsFirst(haystack: CString, needle: CString, h: nat, matched: nat)
    requires NeverNeedsBackup(needle)
    requires matched < |needle| && MatchedBefore(haystack, needle, h, matched)
    requires NoneBefore(haystack, needle, h - matched)
    ensures FirstOccurrence(haystack, needle, Search(haystack, needle, h, matched))
    decreases |haystack| - h
  {
    if h < |haystack| {
      if haystack[h] != needle[matched] {
        NoneBeforeRestart(haystack, needle, h, matched);
      }
      var m := if haystack[h] != needle[matched] then 0 else matched;
      assert MatchedBefore(haystack, needle, h, m);
      if haystack[h] == needle[m] {
        MatchOneMore(haystack, needle, h, m);
      }
      hide NeverNeedsBackup;
      if haystack[h] != needle[m] {
        SearchFindsFirst(haystack, needle, h + 1, 0);
      } else if m + 1 < |needle| {
        SearchFindsFirst(haystack, needle, h + 1, m + 1);
      }
    }
  }

  /** The haystack on which a needle that needs backing up is missed. */
  ghost function MissedHaystack(needle: CString, j: nat, k: nat): CString
    requires NeedsBackup(needle, j, k)
  {
    needle[..j - k] + needle
  }

  lemma {:induction false} SearchFollowsPrefix(haystack: CString, needle: CString, h: nat, j: nat)
    requires h <= j < |needle| && j <= |haystack|
    requires forall i :: h <= i < j ==> haystack[i] == needle[i]
    ensures Search(haystack, needle, h, h) == Search(haystack, needle, j, j)
    decreases j - h
  {
    if h < j {
      SearchFollowsPrefix(haystack, needle, h + 1, j);
    }
  }

  lemma MissedHaystackOverlap(needle: CString, j: nat, k: nat)
    requires NeedsBackup(needle, j, k)
    ensures var s := MissedHaystack(needle, j, k);
            && (forall i :: 0 <= i < j ==> s[i] == needle[i]) && s[j] == needle[k]
            && OccursAt(s, needle, j - k)
  {
    var s, d := MissedHaystack(needle, j, k), j - k;
    forall i | 0 <= i < j
      ensures s[i] == needle[i]
    {
      if i >= d {
        assert s[i] == needle[..k][i - d] == needle[d..j][i - d];
      }
    }
    assert s[d..d + |needle|] == needle;
  }

  lemma BackupMissed(needle: CString, j: nat, k: nat)
    requires NeedsBackup(needle, j, k)
    ensures var s := MissedHaystack(needle, j, k);
            OccursAt(s, needle, j - k) && !FirstOccurrence(s, needle, StrstrSpec(s, needle))
  {
    var s := MissedHaystack(needle, j, k);
    MissedHaystackOverlap(needle, j, k);
    SearchFollowsPrefix(s, needle, 0, j);
    assert MatchedBefore(s, needle, j, 0);
    if s[j] == needle[0] {
      MatchOneMore(s, needle, j, 0);
      SearchSound(s, needle, j + 1, 1);
    } else {
      SearchSound(s, needle, j + 1, 0);
    }
    assert StrstrSpec(s, needle) == None;
  }

  lemma StrstrSpecFinds(haystack: CString, needle: CString)
    ensures var r := StrstrSpec(haystack, needle);
            (r.Some? ==> OccursAt(haystack, needle, r.value)) &&
            (NeverNeedsBackup(needle) ==> FirstOccurrence(haystack, needle, r))
  {
    if needle == [] {
      assert OccursAt(haystack, needle, 0);
    } else {
      SearchSound(haystack, needle, 0, 0);
      if NeverNeedsBackup(needle) {
        SearchFindsFirst(haystack, needle, 0, 0);
      }
    }
  }

  /** strstr finds the first occurrence in every haystack exactly when its needle never needs backing up. */
  lemma StrstrExact(needle: CString)
    ensures NeverNeedsBackup(needle) <==>
            forall haystack: CString :: FirstOccurrence(haystack, needle, StrstrSpec(haystack, needle))
  {
    if NeverNeedsBackup(needle) {
      forall haystack: CString
        ensures FirstOccurrence(haystack, needle, StrstrSpec(haystack, needle))
      {
        StrstrSpecFinds(haystack, needle);
      }
    } else {
      var j, k :| NeedsBackup(needle, j, k);
      BackupMissed(needle, j, k);
    }
  }

  /** A needle whose first character does not recur never needs backing up. */
  lemma FirstCharDoesNotRecur(needle: seq<char>)
    requires forall i :: 0 < i < |needle| ==> needle[i] != needle[0]
    ensures NeverNeedsBackup(needle)
  {
    forall j: nat, k: nat
      ensures !NeedsBackup(needle, j, k)
    {
      if 0 < k < j < |needle| {
        assert needle[..k][0] != needle[j - k..j][0];
      }
    }
  }

  /** "aab" is missed in "aaab". */
  lemma AabMissed()
    ensures !FirstOccurrence("aaab", "aab", StrstrSpec("aaab", "aab"))
  {
    assert NeedsBackup("aab", 2, 1) by {
      assert "aab"[..1] == "a" == "aab"[1..2];
    }
    BackupMissed("aab", 2, 1);
    assert MissedHaystack("aab", 2, 1) == "aaab";
  }

  // ---------- strtok_r ----------

  /** The C string at `i` of memory `m` ends at index `n`. */
  ghost predicate EndsAt(m: seq<char>, i: nat, n: nat) {
    i <= n < |m| && m[n] == '\0' && forall k :: i <= k < n ==> m[k] != '\0'
  }

  /** Past the delimiters at i, but not past n. */
  function SkipDelims(t: seq<char>, i: nat, n: nat, delim: seq<char>): (k: nat)
    requires i <= n <= |t|
    ensures i <= k <= n
    ensures forall x :: i <= x < k ==> t[x] in delim
    ensures k < n ==> t[k] !in delim
    decreases n - i
  {
    if i < n && t[i] in delim then SkipDelims(t, i + 1, n, delim) else i
  }

  /** Up to the next delimiter from i, but not past n. */
  function TokenEnd(t: seq<char>, i: nat, n: nat, delim: seq<char>): (k: nat)
    requires i <= n <= |t|
    ensures i <= k <= n
    ensures forall x :: i <= x < k ==> t[x] !in delim
    ensures k < n ==> t[k] in delim
    decreases n - i
  {
    if i < n && t[i] !in delim then TokenEnd(t, i + 1, n, delim) else i
  }

  method IsIn(c: char, set_: CString) returns (found: bool)
    requires c != '\0'
    ensures found <==> c in set_
  {
    var a := 0;
    while At(set_, a) != '\0'
      invariant a <= |set_| && c !in set_[..a]
      decreases |set_| - a
    {
      if At(set_, a) == c {
        return true;
      }
      a := a + 1;
    }
    found := false;
  }

  method Strspn(m: array<char>, s: nat, accept: CString, ghost n: nat) returns (count: nat)
    requires EndsAt(m[..], s, n)
    ensures s + count == SkipDelims(m[..], s, n, accept)
  {
    count := 0;
    while m[s + count] != '\0'
      invariant s + count <= n
      invariant SkipDelims(m[..], s, n, accept) == SkipDelims(m[..], s + count, n, accept)
      decreases n - count
    {
      assert s + count < n;
      var accepted := IsIn(m[s + count], accept);
      if !accepted {
        return;
      }
      count := count + 1;
    }
  }

  method Strpbrk(m: array<char>, s: nat, accept: CString, ghost n: nat) returns (r: Option<nat>)
    requires EndsAt(m[..], s, n)
    ensures var e := TokenEnd(m[..], s, n, accept); r == if e < n then Some(e) else None
  {
    var i := s;
    while m[i] != '\0'
      invariant s <= i <= n
      invariant TokenEnd(m[..], s, n, accept) == TokenEnd(m[..], i, n, accept)
      decreases n - i
    {
      assert i < n;
      var accepted := IsIn(m[i], accept);
      if accepted {
        return Some(i);
      }
      i := i + 1;
    }
    r := None;
  }

  /** The search for a char that is known to be there, from s on. */
  method Rawmemchr(m: array<char>, s: nat, c: char, ghost n: nat) returns (r: nat)
    requires s <= n < m.Length && m[n] == c && forall k :: s <= k < n ==> m[k] != c
    ensures r == n
  {
    r := s;
    while m[r] != c
      invariant s <= r <= n
      decreases n - r
    {
      r := r + 1;
    }
  }

  /** `s` is None for the NULL of a continuing call. `n` is where the text to tokenize ends. */
  method StrtokR(m: array<char>, s: Option<nat>, delim: CString, saveptr: nat, ghost n: nat)
    returns (token: Option<nat>, save: nat)
    requires EndsAt(m[..], if s.Some? then s.value else saveptr, n)
    modifies m
    ensures var start := if s.Some? then s.value else saveptr;
            var a := SkipDelims(old(m[..]), start, n, delim);
            var b := TokenEnd(old(m[..]), a, n, delim);
            && token == (if a < n then Some(a) else None)
            && save == (if b < n then b + 1 else n)
            && m[..] == old(m[..])[b := '\0']
  {
    var i := if s.Some? then s.value else saveptr;
    var skipped := Strspn(m, i, delim, n);
    i := i + skipped;
    if m[i] == '\0' {
      assert m[..] == old(m[..])[n := '\0'];
      return None, i;
    }
    token := Some(i);
    var end := Strpbrk(m, i, delim, n);
    if end.None? {
      save := Rawmemchr(m, i, '\0', n);
      assert m[..] == old(m[..])[n := '\0'];
    } else {
      m[end.value] := '\0';
      save := end.value + 1;
    }
  }

  // ---------- All the tokens of a string ----------

  datatype Span = Span(from: nat, to: nat)

  /** A maximal run of non-delimiters in the text t[lo..n]. */
  ghost predicate MaximalRun(t: seq<char>, lo: nat, n: nat, delim: seq<char>, run: Span) {
    && lo <= run.from < run.to <= n <= |t|
    && (forall x :: run.from <= x < run.to ==> t[x] !in delim)
    && (run.from == lo || t[run.from - 1] in delim)
    && (run.to == n || t[run.to] in delim)
  }

  /** What repeated calls from i are to find. */
  ghost function Tokens(t: seq<char>, i: nat, n: nat, delim: seq<char>): seq<Span>
    requires i <= n <= |t|
    decreases n - i
  {
    var a := SkipDelims(t, i, n, delim);
    var b := TokenEnd(t, a, n, delim);
    if a == n then [] else [Span(a, b)] + Tokens(t, if b < n then b + 1 else n, n, delim)
  }

  /** The run that a call finds is the only one that begins before the next call's position. */
  lemma FirstRun(t: seq<char>, lo: nat, i: nat, n: nat, delim: seq<char>, run: Span)
    requires lo <= i <= n <= |t|
    requires i == lo || i == n || t[i - 1] in delim
    ensures var a := SkipDelims(t, i, n, delim);
            var b := TokenEnd(t, a, n, delim);
            && (a < n ==> MaximalRun(t, lo, n, delim, Span(a, b)))
            && (MaximalRun(t, lo, n, delim, run) && i <= run.from <= b ==> a < n && run == Span(a, b))
  {
    var a := SkipDelims(t, i, n, delim);
    var b := TokenEnd(t, a, n, delim);
    if MaximalRun(t, lo, n, delim, run) && i <= run.from <= b {
      assert t[run.from] !in delim;
      assert b < n ==> t[b] in delim;
    }
  }

  lemma {:induction false} TokensAreRuns(t: seq<char>, lo: nat, i: nat, n: nat, delim: seq<char>)
    requires lo <= i <= n <= |t|
    requires i == lo || i == n || t[i - 1] in delim
    ensures forall run :: run in Tokens(t, i, n, delim) ==> MaximalRun(t, lo, n, delim, run) && i <= run.from
    decreases n - i
  {
    var a := SkipDelims(t, i, n, delim);
    var b := TokenEnd(t, a, n, delim);
    if a < n {
      FirstRun(t, lo, i, n, delim, Span(a, b));
      TokensAreRuns(t, lo, if b < n then b + 1 else n, n, delim);
    }
  }

  lemma {:induction false} RunsAreTokens(t: seq<char>, lo: nat, i: nat, n: nat, delim: seq<char>, run: Span)
    requires lo <= i <= n <= |t|
    requires i == lo || i == n || t[i - 1] in delim
    requires MaximalRun(t, lo, n, delim, run) && i <= run.from
    ensures run in Tokens(t, i, n, delim)
    decreases n - i
  {
    var b := TokenEnd(t, SkipDelims(t, i, n, delim), n, delim);
    FirstRun(t, lo, i, n, delim, run);
    if b < run.from {
      RunsAreTokens(t, lo, b + 1, n, delim, run);
    }
  }

  /** Spans between i and n that do not touch, in order. */
  ghost predicate InOrder(ts: seq<Span>, i: nat, n: nat) {
    && (forall k :: 0 <= k < |ts| ==> i <= ts[k].from < ts[k].to <= n)
    && (forall k, l :: 0 <= k < l < |ts| ==> ts[k].to < ts[l].from)
  }

  lemma InOrderPush(span: Span, rest: seq<Span>, i: nat, next: nat, n: nat)
    requires InOrder(rest, next, n) && i <= span.from < span.to <= n
    requires span.to < next <= n || next == n
    ensures InOrder([span] + rest, i, n)
  {
    var ts := [span] + rest;
    assert forall k :: 1 <= k < |ts| ==> ts[k] == rest[k - 1];
    assert rest != [] ==> next <= rest[0].from < rest[0].to <= n;
  }

  lemma {:induction false} TokensInOrder(t: seq<char>, i: nat, n: nat, delim: seq<char>)
    requires i <= n <= |t|
    ensures InOrder(Tokens(t, i, n, delim), i, n)
    decreases n - i
  {
    hide SkipDelims, TokenEnd;
    var a := SkipDelims(t, i, n, delim);
    var b := TokenEnd(t, a, n, delim);
    if a < n {
      var next := if b < n then b + 1 else n;
      assert Tokens(t, i, n, delim) == [Span(a, b)] + Tokens(t, next, n, delim);
      hide Tokens, InOrder;
      TokensInOrder(t, next, n, delim);
      InOrderPush(Span(a, b), Tokens(t, next, n, delim), i, next, n);
    }
  }

  /** The tokens of a text are its maximal runs of non-delimiters, all of them, in order. */
  lemma TokensAreMaximalRuns(t: seq<char>, lo: nat, n: nat, delim: seq<char>)
    requires lo <= n <= |t|
    ensures var ts := Tokens(t, lo, n, delim);
            && (forall run :: run in ts <==> MaximalRun(t, lo, n, delim, run))
            && (forall k, l :: 0 <= k < l < |ts| ==> ts[k].to < ts[l].from)
  {
    TokensAreRuns(t, lo, lo, n, delim);
    TokensInOrder(t, lo, n, delim);
    forall run | MaximalRun(t, lo, n, delim, run)
      ensures run in Tokens(t, lo, n, delim)
    {
      RunsAreTokens(t, lo, lo, n, delim, run);
    }
  }

  /** Memory `m` with a NUL at the end of each span. */
  ghost function Cut(m: seq<char>, spans: seq<Span>): (r: seq<char>)
    requires forall k :: 0 <= k < |spans| ==> spans[k].to < |m|
    ensures |r| == |m|
  {
    if spans == [] then m
    else
      var last := |spans| - 1;
      Cut(m, spans[..last])[spans[last].to := '\0']
  }

  lemma CutPush(m: seq<char>, spans: seq<Span>, span: Span)
    requires (forall k :: 0 <= k < |spans| ==> spans[k].to < |m|) && span.to < |m|
    ensures Cut(m, spans + [span]) == Cut(m, spans)[span.to := '\0']
  {
    assert (spans + [span])[..|spans|] == spans;
  }

  lemma {:induction false} CutAt(m: seq<char>, spans: seq<Span>, x: nat)
    requires forall k :: 0 <= k < |spans| ==> spans[k].to < |m|
    requires x < |m|
    ensures Cut(m, spans)[x] == '\0' || Cut(m, spans)[x] == m[x]
    ensures (forall k :: 0 <= k < |spans| ==> spans[k].to != x) ==> Cut(m, spans)[x] == m[x]
    ensures forall k :: 0 <= k < |spans| && spans[k].to == x ==> Cut(m, spans)[x] == '\0'
  {
    if spans != [] {
      CutAt(m, spans[..|spans| - 1], x);
    }
  }

  /** In the cut memory, each token pointer designates its token's text, and only the ends of tokens have changed. */
  lemma CutTokens(m: seq<char>, lo: nat, n: nat, delim: seq<char>, k: nat)
    requires EndsAt(m, lo, n)
    requires var ts := Tokens(m, lo, n, delim); k < |ts| && forall j :: 0 <= j < |ts| ==> ts[j].to < |m|
    ensures var ts := Tokens(m, lo, n, delim);
            && EndsAt(Cut(m, ts), ts[k].from, ts[k].to)
            && Cut(m, ts)[ts[k].from..ts[k].to] == m[ts[k].from..ts[k].to]
  {
    hide Tokens, Cut;
    var ts := Tokens(m, lo, n, delim);
    TokensInOrder(m, lo, n, delim);
    CutAt(m, ts, ts[k].to);
    forall x: nat | ts[k].from <= x < ts[k].to
      ensures Cut(m, ts)[x] == m[x] != '\0'
    {
      CutAt(m, ts, x);
    }
  }

  /** The scans only look at the text from i to n. */
  lemma {:induction false} SkipAgrees(t: seq<char>, t': seq<char>, i: nat, n: nat, delim: seq<char>)
    requires i <= n <= |t| && n <= |t'|
    requires forall k :: i <= k < n ==> t'[k] == t[k]
    ensures SkipDelims(t', i, n, delim) == SkipDelims(t, i, n, delim)
    decreases n - i
  {
    if i < n {
      SkipAgrees(t, t', i + 1, n, delim);
    }
  }

  lemma {:induction false} TokenEndAgrees(t: seq<char>, t': seq<char>, i: nat, n: nat, delim: seq<char>)
    requires i <= n <= |t| && n <= |t'|
    requires forall k :: i <= k < n ==> t'[k] == t[k]
    ensures TokenEnd(t', i, n, delim) == TokenEnd(t, i, n, delim)
    decreases n - i
  {
    if i < n {
      TokenEndAgrees(t, t', i + 1, n, delim);
    }
  }

  /** Calls that have reached position pos have returned the first tokens, and cut memory at their ends. */
  ghost predicate Progress(was: seq<char>, now: seq<char>, s: nat, pos: nat, n: nat, delim: seq<char>, tokens: seq<nat>,
                           done: seq<Span>)
  {
    && s <= pos <= n < |was| == |now| && |tokens| == |done|
    && (forall k :: 0 <= k < |done| ==> done[k].to < |was| && tokens[k] == done[k].from)
    && done + Tokens(was, pos, n, delim) == Tokens(was, s, n, delim)
    && now == Cut(was, done)
    && EndsAt(now, pos, n)
    && forall k :: pos <= k < n ==> now[k] == was[k]
  }

  lemma ProgressBounds(was: seq<char>, now: seq<char>, s: nat, pos: nat, n: nat, delim: seq<char>, tokens: seq<nat>,
                       done: seq<Span>)
    requires Progress(was, now, s, pos, n, delim, tokens, done)
    ensures pos <= n < |was| == |now| && EndsAt(now, pos, n)
  {
  }

  /** A call that returns NULL. */
  lemma ProgressEnd(was: seq<char>, now: seq<char>, s: nat, pos: nat, n: nat, delim: seq<char>, tokens: seq<nat>,
                    done: seq<Span>)
    requires Progress(was, now, s, pos, n, delim, tokens, done)
    requires SkipDelims(now, pos, n, delim) == n
    ensures now[n := '\0'] == now == Cut(was, done) && done == Tokens(was, s, n, delim)
    ensures Progress(was, now, s, n, n, delim, tokens, done)
    ensures |tokens| == |done| && forall k :: 0 <= k < |done| ==> done[k].to < |was| && tokens[k] == done[k].from
  {
    SkipAgrees(was, now, pos, n, delim);
    assert Tokens(was, pos, n, delim) == [] == Tokens(was, n, n, delim);
  }

  lemma NextToken(was: seq<char>, now: seq<char>, pos: nat, n: nat, delim: seq<char>, a: nat, b: nat)
    requires pos <= n < |was| == |now| && forall k :: pos <= k < n ==> now[k] == was[k]
    requires a == SkipDelims(now, pos, n, delim) < n && b == TokenEnd(now, a, n, delim)
    ensures Tokens(was, pos, n, delim) == [Span(a, b)] + Tokens(was, if b < n then b + 1 else n, n, delim)
  {
    SkipAgrees(was, now, pos, n, delim);
    TokenEndAgrees(was, now, a, n, delim);
  }

  /** A call that returns a token. */
  lemma ProgressStep(was: seq<char>, now: seq<char>, s: nat, pos: nat, n: nat, delim: seq<char>, tokens: seq<nat>,
                     done: seq<Span>, a: nat, b: nat, next: nat)
    requires Progress(was, now, s, pos, n, delim, tokens, done)
    requires a == SkipDelims(now, pos, n, delim) < n
    requires b == TokenEnd(now, a, n, delim) && next == if b < n then b + 1 else n
    ensures Progress(was, now[b := '\0'], s, next, n, delim, tokens + [a], done + [Span(a, b)])
    ensures pos < next
  {
    hide Cut, Tokens;
    var rest := Tokens(was, next, n, delim);
    NextToken(was, now, pos, n, delim, a, b);
    assert done + ([Span(a, b)] + rest) == (done + [Span(a, b)]) + rest;
    CutPush(was, done, Span(a, b));
  }

  /** From a save pointer at the end of the text on, every call returns NULL and leaves all as it is. */
  method CallsAfterEnd(m: array<char>, delim: CString, end: nat, calls: nat) returns (results: seq<Option<nat>>)
    requires EndsAt(m[..], end, end)
    modifies m
    ensures results == seq(calls, _ => None) && m[..] == old(m[..])
  {
    var save := end;
    results := [];
    while |results| < calls
      invariant |results| <= calls && results == seq(|results|, _ => None)
      invariant save == end && m[..] == old(m[..])
    {
      var token;
      token, save := StrtokR(m, None, delim, save, end);
      assert m[..] == old(m[..]);
      results := results + [token];
    }
  }

  /** A caller's loop over strtok_r until it returns NULL, and any number of calls more. */
  method TokenizeAll(m: array<char>, s: nat, delim: CString, extra: nat, ghost n: nat)
    returns (tokens: seq<nat>, again: seq<Option<nat>>)
    requires EndsAt(m[..], s, n)
    modifies m
    ensures var ts := Tokens(old(m[..]), s, n, delim);
            && |tokens| == |ts| && (forall k :: 0 <= k < |ts| ==> ts[k].to < m.Length && tokens[k] == ts[k].from)
            && m[..] == Cut(old(m[..]), ts)
    ensures again == seq(extra, _ => None)
  {
    ghost var was := m[..];
    ghost var done: seq<Span>, pos := [], s;
    tokens := [];
    assert Progress(was, was, s, s, n, delim, tokens, done);
    hide Cut, Tokens, Progress;
    var arg, save, more := Some(s), 0, true;
    while more
      invariant pos == if arg.Some? then arg.value else save
      invariant Progress(was, m[..], s, pos, n, delim, tokens, done)
      invariant !more ==> pos == n && arg == None && save == n
      decreases n - pos, more
    {
      ghost var now := m[..];
      assert pos <= n < |now| && EndsAt(now, pos, n) by {
        ProgressBounds(was, now, s, pos, n, delim, tokens, done);
      }
      var token;
      token, save := StrtokR(m, arg, delim, save, n);
      arg := None;
      if token.None? {
        ProgressEnd(was, now, s, pos, n, delim, tokens, done);
        more := false;
        pos := n;
      } else {
        ghost var b := TokenEnd(now, token.value, n, delim);
        ProgressStep(was, now, s, pos, n, delim, tokens, done, token.value, b, save);
        tokens := tokens + [token.value];
        done := done + [Span(token.value, b)];
        pos := save;
      }
    }
    ProgressBounds(was, m[..], s, n, n, delim, tokens, done);
    ProgressEnd(was, m[..], s, n, n, delim, tokens, done);
    again := CallsAfterEnd(m, delim, save, extra);
  }
}
