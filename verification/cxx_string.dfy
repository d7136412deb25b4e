/** The heap string of cxx/include/string. `aborted` stands for the calls that print a message and abort. */
module CxxString {
  import opened Words

  /** Bytes of a block; none need no block. */
  ghost function Piece(block: array?<Char>, from: nat, n: nat): (p: seq<Char>)
    requires n > 0 ==> block != null && from + n <= block.Length
    reads block
    ensures |p| == n
  {
    if n == 0 then [] else block[from..from + n]
  }

  ghost function Overwritten(s: seq<Char>, at: nat, p: seq<Char>): (r: seq<Char>)
    requires at + |p| <= |s|
    ensures |r| == |s|
  {
    s[..at] + p + s[at + |p|..]
  }

  /** memcpy between two blocks. */
  method CopyIn(dst: array?<Char>, at: nat, src: array?<Char>, from: nat, n: nat)
    requires n > 0 ==> dst != null && src != null && dst != src && from + n <= src.Length
    requires dst != null ==> at + n <= dst.Length
    modifies dst
    ensures dst != null ==> dst[..] == Overwritten(old(dst[..]), at, old(Piece(src, from, n)))
  {
    ghost var p := Piece(src, from, n);
    var i := 0;
    while i < n
      invariant i <= n
      invariant n > 0 ==> src[from..from + n] == p
      invariant dst != null ==>
                  forall x :: 0 <= x < dst.Length ==> dst[x] == if at <= x < at + i then p[x - at] else old(dst[..])[x]
    {
      dst[at + i] := src[from + i];
      i := i + 1;
    }
  }

  /** memset */
  method Fill(dst: array?<Char>, at: nat, n: nat, value: Char)
    requires if n > 0 then dst != null && at + n <= dst.Length else dst != null ==> at <= dst.Length
    modifies dst
    ensures dst != null ==> dst[..] == Overwritten(old(dst[..]), at, seq(n, _ => value))
  {
    var i := 0;
    while i < n
      invariant i <= n
      invariant dst != null ==>
                  forall x :: 0 <= x < dst.Length ==> dst[x] == if at <= x < at + i then value else old(dst[..])[x]
    {
      dst[at + i] := value;
      i := i + 1;
    }
  }

  lemma TwoCopies(d: seq<Char>, a: seq<Char>, b: seq<Char>)
    requires |a| + |b| <= |d|
    ensures Overwritten(Overwritten(d, 0, a), |a|, b) == a + b + d[|a| + |b|..]
    ensures Overwritten(Overwritten(d, 0, a), |a|, b)[..|a| + |b|] == a + b
    ensures Overwritten(Overwritten(d, 0, a), |a|, b)[|a| + |b|..] == d[|a| + |b|..]
    ensures a == [] ==> Overwritten(d, 0, a) == d
    ensures b == [] ==> Overwritten(Overwritten(d, 0, a), |a|, b) == Overwritten(d, 0, a)
  {
    assert Overwritten(d, 0, a) == a + d[|a|..];
  }

  /** delete[]: the contract says nothing of what is in the block from then on. */
  method Release(block: array?<Char>)
    modifies block
  {
    if block != null {
      forall i | 0 <= i < block.Length {
        block[i] := 0;
      }
    }
  }

  function Min(a: nat, b: nat): (m: nat)
    ensures m <= a && m <= b && (m == a || m == b)
  {
    if a <= b then a else b
  }

  // ---------- The order of strings ----------

  /** Lexicographic order, by signed char, a proper prefix first. */
  ghost predicate LessAt(a: seq<Char>, b: seq<Char>, k: nat) {
    && k <= |a| && k <= |b| && a[..k] == b[..k]
    && k < |b| && (k == |a| || a[k] < b[k])
  }

  ghost predicate Less(a: seq<Char>, b: seq<Char>) {
    exists k: nat :: LessAt(a, b, k)
  }

  lemma LessIsStrict(a: seq<Char>, b: seq<Char>)
    ensures Less(a, b) ==> a != b && !Less(b, a)
  {
    if k: nat :| LessAt(a, b, k) {
      forall j: nat
        ensures !LessAt(b, a, j)
      {
        if j < k && k <= |a| && k <= |b| {
          assert a[..k][j] == b[..k][j];
        } else if k < j && j <= |a| && j <= |b| {
          assert a[..j][k] == a[k] && b[..j][k] == b[k];
        }
      }
    }
  }

  lemma LessIsTransitive(a: seq<Char>, b: seq<Char>, c: seq<Char>)
    requires Less(a, b) && Less(b, c)
    ensures Less(a, c)
  {
    var j: nat :| LessAt(a, b, j);
    var k: nat :| LessAt(b, c, k);
    var m := Min(j, k);
    assert a[..m] == a[..j][..m] == b[..j][..m];
    assert c[..m] == c[..k][..m] == b[..k][..m];
    assert j < k ==> b[..k][j] == c[..k][j];
    assert k < j ==> b[..j][k] == a[..j][k];
    assert LessAt(a, c, m);
  }

  /** The byte that a char is compared as in section 7.24.4 of ISO/IEC 9899:2011. */
  function Unsigned(c: Char): nat {
    if c < 0 then c + 256 else c
  }

  ghost predicate StandardLessAt(a: seq<Char>, b: seq<Char>, k: nat) {
    && k <= |a| && k <= |b| && a[..k] == b[..k]
    && k < |b| && (k == |a| || Unsigned(a[k]) < Unsigned(b[k]))
  }

  ghost predicate StandardLess(a: seq<Char>, b: seq<Char>) {
    exists k: nat :: StandardLessAt(a, b, k)
  }

  /** The strings first differ at k, in a char of each. */
  ghost predicate FirstDifference(a: seq<Char>, b: seq<Char>, k: nat) {
    k < |a| && k < |b| && a[..k] == b[..k] && a[k] != b[k]
  }

  lemma OrderedAtFirstDifference(a: seq<Char>, b: seq<Char>, k: nat)
    requires FirstDifference(a, b, k)
    ensures Less(a, b) <==> a[k] < b[k]
    ensures StandardLess(a, b) <==> Unsigned(a[k]) < Unsigned(b[k])
  {
    forall j: nat
      ensures LessAt(a, b, j) ==> j == k
      ensures StandardLessAt(a, b, j) ==> j == k
    {
      if j < k {
        assert a[..k][j] == b[..k][j];
      } else if k < j && j <= |a| && j <= |b| {
        assert a[..j][k] == a[k] && b[..j][k] == b[k];
      }
    }
    assert a[k] < b[k] ==> LessAt(a, b, k);
    assert Unsigned(a[k]) < Unsigned(b[k]) ==> StandardLessAt(a, b, k);
  }

  /** Where two strings first differ, comparing signed chars agrees with the standard exactly when the chars have the same sign. */
  lemma OrderIsStandard(a: seq<Char>, b: seq<Char>, k: nat)
    requires FirstDifference(a, b, k)
    ensures (Less(a, b) <==> StandardLess(a, b)) <==> (a[k] < 0 <==> b[k] < 0)
  {
    OrderedAtFirstDifference(a, b, k);
  }

  /** The byte 255 is compared as -1, so it comes before 1. */
  lemma HighByteComesFirst()
    ensures Less([-1], [1]) && !StandardLess([-1], [1])
  {
    OrderedAtFirstDifference([-1], [1], 0);
  }

  /** Strings of which one begins the other are ordered as the standard does. */
  lemma PrefixOrderIsStandard(a: seq<Char>, b: seq<Char>)
    requires a <= b || b <= a
    ensures Less(a, b) <==> StandardLess(a, b)
    ensures Less(a, b) <==> a < b
  {
    forall k: nat | k < |a| && k < |b|
      ensures a[k] == b[k]
    {
    }
    assert a < b ==> LessAt(a, b, |a|) && StandardLessAt(a, b, |a|);
  }

  // ---------- The container ----------

  class String {
    var size: nat
    var data: array?<Char>

    /** Empty strings have no block; all others end in a NUL that is not counted. */
    ghost predicate Valid()
      reads this, data
    {
      && (size == 0 <==> data == null)
      && (data != null ==> data.Length == size + 1 && data[size] == 0)
    }

    ghost function Contents(): seq<Char>
      requires Valid()
      reads this, data
    {
      if data == null then [] else data[..size]
    }

    function Repr(): set<object>
      reads this
    {
      if data == null then {} else {data}
    }

    static method NewData(size: nat) returns (data: array?<Char>)
      ensures size == 0 <==> data == null
      ensures data != null ==> fresh(data) && data.Length == size + 1 && data[size] == 0
    {
      if size == 0 {
        return null;
      }
      var block := new Char[size + 1];
      block[size] := 0;
      data := block;
    }

    constructor FromBytes(bytes: array?<Char>, from: nat, n: nat)
      requires n > 0 ==> bytes != null && from + n <= bytes.Length
      ensures Valid() && fresh(Repr())
      ensures Contents() == if n == 0 then [] else bytes[from..from + n]
    {
      var block := NewData(n);
      if n != 0 {
        CopyIn(block, 0, bytes, from, n);
      }
      size, data := n, block;
    }

    constructor Filled(n: nat, value: Char)
      ensures Valid() && Contents() == seq(n, _ => value) && fresh(Repr())
    {
      var block := NewData(n);
      if n != 0 {
        Fill(block, 0, n, value);
      }
      size, data := n, block;
    }

    method Clear()
      modifies this, Repr()
      ensures Valid() && Contents() == [] && Repr() == {}
    {
      Release(data);
      data := null;
      size := 0;
    }

    /** Copy assignment. Assigning a string to itself empties it: it has been cleared before its size is read. */
    method Assign(other: String)
      requires Valid() && other.Valid() && (other != this ==> Repr() !! other.Repr())
      modifies this, Repr()
      ensures Valid() && fresh(Repr())
      ensures Contents() == if other == this then [] else old(other.Contents())
    {
      Clear();
      size := other.size;
      data := NewData(size);
      if size != 0 {
        CopyIn(data, 0, other.data, 0, size);
      }
    }

    /** s cut or padded to n chars */
    static ghost function Resized(s: seq<Char>, n: nat, c: Char): (r: seq<Char>)
      ensures |r| == n
    {
      if n <= |s| then s[..n] else s + seq(n - |s|, _ => c)
    }

    /** The new block of resize. */
    static method Padded(data: array?<Char>, size: nat, n: nat, c: Char, ghost s: seq<Char>) returns (block: array?<Char>)
      requires Begins(data, s) && |s| == size
      ensures n == 0 <==> block == null
      ensures block != null ==> fresh(block) && block.Length == n + 1 && block[n] == 0 && block[..n] == Resized(s, n, c)
    {
      hide Overwritten, Piece, Min, Resized, Begins;
      block := NewData(n);
      var minPos := Min(n, size);
      ghost var kept, pad := s[..minPos], seq(n - minPos, _ => c);
      ghost var was, copied, done := [], [], [];
      if block != null {
        was := block[..];
        PaddedBytes(was, s, n, c, minPos);
        copied, done := Overwritten(was, 0, kept), Overwritten(Overwritten(was, 0, kept), minPos, pad);
      }
      PieceOf(data, s, 0, minPos);
      assert s[0..minPos] == kept;
      if minPos != 0 {
        CopyIn(block, 0, data, 0, minPos);
      }
      assert block != null ==> block[..] == copied;
      var numToPad := n - minPos;
      if numToPad != 0 {
        Fill(block, minPos, numToPad, c);
      }
      assert block != null ==> block[..] == done;
    }

    static lemma PaddedBytes(d: seq<Char>, s: seq<Char>, n: nat, c: Char, k: nat)
      requires |d| == n + 1 && k == Min(n, |s|)
      ensures var copied := Overwritten(d, 0, s[..k]);
              var done := Overwritten(copied, k, seq(n - k, _ => c));
              && (k == 0 ==> copied == d) && (k == n ==> done == copied)
              && done[..n] == Resized(s, n, c) && done[n] == d[n]
    {
      TwoCopies(d, s[..k], seq(n - k, _ => c));
    }

    method Resize(n: nat, c: Char)
      requires Valid()
      modifies this, Repr()
      ensures Valid() && fresh(Repr())
      ensures Contents() == if n <= |old(Contents())| then old(Contents())[..n]
                            else old(Contents()) + seq(n - |old(Contents())|, _ => c)
    {
      var block := Padded(data, size, n, c, Contents());
      Clear();
      data := block;
      size := n;
    }

    /** append, and += on a string that is not empty. */
    method Append(other: String)
      requires Valid() && other.Valid()
      requires if other == this then size == 0 else Repr() !! other.Repr()
      modifies this, Repr()
      ensures Valid() && fresh(Repr())
      ensures Contents() == old(Contents()) + old(other.Contents())
    {
      ghost var was, more := Contents(), other.Contents();
      var oldSize := size;
      Resize(size + other.size, 0);
      CopyIn(data, oldSize, other.data, 0, other.size);
      assert data != null ==> data[..size] == was + more;
    }

    /** A block that begins with s. */
    static ghost predicate Begins(block: array?<Char>, s: seq<Char>)
      reads block
    {
      s != [] ==> block != null && |s| <= block.Length && block[..|s|] == s
    }

    /** The three copies of replace: s with t in place of len chars at pos. The blocks may be one. */
    static method Splice(newData: array<Char>, data: array?<Char>, strData: array?<Char>, size: nat, strSize: nat,
                         pos: nat, len: nat, ghost s: seq<Char>, ghost t: seq<Char>)
      requires newData != data && newData != strData && Begins(data, s) && Begins(strData, t)
      requires |s| == size && |t| == strSize && pos + len <= size && size + strSize - len < newData.Length
      modifies newData
      ensures newData[..] == s[..pos] + t + s[pos + len..] + old(newData[..])[size + strSize - len..]
    {
      hide Overwritten, Begins, Piece;
      ghost var was := newData[..];
      var remaining := size - pos - len;
      PieceOf(data, s, 0, pos);
      PieceOf(strData, t, 0, strSize);
      PieceOf(data, s, pos + len, remaining);
      assert s[0..pos] == s[..pos] && t[0..strSize] == t && s[pos + len..pos + len + remaining] == s[pos + len..];
      CopyIn(newData, 0, data, 0, pos);
      CopyIn(newData, pos, strData, 0, strSize);
      CopyIn(newData, pos + strSize, data, pos + len, remaining);
      ThreeCopies(was, s[..pos], t, s[pos + len..]);
    }

    static lemma PieceOf(block: array?<Char>, s: seq<Char>, from: nat, n: nat)
      requires Begins(block, s) && from + n <= |s|
      ensures n > 0 ==> block != null && from + n <= block.Length
      ensures Piece(block, from, n) == s[from..from + n]
    {
    }

    static lemma ThreeCopies(d: seq<Char>, a: seq<Char>, b: seq<Char>, c: seq<Char>)
      requires |a| + |b| + |c| <= |d|
      ensures Overwritten(Overwritten(Overwritten(d, 0, a), |a|, b), |a| + |b|, c) == a + b + c + d[|a| + |b| + |c|..]
    {
      TwoCopies(d, a, b);
    }

    /** `str` may be this string itself: its bytes are read before the old block is released. */
    method Replace(pos: nat, length: nat, str: String) returns (aborted: bool)
      requires Valid() && str.Valid() && (str != this ==> Repr() !! str.Repr())
      modifies this, Repr()
      ensures Valid() && (!aborted ==> fresh(Repr()))
      ensures aborted <==> pos > |old(Contents())|
      ensures var s := old(Contents());
              Contents() == if aborted then s else s[..pos] + old(str.Contents()) + s[pos + Min(length, |s| - pos)..]
    {
      if pos > size {
        return true;
      }
      aborted := false;
      ghost var s, t := Contents(), str.Contents();
      var len := if length > size - pos then size - pos else length;
      assert len == Min(length, |s| - pos);
      assert Begins(data, s) && Begins(str.data, t);
      hide Min, Begins, Overwritten, Piece;
      var newSize := size + str.size - len;
      if newSize == 0 {
        assert s[..pos] + t + s[pos + len..] == [];
        Clear();
        return;
      }
      var newData := NewData(newSize);
      Splice(newData, data, str.data, size, str.size, pos, len, s, t);
      Release(data);
      data := newData;
      size := newSize;
    }

    method Substr(pos: nat, length: nat) returns (aborted: bool, s: String?)
      requires Valid()
      ensures aborted <==> pos > |Contents()|
      ensures !aborted ==> s != null && fresh(s) && s.Valid() &&
                           s.Contents() == Contents()[pos..pos + Min(length, |Contents()| - pos)]
    {
      if pos > size {
        return true, null;
      }
      var len := if length > size - pos then size - pos else length;
      aborted := false;
      assert Contents()[pos..pos + len] == if len == 0 then [] else data[pos..pos + len];
      s := new String.FromBytes(data, pos, len);
    }

    /** memcmp on the common length, then the sizes. */
    method Compare(other: String) returns (r: int)
      requires Valid() && other.Valid()
      ensures r < 0 <==> Less(Contents(), other.Contents())
      ensures r > 0 <==> Less(other.Contents(), Contents())
      ensures r == 0 <==> Contents() == other.Contents()
    {
      ghost var a, b := Contents(), other.Contents();
      var min := Min(size, other.size);
      var i := 0;
      while i < min
        invariant i <= min && a[..i] == b[..i]
      {
        if data[i] != other.data[i] {
          if a[i] < b[i] {
            assert LessAt(a, b, i);
          } else {
            assert LessAt(b, a, i);
          }
          LessIsStrict(a, b);
          LessIsStrict(b, a);
          return data[i] as int - other.data[i] as int;
        }
        i := i + 1;
      }
      assert size < other.size ==> LessAt(a, b, i);
      assert other.size < size ==> LessAt(b, a, i);
      LessIsStrict(a, b);
      LessIsStrict(b, a);
      if size < other.size {
        return -1;
      }
      if size > other.size {
        return 1;
      }
      r := 0;
    }
  }

  /** operator+ */
  method Concatenate(s1: String, s2: String) returns (result: String)
    requires s1.Valid() && s2.Valid()
    ensures fresh(result) && result.Valid() && result.Contents() == s1.Contents() + s2.Contents()
  {
    result := new String.Filled(s1.size + s2.size, 0);
    ghost var was := if result.data == null then [] else result.data[..];
    if result.data != null {
      TwoCopies(was, s1.Contents(), s2.Contents());
    }
    assert Piece(s1.data, 0, s1.size) == s1.Contents() && Piece(s2.data, 0, s2.size) == s2.Contents();
    hide Overwritten, Piece;
    CopyIn(result.data, 0, s1.data, 0, s1.size);
    CopyIn(result.data, s1.size, s2.data, 0, s2.size);
  }
}
