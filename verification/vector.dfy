/**
  The growable array of cxx/include/vector: capacity by doubling byte sizes, and in-place shifts.
  `aborted` stands for the calls that print a message and abort.
 */
module Vectors {
  import opened Words

  const MIN_BYTES: nat := 64
  const MAX_BYTES: nat := 0x8000_0000_0000_0000

  // ---------- Byte sizes ----------

  lemma {:induction false} Pow2Grows(j: nat, k: nat)
    requires j < k
    ensures 2 * Pow2(j) <= Pow2(k)
    decreases k
  {
    if j + 1 < k {
      Pow2Grows(j, k - 1);
    }
  }

  /** The byte size that _reserve tries after `tries` doublings, as the 64-bit variable holds it. */
  function Tried(tries: nat): Word {
    if tries == 0 then MIN_BYTES else Wrap(Tried(tries - 1) * 2)
  }

  /** How many items a block has room for. */
  function Room(bytes: nat, itemSize: nat): nat
    requires itemSize > 0
  {
    bytes / itemSize
  }

  ghost predicate Fits(bytes: nat, itemSize: nat, n: nat)
    requires itemSize > 0
  {
    Room(bytes, itemSize) >= n
  }

  lemma FitsMeans(bytes: nat, itemSize: nat, n: nat)
    requires itemSize > 0
    ensures Fits(bytes, itemSize, n) <==> n * itemSize <= bytes
  {
    var q, r := bytes / itemSize, bytes % itemSize;
    assert bytes == itemSize * q + r;
    if q >= n {
      assert itemSize * q == itemSize * n + itemSize * (q - n);
      assert itemSize * (q - n) >= 0;
    } else {
      MultipleIsLarge(itemSize, n - q);
      assert itemSize * n == itemSize * q + itemSize * (n - q);
    }
  }

  lemma LargestPower()
    ensures MIN_BYTES * Pow2(57) == MAX_BYTES
  {
    SmallPowers();
    ShiftByEight(48);
    assert Pow2(57) == 2 * Pow2(56);
  }

  lemma {:induction false} TriedIsPower(tries: nat)
    ensures Tried(tries) == if tries <= 57 then MIN_BYTES * Pow2(tries) else 0
  {
    if tries == 0 {
      return;
    }
    TriedIsPower(tries - 1);
    assert tries <= 57 ==> Pow2(tries) == 2 * Pow2(tries - 1);
    LargestPower();
    if tries < 57 {
      Pow2Grows(tries, 57);
    }
    hide Pow2;
    assert tries == 58 ==> Wrap(2 * MAX_BYTES) == 0;
    if tries <= 57 {
      WrapSmall(MIN_BYTES * Pow2(tries));
    } else {
      WrapSmall(0);
    }
    hide Wrap;
  }

  /** The search for a byte size comes to an end exactly when the items fit in 2^63 bytes. */
  lemma ReserveTerminates(n: nat, itemSize: nat)
    requires n > 0 && itemSize > 0
    ensures (exists tries :: Fits(Tried(tries), itemSize, n)) <==> n * itemSize <= 0x8000_0000_0000_0000
  {
    LargestPower();
    TriedIsPower(57);
    FitsMeans(MAX_BYTES, itemSize, n);
    if tries: nat :| Fits(Tried(tries), itemSize, n) {
      TriedIsPower(tries);
      FitsMeans(Tried(tries), itemSize, n);
      if tries < 57 {
        Pow2Grows(tries, 57);
      }
    }
  }

  /** A block of 64 * 2^k bytes. */
  ghost predicate IsBlock(bytes: nat) {
    exists k: nat :: bytes == MIN_BYTES * Pow2(k)
  }

  /** Sixteen-byte items, 2^60 of them, are one doubling too many: the byte size wraps to 0 and the search never ends. */
  lemma SearchNeverEnds()
    ensures forall tries: nat :: !Fits(Tried(tries), 16, 0x1000_0000_0000_0000)
  {
    hide Fits, Tried;
    ReserveTerminates(0x1000_0000_0000_0000, 16);
  }

  /** The smallest block with room for n items. */
  ghost predicate LeastBlock(bytes: nat, itemSize: nat, n: nat)
    requires itemSize > 0
  {
    && IsBlock(bytes) && Fits(bytes, itemSize, n)
    && forall smaller: nat :: IsBlock(smaller) && Fits(smaller, itemSize, n) ==> bytes <= smaller
  }

  lemma NoBlockBetween(bytes: nat, smaller: nat)
    requires IsBlock(bytes) && IsBlock(smaller) && smaller < 2 * bytes
    ensures smaller <= bytes
  {
    var j: nat :| smaller == MIN_BYTES * Pow2(j);
    var k: nat :| bytes == MIN_BYTES * Pow2(k);
    if k < j {
      Pow2Grows(k, j);
    } else if j < k {
      Pow2Grows(j, k);
    }
  }

  /** A block that is smallest for n items is smallest for more, as long as they have room. */
  lemma LeastBlockStays(bytes: nat, itemSize: nat, n: nat, m: nat)
    requires itemSize > 0 && LeastBlock(bytes, itemSize, n) && n <= m && Fits(bytes, itemSize, m)
    ensures LeastBlock(bytes, itemSize, m)
  {
    hide IsBlock, Room;
  }

  /** A block that n items fill is full when it is replaced by the smallest with room for them. */
  lemma FilledBlock(block: nat, bytes: nat, itemSize: nat)
    requires itemSize > 0 && IsBlock(block) && LeastBlock(bytes, itemSize, Room(block, itemSize))
    ensures Room(bytes, itemSize) == Room(block, itemSize)
  {
    hide IsBlock;
    assert bytes <= block;
    RoomGrows(bytes, block, itemSize);
  }

  lemma RoomGrows(bytes: nat, larger: nat, itemSize: nat)
    requires itemSize > 0 && bytes <= larger
    ensures Room(bytes, itemSize) <= Room(larger, itemSize)
  {
    var q := Room(bytes, itemSize);
    FitsMeans(bytes, itemSize, q);
    FitsMeans(larger, itemSize, q);
  }

  lemma RoomDoubles(bytes: nat, larger: nat, itemSize: nat)
    requires itemSize > 0 && 2 * bytes <= larger
    ensures 2 * Room(bytes, itemSize) <= Room(larger, itemSize)
  {
    var q := Room(bytes, itemSize);
    FitsMeans(bytes, itemSize, q);
    FitsMeans(larger, itemSize, 2 * q);
    assert (2 * q) * itemSize == 2 * (q * itemSize);
  }

  /** A block with more room for items has at least twice as much. */
  lemma BlocksDouble(bytes: nat, larger: nat, itemSize: nat)
    requires itemSize > 0 && IsBlock(bytes) && IsBlock(larger)
    requires Room(bytes, itemSize) < Room(larger, itemSize)
    ensures 2 * Room(bytes, itemSize) <= Room(larger, itemSize)
  {
    var j: nat :| bytes == MIN_BYTES * Pow2(j);
    var k: nat :| larger == MIN_BYTES * Pow2(k);
    if k < j {
      Pow2Grows(k, j);
    }
    if larger <= bytes {
      RoomGrows(larger, bytes, itemSize);
    }
    Pow2Grows(j, k);
    RoomDoubles(bytes, larger, itemSize);
  }

  lemma FirstBlock()
    ensures 64 == MIN_BYTES * Pow2(0) && IsBlock(64)
    ensures forall smaller: nat :: IsBlock(smaller) ==> 64 <= smaller
  {
  }

  /** A block that is too small for items that fit in 2^63 bytes can be doubled. */
  lemma BlockTooSmall(bytes: nat, tries: nat, itemSize: nat, n: nat)
    requires itemSize > 0 && bytes == MIN_BYTES * Pow2(tries) && tries <= 57
    requires !Fits(bytes, itemSize, n) && n * itemSize <= MAX_BYTES
    ensures IsBlock(bytes) && IsBlock(2 * bytes) && 2 * bytes == MIN_BYTES * Pow2(tries + 1)
    ensures tries < 57 && 2 * bytes <= MAX_BYTES && bytes < n * itemSize
  {
    assert Pow2(tries + 1) == 2 * Pow2(tries);
    FitsMeans(bytes, itemSize, n);
    hide Fits;
    LargestPower();
    if tries < 57 {
      Pow2Grows(tries, 57);
    }
  }

  /** The search passes over no block. */
  lemma NextBlock(bytes: nat, itemSize: nat, n: nat)
    requires itemSize > 0 && IsBlock(bytes) && !Fits(bytes, itemSize, n)
    requires forall smaller: nat :: IsBlock(smaller) && Fits(smaller, itemSize, n) ==> bytes <= smaller
    ensures forall smaller: nat :: IsBlock(smaller) && Fits(smaller, itemSize, n) ==> 2 * bytes <= smaller
  {
    hide IsBlock, Fits;
    forall smaller: nat | IsBlock(smaller) && Fits(smaller, itemSize, n)
      ensures 2 * bytes <= smaller
    {
      if smaller < 2 * bytes {
        NoBlockBetween(bytes, smaller);
      }
    }
  }

  // ---------- The container ----------

  /** What lies in a new block from index i on. */
  ghost function LeftFrom<T>(leftover: nat -> T, i: nat, n: nat): (s: seq<T>)
    ensures |s| == n && forall k :: 0 <= k < n ==> s[k] == leftover(i + k)
  {
    seq(n, k requires 0 <= k => leftover(i + k))
  }

  /** What insert leaves: when it reallocates, only the items before the hole have been copied over. */
  ghost function Inserted<T>(v: seq<T>, capacity: nat, i: nat, xs: seq<T>, leftover: nat -> T): seq<T>
    requires i <= |v|
  {
    v[..i] + xs + if |v| + |xs| <= capacity then v[i..] else LeftFrom(leftover, i, |v| - i)
  }

  /**
    insert puts its items in and keeps the others exactly when there is room, or the new block happens to hold
    the items after the hole already.
   */
  lemma InsertExact<T>(v: seq<T>, capacity: nat, i: nat, xs: seq<T>, leftover: nat -> T)
    requires i <= |v|
    ensures Inserted(v, capacity, i, xs, leftover) == v[..i] + xs + v[i..] <==>
            |v| + |xs| <= capacity || forall k :: i <= k < |v| ==> v[k] == leftover(k)
  {
    var r, want := Inserted(v, capacity, i, xs, leftover), v[..i] + xs + v[i..];
    if |v| + |xs| > capacity {
      var left := LeftFrom(leftover, i, |v| - i);
      assert r[i + |xs|..] == left && want[i + |xs|..] == v[i..];
      if r == want {
        forall k | i <= k < |v|
          ensures v[k] == leftover(k)
        {
          assert v[i..][k - i] == left[k - i];
        }
      }
      if forall k :: i <= k < |v| ==> v[k] == leftover(k) {
        assert v[i..] == left;
      }
    }
  }

  class Vector<T> {
    const itemSize: nat  // sizeof(T)
    const blank: T       // T()
    const leftover: nat -> T  // what new T[n] leaves at each index: T() for a class, anything for a scalar type

    var data: array?<T>
    var maxItems: nat
    var nItems: nat

    ghost var bytes: nat  // byte size of the block that `data` points to
    ghost var moves: nat  // items moved to a new block so far

    ghost predicate Valid()
      reads this, data
    {
      && itemSize > 0
      && nItems <= maxItems
      && (data == null ==> maxItems == 0)
      && (data != null ==> data.Length == maxItems == Room(bytes, itemSize) && IsBlock(bytes))
    }

    ghost function Contents(): seq<T>
      requires Valid()
      reads this, data
    {
      if data == null then [] else data[..nItems]
    }

    function Repr(): set<object>
      reads this
    {
      if data == null then {} else {data}
    }

    constructor (itemSize: nat, blank: T, leftover: nat -> T)
      requires itemSize > 0
      ensures Valid() && Contents() == [] && moves == 0 && maxItems == 0 && data == null
      ensures this.itemSize == itemSize && this.blank == blank && this.leftover == leftover
    {
      this.itemSize, this.blank, this.leftover := itemSize, blank, leftover;
      data, maxItems, nItems, bytes, moves := null, 0, 0, 0, 0;
    }

    /** The doubling loop of _reserve. */
    method ChooseBytes(n: nat) returns (newBytes: Word)
      requires itemSize > 0 && n * itemSize <= MAX_BYTES
      ensures LeastBlock(newBytes, itemSize, n) && Room(newBytes, itemSize) >= n
      ensures newBytes == 64 || newBytes < 2 * (n * itemSize)
    {
      FirstBlock();
      hide IsBlock, Pow2, Room, Wrap;
      newBytes := MIN_BYTES;
      ghost var tries := 0;
      while Room(newBytes, itemSize) < n
        invariant tries <= 57 && newBytes == MIN_BYTES * Pow2(tries) && IsBlock(newBytes)
        invariant newBytes == MIN_BYTES || newBytes < 2 * (n * itemSize)
        invariant forall smaller: nat :: IsBlock(smaller) && Fits(smaller, itemSize, n) ==> newBytes <= smaller
        decreases 57 - tries
      {
        BlockTooSmall(newBytes, tries, itemSize, n);
        WrapSmall(newBytes * 2);
        NextBlock(newBytes, itemSize, n);
        newBytes := Wrap(newBytes * 2);
        tries := tries + 1;
      }
    }

    method Reserve(n: nat, copyOnly: nat)
      requires Valid() && copyOnly <= nItems && n * itemSize <= MAX_BYTES
      modifies this
      ensures n <= old(maxItems) ==> unchanged(this)
      ensures n > old(maxItems) ==>
                && data != null && fresh(data) && data.Length == maxItems >= n && nItems == old(nItems)
                && data[..copyOnly] == old(Contents())[..copyOnly]
                && (forall k :: copyOnly <= k < maxItems ==> data[k] == leftover(k))
                && moves == old(moves) + copyOnly
                && maxItems == Room(bytes, itemSize) && LeastBlock(bytes, itemSize, n)
                && (bytes == MIN_BYTES || bytes < 2 * (n * itemSize))
    {
      if n <= maxItems {
        return;
      }
      hide Room, IsBlock, LeastBlock;
      ghost var was := Contents();
      var newBytes := ChooseBytes(n);
      var newMaxItems := Room(newBytes, itemSize);
      var left := leftover;
      var newData := new T[newMaxItems](k requires 0 <= k => left(k));
      for i := 0 to copyOnly
        invariant unchanged(this)
        invariant forall k :: 0 <= k < i ==> newData[k] == was[k]
        invariant forall k :: i <= k < newMaxItems ==> newData[k] == leftover(k)
      {
        newData[i] := data[i];
      }
      data, maxItems := newData, newMaxItems;
      bytes, moves := newBytes, moves + copyOnly;
    }

    /** Appending costs a move of all items exactly when the block is full. */
    method PushBack(v: T)
      requires Valid() && (nItems + 1) * itemSize <= MAX_BYTES
      modifies this, Repr()
      ensures Valid() && fresh(Repr() - old(Repr()))
      ensures Contents() == old(Contents()) + [v] && nItems == old(nItems) + 1
      ensures if old(nItems) < old(maxItems) then moves == old(moves) && maxItems == old(maxItems) && bytes == old(bytes)
              else moves == old(moves) + old(nItems) && maxItems >= 2 * old(maxItems) && LeastBlock(bytes, itemSize, nItems)
      ensures data != null
    {
      hide IsBlock, Room;
      ghost var was := Contents();
      Reserve(nItems + 1, nItems);
      if old(data) != null && maxItems > old(maxItems) {
        BlocksDouble(old(bytes), bytes, itemSize);
      }
      data[nItems] := v;
      nItems := nItems + 1;
      assert data[..nItems] == was + [v];
    }

    method PopBack() returns (aborted: bool)
      requires Valid()
      modifies this, Repr()
      ensures Valid() && Repr() == old(Repr())
      ensures aborted <==> old(Contents()) == []
      ensures Contents() == if aborted then [] else old(Contents())[..|old(Contents())| - 1]
    {
      hide IsBlock, Room;
      if nItems == 0 {
        return true;
      }
      nItems := nItems - 1;
      data[nItems] := blank;
      aborted := false;
    }

    /** Removing an item shifts the later ones down by one. */
    method Erase(i: int) returns (aborted: bool)
      requires Valid()
      modifies this, Repr()
      ensures Valid() && Repr() == old(Repr())
      ensures aborted <==> !(0 <= i < |old(Contents())|)
      ensures Contents() == if aborted then old(Contents()) else old(Contents())[..i] + old(Contents())[i + 1..]
    {
      hide IsBlock, Room;
      if i < 0 || i >= nItems {
        return true;
      }
      aborted := false;
      ghost var was := Contents();
      data[i] := blank;
      var p := i;
      while p + 1 != nItems
        invariant i <= p < nItems && unchanged(this)
        invariant forall k :: 0 <= k < nItems && k != p ==> data[k] == was[if i <= k < p then k + 1 else k]
      {
        data[p] := data[p + 1];
        p := p + 1;
      }
      nItems := nItems - 1;
      assert data[..nItems] == was[..i] + was[i + 1..];
    }

    method Resize(n: nat)
      requires Valid() && n * itemSize <= MAX_BYTES
      modifies this, Repr()
      ensures Valid() && fresh(Repr() - old(Repr()))
      ensures Contents() == if n <= old(nItems) then old(Contents())[..n]
                            else old(Contents()) + seq(n - old(nItems), _ => blank)
    {
      hide IsBlock, Room;
      ghost var was := Contents();
      Reserve(n, nItems);
      ghost var d, m, c, b, mv := data, maxItems, nItems, bytes, moves;
      var i := nItems;
      while i < n
        invariant data == d && maxItems == m && nItems == c && bytes == b && moves == mv
        invariant c <= i && (c <= n ==> i <= n)
        invariant data != null ==> c <= m && data[..c] == was
        invariant data == null ==> n == 0
        invariant data != null ==> i <= m || n < c
        invariant forall k :: c <= k < i ==> data != null && k < m && data[k] == blank
      {
        data[i] := blank;
        i := i + 1;
      }
      nItems := n;
      assert data != null && n >= c ==> data[..n] == was + seq(n - c, _ => blank);
      assert data != null && n < c ==> data[..n] == was[..n];
    }

    /** The downward loop of _insert_hole: its unsigned index stays above i + n - 1 >= 0. */
    static method ShiftUp(block: array<T>, i: nat, end: nat, n: nat)
      requires i < end && 0 < n && end + n <= block.Length
      modifies block
      ensures block[..i] == old(block[..i])
      ensures block[i + n..end + n] == old(block[i..end])
    {
      ghost var was := block[..];
      var k := end + n - 1;
      while k >= i + n
        invariant i + n - 1 <= k <= end + n - 1
        invariant forall x :: 0 <= x <= k ==> block[x] == was[x]
        invariant forall x :: k < x < end + n ==> block[x] == was[x - n]
      {
        block[k] := block[k - n];
        k := k - 1;
      }
      assert block[i + n..end + n] == was[i..end];
    }

    /** The copy loop of insert. */
    static method Fill(block: array<T>, i: nat, xs: seq<T>)
      requires i + |xs| <= block.Length
      modifies block
      ensures block[..] == old(block[..])[..i] + xs + old(block[..])[i + |xs|..]
    {
      ghost var was := block[..];
      var k := 0;
      while k < |xs|
        invariant k <= |xs|
        invariant forall x :: 0 <= x < block.Length ==> block[x] == if i <= x < i + k then xs[x - i] else was[x]
      {
        block[i + k] := xs[k];
        k := k + 1;
      }
    }

    /** Makes room for n items at index i; the items of the hole are whatever was there. */
    method InsertHole(i: nat, n: nat)
      requires Valid() && i <= nItems && 0 < n && (nItems + n) * itemSize <= MAX_BYTES
      modifies this, Repr()
      ensures Valid() && fresh(Repr() - old(Repr())) && data != null
      ensures nItems == old(nItems) + n
      ensures data[..i] == old(Contents())[..i]
      ensures data[i + n..nItems] == if old(nItems) + n <= old(maxItems) then old(Contents())[i..]
                                     else LeftFrom(leftover, i, old(nItems) - i)
    {
      hide IsBlock, Room;
      ghost var was := Contents();
      ghost var tail := if nItems + n <= maxItems then was[i..] else LeftFrom(leftover, i, nItems - i);
      Reserve(nItems + n, i);
      assert data[..i] == was[..i] && data[i..nItems] == tail;
      if i < nItems {
        ShiftUp(data, i, nItems, n);
      }
      nItems := nItems + n;
    }

    /** The range insert; inserting one item is the range of one. `xs` lies outside this vector. */
    method Insert(i: int, xs: seq<T>) returns (aborted: bool, it: int)
      requires Valid() && (nItems + |xs|) * itemSize <= MAX_BYTES
      modifies this, Repr()
      ensures Valid() && fresh(Repr() - old(Repr()))
      ensures aborted <==> xs != [] && !(0 <= i <= |old(Contents())|)
      ensures Contents() == if aborted || xs == [] then old(Contents())
                            else Inserted(old(Contents()), old(maxItems), i, xs, leftover)
      ensures !aborted ==> it == i
    {
      hide IsBlock, Room;
      it := i;
      if |xs| <= 0 {
        return false, i;
      }
      if i < 0 || i > nItems {
        return true, i;
      }
      aborted := false;
      ghost var was, fits := Contents(), nItems + |xs| <= maxItems;
      InsertHole(i, |xs|);
      ghost var hole := data[..];
      Fill(data, i, xs);
      assert hole[..i] == was[..i];
      assert hole[i + |xs|..nItems] == if fits then was[i..] else LeftFrom(leftover, i, |was| - i);
      assert data[..nItems] == hole[..i] + xs + hole[i + |xs|..nItems];
    }

    /** Copy assignment; assigning a vector to itself changes nothing. */
    method Assign(v: Vector<T>)
      requires Valid() && v.Valid() && v.nItems * itemSize <= MAX_BYTES
      requires v == this || Repr() !! v.Repr()
      modifies this, Repr()
      ensures Valid() && fresh(Repr() - old(Repr()))
      ensures Contents() == old(v.Contents())
    {
      hide IsBlock, Room;
      ghost var was := v.Contents();
      Reserve(v.nItems, 0);
      nItems := v.nItems;
      ghost var d, m, c, b, mv := data, maxItems, nItems, bytes, moves;
      var i := 0;
      while i < v.nItems
        invariant data == d && maxItems == m && nItems == c && bytes == b && moves == mv
        invariant v.nItems == |was| && i <= |was| && v.Valid() && v.Contents() == was
        invariant i > 0 ==> data != null
        invariant data != null ==> data[..i] == was[..i]
      {
        data[i] := v.data[i];
        i := i + 1;
      }
    }
  }

  lemma FewerBytes(n: nat, m: nat, itemSize: nat)
    requires n <= m
    ensures n * itemSize <= m * itemSize
  {
    assert m * itemSize == n * itemSize + (m - n) * itemSize;
  }

  /** Any n pushes into an empty vector move fewer than 2n items to new blocks altogether, into the smallest block. */
  method PushAll<T>(itemSize: nat, blank: T, leftover: nat -> T, xs: seq<T>) returns (v: Vector<T>)
    requires itemSize > 0 && |xs| * itemSize <= MAX_BYTES
    ensures fresh(v) && fresh(v.Repr()) && v.Valid() && v.Contents() == xs
    ensures v.itemSize == itemSize && v.leftover == leftover
    ensures |xs| > 0 ==> v.moves < 2 * |xs|
    ensures |xs| > 0 ==> v.maxItems == Room(v.bytes, itemSize) && LeastBlock(v.bytes, itemSize, |xs|)
  {
    hide IsBlock, Room, LeastBlock;
    v := new Vector(itemSize, blank, leftover);
    var i := 0;
    while i < |xs|
      invariant fresh(v) && fresh(v.Repr()) && v.Valid() && v.itemSize == itemSize && v.leftover == leftover
      invariant i <= |xs| && v.Contents() == xs[..i] && v.nItems == i
      invariant v.moves <= v.maxItems && (i > 0 ==> v.moves < 2 * i) && (i == 0 ==> v.moves == v.maxItems == 0)
      invariant i > 0 ==> v.data != null && LeastBlock(v.bytes, itemSize, i)
    {
      FewerBytes(i + 1, |xs|, itemSize);
      ghost var room, bytes := i < v.maxItems, v.bytes;
      v.PushBack(xs[i]);
      if room && i > 0 {
        LeastBlockStays(bytes, itemSize, i, i + 1);
      }
      i := i + 1;
    }
  }

  /** Inserting at the front of a vector whose items fill its block loses all of them. */
  method InsertIntoFull<T>(itemSize: nat, blank: T, leftover: nat -> T, ghost block: nat, xs: seq<T>, y: T)
    returns (v: Vector<T>)
    requires itemSize > 0 && IsBlock(block) && |xs| == Room(block, itemSize) > 0
    requires (|xs| + 1) * itemSize <= MAX_BYTES
    ensures fresh(v) && v.Valid() && v.Contents() == [y] + LeftFrom(leftover, 0, |xs|)
  {
    FewerBytes(|xs|, |xs| + 1, itemSize);
    v := PushAll(itemSize, blank, leftover, xs);
    FilledBlock(block, v.bytes, itemSize);
    hide IsBlock, Room, LeastBlock;
    var _, _ := v.Insert(0, [y]);
  }
}
