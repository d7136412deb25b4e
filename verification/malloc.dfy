/**
  The allocator layer of c/malloc.c: 16-byte aligned blocks with a hidden two-word header, carved out of
  the raw blocks of an underlying runtime. Pointers are addresses into one flat memory of bytes; NULL is 0.
 */
module Malloc {
  import opened Words
  import CStrings

  type Byte = x: int | 0 <= x < 256

  const ALIGNMENT: nat := 16
  const HEADER: nat := 16  // sizeof(struct malloc_block)

  /** What a raw block is larger than the request. */
  const OVERHEAD: nat := 31

  // ---------- Words in memory ----------

  /** The low n bytes of a number, least significant first. */
  function Bytes(v: nat, n: nat): (b: seq<Byte>)
    ensures |b| == n
  {
    if n == 0 then [] else [v % 256] + Bytes(v / 256, n - 1)
  }

  function Number(b: seq<Byte>): nat {
    if b == [] then 0 else b[0] + 256 * Number(b[1..])
  }

  lemma {:induction false} NumberOfBytes(v: nat, n: nat)
    requires v < Pow2(8 * n)
    ensures Number(Bytes(v, n)) == v
  {
    if n > 0 {
      ShiftByEight(8 * n - 8);
      NumberOfBytes(v / 256, n - 1);
      assert Bytes(v, n)[1..] == Bytes(v / 256, n - 1);
    }
  }

  lemma WordRoundTrip(v: Word)
    ensures Number(Bytes(v, 8)) == v
  {
    SmallPowers();
    NumberOfBytes(v, 8);
  }

  // ---------- Address arithmetic ----------

  function PadForAlignment(size: int): int {
    size + ALIGNMENT - 1
  }

  function AlignAfter(mem: nat, reserved: nat): nat {
    And(PadForAlignment(mem + reserved), WORD - ALIGNMENT)
  }

  /** The first multiple of 16 at or after the reserved space. */
  lemma AlignAfterIsFirst(mem: nat, reserved: nat)
    requires PadForAlignment(mem + reserved) < WORD
    ensures var p := AlignAfter(mem, reserved);
            p % 16 == 0 && mem + reserved <= p < mem + reserved + 16
  {
    hide And, Pow2, Rem;
    var x := PadForAlignment(mem + reserved);
    SmallPowers();
    MaskKeepsRem(x, 64, 4);
    RemSelf(x, WORD);
    RemCleared(x, ALIGNMENT);
  }

  /** The size that malloc asks of the runtime. */
  function RawSize(size: Word): Word {
    Wrap(Wrap(PadForAlignment(size)) + HEADER)
  }

  /** The raw block holds header, padding and payload exactly when the sum does not wrap. */
  lemma RawSizeSuffices(size: Word)
    ensures 16 + 15 + size <= RawSize(size) <==> size + 31 < WORD
    ensures size + OVERHEAD < WORD ==> RawSize(size) == size + 31 == size + OVERHEAD
  {
  }

  /** For the largest size the runtime is asked for 30 bytes. */
  lemma LargestRequestWraps()
    ensures RawSize(SIZE_MAX) == 30
  {
    RawSizeSuffices(SIZE_MAX);
  }

  /** Dividing the wrapped product back finds every overflow. */
  lemma ProductCheck(num: Word, size: Word)
    requires size > 0
    ensures num == Wrap(num * size) / size <==> num * size < WORD
  {
    var len := Wrap(num * size);
    if num * size < WORD {
      WrapSmall(num * size);
      ModUnique(len, size, num, 0);
    } else {
      assert len < num * size;
      assert size * (len / size) <= len;
    }
  }

  // ---------- The heap ----------

  /** A live block: the raw block it lies in, and the payload size in its header. */
  datatype Block = Block(raw: nat, size: nat)

  /**
    `ram` is memory; `raws` maps each raw block that the runtime has handed out, and not got back, to its
    size; `live` maps each payload pointer that a caller may use to its block.
   */
  datatype Heap = Heap(ram: seq<Byte>, raws: map<nat, nat>, live: map<nat, Block>)

  ghost predicate Disjoint(a: nat, m: nat, b: nat, n: nat) {
    a + m <= b || b + n <= a
  }

  /** What the runtime promises of the raw blocks outstanding. */
  ghost predicate RawsApart(h: Heap) {
    && |h.ram| <= WORD
    && (forall r :: r in h.raws ==> 0 < r && r + h.raws[r] <= |h.ram|)
    && (forall r, s :: r in h.raws && s in h.raws && r != s ==> Disjoint(r, h.raws[r], s, h.raws[s]))
  }

  ghost predicate HeaderAt(ram: seq<Byte>, p: nat, b: Block)
    requires HEADER <= p <= |ram|
  {
    ram[p - 16..p - 8] == Bytes(b.raw, 8) && ram[p - 8..p] == Bytes(b.size, 8)
  }

  /** A live block is aligned, lies with its header in its own raw block, and the header describes it. */
  ghost predicate WellPlaced(h: Heap, p: nat, b: Block) {
    && b.raw in h.raws && h.raws[b.raw] == b.size + OVERHEAD
    && 0 < b.size < WORD && b.raw < WORD
    && p % ALIGNMENT == 0
    && b.raw + HEADER <= p < b.raw + HEADER + ALIGNMENT
    && p <= |h.ram|
    && HeaderAt(h.ram, p, b)
  }

  ghost predicate LivePlaced(h: Heap) {
    && (forall p :: p in h.live ==> WellPlaced(h, p, h.live[p]))
    && (forall p, q :: p in h.live && q in h.live && p != q ==> h.live[p].raw != h.live[q].raw)
  }

  /** Nothing leaks: each raw block not given back belongs to a live block. */
  ghost predicate RawsOwned(h: Heap) {
    forall r :: r in h.raws ==> exists p :: p in h.live && h.live[p].raw == r
  }

  ghost predicate Inv(h: Heap) {
    RawsApart(h) && LivePlaced(h) && RawsOwned(h)
  }

  // ---------- What each call does ----------

  ghost predicate SameOutside(before: seq<Byte>, after: seq<Byte>, from: nat, to: nat) {
    |before| == |after| && forall a :: 0 <= a < |before| && !(from <= a < to) ==> after[a] == before[a]
  }

  /** The runtime answers a request with NULL, or with n bytes of memory apart from the blocks outstanding. */
  ghost predicate MayAnswer(h: Heap, answer: nat, n: nat) {
    answer == 0 ||
    (answer + n <= |h.ram| && answer !in h.raws && forall r :: r in h.raws ==> Disjoint(r, h.raws[r], answer, n))
  }

  ghost predicate MallocDone(h: Heap, size: Word, answer: nat, h': Heap, p: nat) {
    if size == 0 || answer == 0 then
      p == 0 && h' == h
    else
      && p % ALIGNMENT == 0 && answer + HEADER <= p < answer + HEADER + ALIGNMENT
      && p !in h.live && p <= |h.ram|
      && SameOutside(h.ram, h'.ram, p - HEADER, p) && HeaderAt(h'.ram, p, Block(answer, size))
      && h'.raws == h.raws[answer := size + OVERHEAD]
      && h'.live == h.live[p := Block(answer, size)]
  }

  /** The pointer that free finds in the header and returns to the runtime. */
  ghost function ReturnedPointer(h: Heap, p: nat): nat
    requires HEADER <= p <= |h.ram|
  {
    Number(h.ram[p - 16..p - 8])
  }

  ghost predicate FreeDone(h: Heap, p: nat, h': Heap) {
    if p == 0 then h' == h
    else
      && HEADER <= p <= |h.ram|
      && h' == h.(raws := h.raws - {ReturnedPointer(h, p)}, live := h.live - {p})
  }

  /** A grown block takes the old payload along; the old block is freed, also when there is no room for the new one. */
  ghost predicate ReallocDone(h: Heap, p: nat, size: Word, answer: nat, h': Heap, r: nat)
    requires p != 0 ==> p in h.live
  {
    if p == 0 then MallocDone(h, size, answer, h', r)
    else if size == 0 then FreeDone(h, p, h') && r == 0
    else if size <= h.live[p].size then h' == h && r == p
    else if answer == 0 then FreeDone(h, p, h') && r == 0
    else
      var used := h.live[p].size;
      && r % ALIGNMENT == 0 && answer + HEADER <= r < answer + HEADER + ALIGNMENT
      && r !in h.live && r + used <= |h.ram| && HEADER <= p && p + used <= |h.ram|
      && SameOutside(h.ram, h'.ram, r - HEADER, r + used) && HeaderAt(h'.ram, r, Block(answer, size))
      && h'.ram[r..r + used] == h.ram[p..p + used]
      && h'.raws == h.raws[answer := size + OVERHEAD] - {ReturnedPointer(h, p)}
      && h'.live == h.live[r := Block(answer, size)] - {p}
  }

  /** malloc of 0 bytes is NULL; other blocks lie at a multiple of 16, behind a raw pointer and a size, 8 bytes each. */
  lemma MallocLayout(h: Heap, size: Word, answer: Word, h': Heap, p: nat)
    requires MallocDone(h, size, answer, h', p)
    ensures if size == 0 || answer == 0 then p == 0 && h' == h
            else
              && p % 16 == 0 && answer + 16 <= p < answer + 32 && p <= |h'.ram|
              && Number(h'.ram[p - 16..p - 8]) == answer && Number(h'.ram[p - 8..p]) == size
              && h'.raws == h.raws[answer := size + 31] && h'.live == h.live[p := Block(answer, size)]
  {
    WordRoundTrip(answer);
    WordRoundTrip(size);
  }

  /** free gives back the raw block of a live pointer, and ends the life of that block alone; NULL is ignored. */
  lemma FreeCases(h: Heap, p: nat, h': Heap)
    requires LivePlaced(h) && (p == 0 || p in h.live) && FreeDone(h, p, h')
    ensures h' == if p == 0 then h else h.(raws := h.raws - {h.live[p].raw}, live := h.live - {p})
  {
    if p != 0 {
      ReturnedPointerIsRaw(h, p);
    }
  }

  /**
    realloc of a live block: to size 0 it frees, and returns NULL; it leaves the block where it is exactly when
    that is large enough; otherwise it frees it, whether there is a new block or not.
   */
  lemma ReallocCases(h: Heap, p: nat, size: Word, answer: nat, h': Heap, r: nat)
    requires LivePlaced(h) && p in h.live && p != 0
    requires ReallocDone(h, p, size, answer, h', r)
    ensures r == p <==> 0 < size <= h.live[p].size
    ensures r == p ==> h' == h
    ensures r == 0 <==> size == 0 || (h.live[p].size < size && answer == 0)
    ensures r == 0 ==> h' == h.(raws := h.raws - {h.live[p].raw}, live := h.live - {p})
    ensures r != 0 && r != p ==>
              && r % 16 == 0 && answer + 16 <= r < answer + 32 && r !in h.live
              && h'.raws == h.raws[answer := size + 31] - {h.live[p].raw}
              && h'.live == h.live[r := Block(answer, size)] - {p}
  {
    ReturnedPointerIsRaw(h, p);
    hide HeaderAt, SameOutside, ReturnedPointer, LivePlaced;
  }

  // ---------- Runs ----------

  datatype Op =
    | Malloc(size: Word, answer: nat, result: nat)
    | Free(p: nat)
    | Realloc(p: nat, size: Word, answer: nat, result: nat)
    | Write(p: nat, offset: nat, value: Byte)  // a caller writes inside a payload

  /**
    Callers pass only pointers they hold. The runtime gives no block, or one of size + 31 bytes; RawSizeSuffices
    says when that is what it is asked for.
   */
  ghost predicate Legal(h: Heap, op: Op) {
    match op
    case Malloc(size, answer, _) => MayAnswer(h, answer, size + OVERHEAD)
    case Free(p) => p == 0 || p in h.live
    case Realloc(p, size, answer, _) => (p == 0 || p in h.live) && MayAnswer(h, answer, size + OVERHEAD)
    case Write(p, offset, _) => p in h.live && offset < h.live[p].size && p + offset < |h.ram|
  }

  ghost predicate Step(h: Heap, op: Op, h': Heap)
    requires Legal(h, op)
  {
    match op
    case Malloc(size, answer, r) => MallocDone(h, size, answer, h', r)
    case Free(p) => FreeDone(h, p, h')
    case Realloc(p, size, answer, r) => ReallocDone(h, p, size, answer, h', r)
    case Write(p, offset, v) => h' == h.(ram := h.ram[p + offset := v])
  }

  /** A header outside the bytes that change stays. */
  lemma HeaderStays(before: seq<Byte>, after: seq<Byte>, from: nat, to: nat, p: nat, b: Block)
    requires HEADER <= p <= |before| && HeaderAt(before, p, b)
    requires SameOutside(before, after, from, to) && (p <= from || to <= p - HEADER)
    ensures HeaderAt(after, p, b)
  {
    assert after[p - 16..p - 8] == before[p - 16..p - 8];
    assert after[p - 8..p] == before[p - 8..p];
  }

  /** Adding a block in fresh raw memory, with changes to memory only there. */
  ghost predicate BlockAdded(h: Heap, h': Heap, p: nat, b: Block, to: nat) {
    && b.raw != 0 && b.raw !in h.raws && b.raw + b.size + OVERHEAD <= |h.ram| == |h'.ram|
    && (forall r :: r in h.raws ==> Disjoint(r, h.raws[r], b.raw, b.size + OVERHEAD))
    && 0 < b.size && b.size + OVERHEAD < WORD
    && p % ALIGNMENT == 0 && b.raw + HEADER <= p < b.raw + HEADER + ALIGNMENT
    && p <= to <= p + b.size
    && SameOutside(h.ram, h'.ram, p - HEADER, to) && HeaderAt(h'.ram, p, b)
    && h'.raws == h.raws[b.raw := b.size + OVERHEAD]
    && h'.live == h.live[p := b]
  }

  /** The pointer to a block in fresh raw memory is new. */
  lemma AddedPointerIsNew(h: Heap, raw: nat, size: nat, p: nat)
    requires LivePlaced(h)
    requires forall r :: r in h.raws ==> Disjoint(r, h.raws[r], raw, size + OVERHEAD)
    requires raw + HEADER <= p < raw + HEADER + ALIGNMENT
    ensures p !in h.live
  {
    forall q | q in h.live
      ensures q != p
    {
      assert WellPlaced(h, q, h.live[q]);
    }
  }

  lemma AddedRawsApart(h: Heap, h': Heap, p: nat, b: Block, to: nat)
    requires RawsApart(h) && BlockAdded(h, h', p, b, to)
    ensures RawsApart(h')
  {
  }

  lemma AddedStaysPlaced(h: Heap, h': Heap, p: nat, b: Block, to: nat, q: nat)
    requires BlockAdded(h, h', p, b, to) && q in h.live && WellPlaced(h, q, h.live[q])
    ensures q != p && WellPlaced(h', q, h.live[q]) && h.live[q].raw != b.raw
  {
    hide HeaderAt, SameOutside;
    HeaderStays(h.ram, h'.ram, p - HEADER, to, q, h.live[q]);
  }

  lemma AddedLivePlaced(h: Heap, h': Heap, p: nat, b: Block, to: nat)
    requires RawsApart(h) && LivePlaced(h) && BlockAdded(h, h', p, b, to)
    ensures LivePlaced(h')
  {
    assert |h.ram| <= WORD;
    hide RawsApart;
    forall q | q in h.live
      ensures q != p && WellPlaced(h', q, h.live[q]) && h.live[q].raw != b.raw
    {
      assert WellPlaced(h, q, h.live[q]);
      hide LivePlaced;
      AddedStaysPlaced(h, h', p, b, to, q);
    }
    assert WellPlaced(h', p, b);
    hide WellPlaced, SameOutside;
  }

  lemma AddedRawsOwned(h: Heap, h': Heap, p: nat, b: Block, to: nat)
    requires LivePlaced(h) && RawsOwned(h) && BlockAdded(h, h', p, b, to)
    ensures RawsOwned(h')
  {
    AddedPointerIsNew(h, b.raw, b.size, p);
    hide LivePlaced, HeaderAt, SameOutside;
    forall r | r in h'.raws
      ensures exists q :: q in h'.live && h'.live[q].raw == r
    {
      if r == b.raw {
        assert h'.live[p].raw == r;
      } else {
        var q :| q in h.live && h.live[q].raw == r;
        assert h'.live[q].raw == r;
      }
    }
  }

  lemma AddedKeepsInv(h: Heap, h': Heap, p: nat, b: Block, to: nat)
    requires Inv(h) && BlockAdded(h, h', p, b, to)
    ensures Inv(h')
  {
    hide RawsApart, LivePlaced, RawsOwned, BlockAdded;
    AddedRawsApart(h, h', p, b, to);
    AddedLivePlaced(h, h', p, b, to);
    AddedRawsOwned(h, h', p, b, to);
  }

  /** What free returns to the runtime is the raw block of the pointer freed. */
  lemma ReturnedPointerIsRaw(h: Heap, p: nat)
    requires LivePlaced(h) && p in h.live
    ensures HEADER <= p <= |h.ram| && ReturnedPointer(h, p) == h.live[p].raw && h.live[p].raw in h.raws
    ensures Number(h.ram[p - 8..p]) == h.live[p].size
  {
    assert WellPlaced(h, p, h.live[p]);
    WordRoundTrip(h.live[p].raw);
    WordRoundTrip(h.live[p].size);
  }

  lemma FreedLivePlaced(h: Heap, p: nat, h': Heap)
    requires LivePlaced(h) && p in h.live
    requires h' == h.(raws := h.raws - {h.live[p].raw}, live := h.live - {p})
    ensures LivePlaced(h')
  {
    forall q | q in h'.live
      ensures WellPlaced(h', q, h'.live[q])
    {
      assert WellPlaced(h, q, h.live[q]);
    }
  }

  lemma FreedRawsOwned(h: Heap, p: nat, h': Heap)
    requires RawsOwned(h) && p in h.live
    requires h' == h.(raws := h.raws - {h.live[p].raw}, live := h.live - {p})
    ensures RawsOwned(h')
  {
    forall r | r in h'.raws
      ensures exists q :: q in h'.live && h'.live[q].raw == r
    {
      var q :| q in h.live && h.live[q].raw == r;
      assert h'.live[q].raw == r;
    }
  }

  lemma FreeKeepsInv(h: Heap, p: nat, h': Heap)
    requires Inv(h) && p in h.live && p != 0
    requires FreeDone(h, p, h')
    ensures Inv(h')
  {
    hide LivePlaced, RawsOwned;
    ReturnedPointerIsRaw(h, p);
    assert RawsApart(h');
    FreedLivePlaced(h, p, h');
    FreedRawsOwned(h, p, h');
  }

  lemma FreeOrNullKeepsInv(h: Heap, p: nat, h': Heap)
    requires Inv(h) && (p == 0 || p in h.live)
    requires FreeDone(h, p, h')
    ensures Inv(h')
  {
    if p != 0 {
      FreeKeepsInv(h, p, h');
    }
  }

  lemma LiveBlockPlaced(h: Heap, p: nat)
    requires Inv(h) && p in h.live
    ensures WellPlaced(h, p, h.live[p])
  {
  }

  /** Payloads and headers of live blocks are apart, and lie in their raw blocks. */
  lemma LiveBlocksApart(h: Heap, p: nat, q: nat)
    requires RawsApart(h) && LivePlaced(h) && p in h.live && q in h.live
    ensures p % ALIGNMENT == 0 && h.live[p].raw + HEADER <= p
    ensures p + h.live[p].size <= h.live[p].raw + h.raws[h.live[p].raw] <= |h.ram|
    ensures Disjoint(p, h.live[p].size, q - HEADER, HEADER)
    ensures p != q ==> Disjoint(p, h.live[p].size, q, h.live[q].size) && Disjoint(p - HEADER, HEADER, q - HEADER, HEADER)
  {
    assert WellPlaced(h, p, h.live[p]);
    assert WellPlaced(h, q, h.live[q]);
    var r, s := h.live[p].raw, h.live[q].raw;
    assert p != q ==> Disjoint(r, h.raws[r], s, h.raws[s]);
  }

  lemma WrittenStaysPlaced(h: Heap, p: nat, offset: nat, v: Byte, q: nat)
    requires Inv(h) && p in h.live && offset < h.live[p].size && p + offset < |h.ram| && q in h.live
    ensures WellPlaced(h.(ram := h.ram[p + offset := v]), q, h.live[q])
  {
    hide RawsOwned, RawsApart, LivePlaced;
    LiveBlocksApart(h, p, q);
    LiveBlockPlaced(h, q);
    hide HeaderAt;
    HeaderStays(h.ram, h.ram[p + offset := v], p + offset, p + offset + 1, q, h.live[q]);
  }

  lemma WrittenLivePlaced(h: Heap, p: nat, offset: nat, v: Byte)
    requires Inv(h) && p in h.live && offset < h.live[p].size && p + offset < |h.ram|
    ensures LivePlaced(h.(ram := h.ram[p + offset := v]))
  {
    hide RawsOwned, RawsApart, WellPlaced;
    forall q | q in h.live
      ensures WellPlaced(h.(ram := h.ram[p + offset := v]), q, h.live[q])
    {
      hide LivePlaced;
      WrittenStaysPlaced(h, p, offset, v, q);
    }
  }

  lemma WriteKeepsInv(h: Heap, p: nat, offset: nat, v: Byte, h': Heap)
    requires Inv(h) && p in h.live && offset < h.live[p].size && p + offset < |h.ram|
    requires h' == h.(ram := h.ram[p + offset := v])
    ensures Inv(h')
  {
    hide LivePlaced;
    WrittenLivePlaced(h, p, offset, v);
  }

  lemma MallocIsAdded(h: Heap, size: Word, answer: nat, h': Heap, p: nat)
    requires |h.ram| <= WORD && MayAnswer(h, answer, size + OVERHEAD)
    requires MallocDone(h, size, answer, h', p) && size != 0 && answer != 0
    ensures BlockAdded(h, h', p, Block(answer, size), p)
  {
    hide HeaderAt;
  }

  lemma MallocKeepsInv(h: Heap, size: Word, answer: nat, h': Heap, p: nat)
    requires Inv(h) && MayAnswer(h, answer, size + OVERHEAD)
    requires MallocDone(h, size, answer, h', p)
    ensures Inv(h')
  {
    if size == 0 || answer == 0 {
      assert h' == h;
      return;
    }
    assert |h.ram| <= WORD;
    hide Inv, MallocDone, BlockAdded, MayAnswer;
    MallocIsAdded(h, size, answer, h', p);
    AddedKeepsInv(h, h', p, Block(answer, size), p);
  }

  /** The heap between the copy and the free of a growing realloc. */
  ghost function Grown(h: Heap, ram: seq<Byte>, size: Word, answer: nat, r: nat): Heap {
    Heap(ram, h.raws[answer := size + OVERHEAD], h.live[r := Block(answer, size)])
  }

  lemma GrownIsAdded(h: Heap, p: nat, size: Word, answer: nat, h': Heap, r: nat)
    requires p in h.live && h.live[p].size < size && answer != 0
    requires |h.ram| <= WORD && MayAnswer(h, answer, size + OVERHEAD)
    requires p != 0 && ReallocDone(h, p, size, answer, h', r)
    ensures BlockAdded(h, Grown(h, h'.ram, size, answer, r), r, Block(answer, size), r + h.live[p].size)
  {
    hide HeaderAt, Number;
  }

  lemma GrownThenFreed(h: Heap, p: nat, size: Word, answer: nat, h': Heap, r: nat)
    requires LivePlaced(h) && p in h.live && h.live[p].size < size && answer != 0
    requires p != 0 && ReallocDone(h, p, size, answer, h', r)
    requires LivePlaced(Grown(h, h'.ram, size, answer, r))
    ensures p in Grown(h, h'.ram, size, answer, r).live && FreeDone(Grown(h, h'.ram, size, answer, r), p, h')
  {
    var h1 := Grown(h, h'.ram, size, answer, r);
    ReturnedPointerIsRaw(h, p);
    ReturnedPointerIsRaw(h1, p);
    hide LivePlaced, HeaderAt, SameOutside, ReturnedPointer;
    assert h'.live == h1.live - {p};
    assert h'.raws == h1.raws - {ReturnedPointer(h1, p)};
  }

  /** A growing realloc is a malloc, a copy into the new payload, and a free. */
  lemma GrowKeepsInv(h: Heap, p: nat, size: Word, answer: nat, h': Heap, r: nat)
    requires Inv(h) && p in h.live && h.live[p].size < size && answer != 0
    requires MayAnswer(h, answer, size + OVERHEAD)
    requires p != 0 && ReallocDone(h, p, size, answer, h', r)
    ensures Inv(h')
  {
    assert |h.ram| <= WORD;
    hide RawsApart, LivePlaced, RawsOwned, BlockAdded, MayAnswer, ReallocDone, FreeDone;
    var h1 := Grown(h, h'.ram, size, answer, r);
    GrownIsAdded(h, p, size, answer, h', r);
    AddedKeepsInv(h, h1, r, Block(answer, size), r + h.live[p].size);
    GrownThenFreed(h, p, size, answer, h', r);
    FreeKeepsInv(h1, p, h');
  }

  /** Every legal call keeps the invariant. */
  lemma StepKeepsInv(h: Heap, op: Op, h': Heap)
    requires Inv(h) && Legal(h, op) && Step(h, op, h')
    ensures Inv(h')
  {
    hide Inv, MallocDone, FreeDone, MayAnswer;
    match op
    case Malloc(size, answer, p) =>
      MallocKeepsInv(h, size, answer, h', p);
    case Free(p) =>
      FreeOrNullKeepsInv(h, p, h');
    case Realloc(p, size, answer, r) =>
      if p == 0 {
        MallocKeepsInv(h, size, answer, h', r);
      } else if size == 0 || (h.live[p].size < size && answer == 0) {
        FreeOrNullKeepsInv(h, p, h');
      } else if h.live[p].size < size {
        GrowKeepsInv(h, p, size, answer, h', r);
      }
    case Write(p, offset, v) => WriteKeepsInv(h, p, offset, v, h');
  }

  ghost predicate IsRun(hs: seq<Heap>, ops: seq<Op>) {
    && |hs| == |ops| + 1
    && hs[0].raws == map[] && hs[0].live == map[] && |hs[0].ram| <= WORD
    && forall i :: 0 <= i < |ops| ==> Legal(hs[i], ops[i]) && Step(hs[i], ops[i], hs[i + 1])
  }

  /**
    Over any run the live blocks stay well placed and apart, the runtime only gets back raw blocks that it has
    outstanding, at their own address, and when no block is live it has got back all of them.
   */
  lemma {:induction false} RunSafe(hs: seq<Heap>, ops: seq<Op>, i: nat)
    requires IsRun(hs, ops) && i <= |ops|
    ensures Inv(hs[i])
    ensures forall p :: p in hs[i].live ==>
              HEADER <= p <= |hs[i].ram| && ReturnedPointer(hs[i], p) == hs[i].live[p].raw && hs[i].live[p].raw in hs[i].raws
    ensures hs[i].live == map[] ==> hs[i].raws == map[]
  {
    if i > 0 {
      RunSafe(hs, ops, i - 1);
      assert Step(hs[i - 1], ops[i - 1], hs[i - 1 + 1]);
      StepKeepsInv(hs[i - 1], ops[i - 1], hs[i]);
    }
    forall p | p in hs[i].live
      ensures HEADER <= p <= |hs[i].ram| && ReturnedPointer(hs[i], p) == hs[i].live[p].raw && hs[i].live[p].raw in hs[i].raws
    {
      ReturnedPointerIsRaw(hs[i], p);
    }
  }

  // ---------- What payloads hold ----------

  /** The payload at q lies in memory, and both heaps have the same bytes there. */
  ghost predicate SamePayload(h: Heap, h': Heap, q: nat)
    requires q in h.live
  {
    var end := q + h.live[q].size;
    end <= |h.ram| == |h'.ram| && h'.ram[q..end] == h.ram[q..end]
  }

  lemma AddedPayloadStays(h: Heap, h': Heap, p: nat, b: Block, to: nat, q: nat)
    requires RawsApart(h) && LivePlaced(h) && BlockAdded(h, h', p, b, to) && q in h.live
    ensures SamePayload(h, h', q)
  {
    assert WellPlaced(h, q, h.live[q]);
  }

  lemma MallocPayloadStays(h: Heap, size: Word, answer: nat, h': Heap, r: nat, q: nat)
    requires RawsApart(h) && LivePlaced(h) && q in h.live
    requires MayAnswer(h, answer, size + OVERHEAD) && MallocDone(h, size, answer, h', r)
    ensures SamePayload(h, h', q)
  {
    LiveBlocksApart(h, q, q);
    if size != 0 && answer != 0 {
      assert |h.ram| <= WORD;
      hide RawsApart, LivePlaced, MallocDone, BlockAdded;
      MallocIsAdded(h, size, answer, h', r);
      AddedPayloadStays(h, h', r, Block(answer, size), r, q);
    }
  }

  lemma ReallocPayloadStays(h: Heap, p: nat, size: Word, answer: nat, h': Heap, r: nat, q: nat)
    requires RawsApart(h) && LivePlaced(h) && q in h.live && (p == 0 || p in h.live)
    requires MayAnswer(h, answer, size + OVERHEAD) && ReallocDone(h, p, size, answer, h', r)
    ensures SamePayload(h, h', q)
  {
    LiveBlocksApart(h, q, q);
    if p == 0 {
      MallocPayloadStays(h, size, answer, h', r, q);
    } else if h.live[p].size < size && answer != 0 {
      assert |h.ram| <= WORD;
      hide RawsApart, LivePlaced, BlockAdded;
      GrownIsAdded(h, p, size, answer, h', r);
      hide ReallocDone;
      AddedPayloadStays(h, Grown(h, h'.ram, size, answer, r), r, Block(answer, size), r + h.live[p].size, q);
    }
  }

  lemma WrittenPayloadStays(h: Heap, p: nat, offset: nat, v: Byte, q: nat)
    requires RawsApart(h) && LivePlaced(h) && p in h.live && offset < h.live[p].size && p + offset < |h.ram|
    requires q in h.live && q != p
    ensures SamePayload(h, h.(ram := h.ram[p + offset := v]), q)
  {
    LiveBlocksApart(h, q, p);
  }

  /** No call changes a payload other than the one written. */
  lemma OtherPayloadsStay(h: Heap, op: Op, h': Heap, q: nat)
    requires Inv(h) && Legal(h, op) && Step(h, op, h') && q in h.live
    requires !(op.Write? && op.p == q)
    ensures SamePayload(h, h', q)
  {
    hide RawsApart, LivePlaced, RawsOwned, MallocDone, ReallocDone, MayAnswer;
    LiveBlocksApart(h, q, q);
    match op
    case Malloc(size, answer, r) => MallocPayloadStays(h, size, answer, h', r, q);
    case Realloc(p, size, answer, r) => ReallocPayloadStays(h, p, size, answer, h', r, q);
    case Write(p, offset, v) => WrittenPayloadStays(h, p, offset, v, q);
    case Free(p) =>
  }

  /** What callers know of their payloads: the bytes that they last wrote, by offset. */
  type Written = map<nat, map<nat, Byte>>

  ghost function WrittenTo(w: Written, p: nat): map<nat, Byte> {
    if p in w then w[p] else map[]
  }

  /** A caller's account of one call, from its arguments and result alone; size 0 frees. */
  ghost function Account(w: Written, op: Op): Written {
    match op
    case Malloc(_, _, r) => if r == 0 then w else w[r := map[]]
    case Free(p) => w - {p}
    case Realloc(p, size, _, r) =>
      if p == 0 then if r == 0 then w else w[r := map[]]
      else if size == 0 || r == 0 then w - {p}
      else (w - {p})[r := WrittenTo(w, p)]
    case Write(p, offset, v) => w[p := WrittenTo(w, p)[offset := v]]
  }

  ghost function Accounts(ops: seq<Op>): Written {
    if ops == [] then map[] else Account(Accounts(ops[..|ops| - 1]), ops[|ops| - 1])
  }

  ghost predicate Keeps(h: Heap, p: nat, bytes: map<nat, Byte>) {
    && p in h.live && p + h.live[p].size <= |h.ram|
    && forall k :: k in bytes ==> k < h.live[p].size && h.ram[p + k] == bytes[k]
  }

  ghost predicate KeepsAt(h: Heap, w: Written, p: nat) {
    (p in w <==> p in h.live) && (p in w ==> Keeps(h, p, w[p]))
  }

  /** The payloads of the heap are those the callers know of, and hold what they wrote. */
  ghost predicate KeepsAll(h: Heap, w: Written) {
    forall p: nat :: KeepsAt(h, w, p)
  }

  /** Bytes carried from one payload into one at least as large. */
  lemma CarriedBytes(h: Heap, p: nat, h': Heap, p': nat, bytes: map<nat, Byte>)
    requires Keeps(h, p, bytes) && p' in h'.live
    requires var n := h.live[p].size;
             && n <= h'.live[p'].size && p' + h'.live[p'].size <= |h'.ram|
             && h'.ram[p'..p' + n] == h.ram[p..p + n]
    ensures Keeps(h', p', bytes)
  {
    var n := h.live[p].size;
    forall k | k in bytes
      ensures h'.ram[p' + k] == bytes[k]
    {
      assert h'.ram[p'..p' + n][k] == h.ram[p..p + n][k];
    }
  }

  lemma StayedBytes(h: Heap, h': Heap, q: nat, bytes: map<nat, Byte>)
    requires Keeps(h, q, bytes) && SamePayload(h, h', q)
    requires q in h'.live && h'.live[q] == h.live[q]
    ensures Keeps(h', q, bytes)
  {
    CarriedBytes(h, q, h', q, bytes);
  }

  lemma NullIsNotLive(h: Heap)
    requires Inv(h)
    ensures 0 !in h.live
  {
    hide RawsApart, RawsOwned;
    forall p | p in h.live
      ensures p != 0
    {
      assert WellPlaced(h, p, h.live[p]);
    }
  }

  lemma MallocEffect(h: Heap, size: Word, answer: nat, h': Heap, r: nat)
    requires MallocDone(h, size, answer, h', r)
    ensures r == 0 <==> size == 0 || answer == 0
    ensures r == 0 ==> h' == h
    ensures r != 0 ==> r !in h.live && h'.live == h.live[r := Block(answer, size)] && |h'.ram| == |h.ram|
  {
  }

  lemma ReallocEffect(h: Heap, p: nat, size: Word, answer: nat, h': Heap, r: nat)
    requires p != 0 && p in h.live && ReallocDone(h, p, size, answer, h', r)
    ensures size == 0 ==> r == 0
    ensures r == 0 ==> h'.live == h.live - {p}
    ensures r == p ==> h' == h
    ensures r != 0 && r != p ==>
              var used := h.live[p].size;
              && r !in h.live && h'.live == h.live[r := Block(answer, size)] - {p} && used < size
              && r + used <= |h'.ram| == |h.ram| && p + used <= |h.ram|
              && h'.ram[r..r + used] == h.ram[p..p + used]
  {
    hide HeaderAt, ReturnedPointer;
  }

  lemma NothingWritten(h: Heap, p: nat)
    requires Inv(h) && p in h.live
    ensures Keeps(h, p, map[])
  {
    LiveBlocksApart(h, p, p);
  }

  lemma MallocKeepsAt(h: Heap, size: Word, answer: nat, h': Heap, r: nat, w: Written, q: nat)
    requires Inv(h) && Inv(h') && MayAnswer(h, answer, size + OVERHEAD) && MallocDone(h, size, answer, h', r)
    requires KeepsAt(h, w, q)
    ensures KeepsAt(h', Account(w, Malloc(size, answer, r)), q)
  {
    hide RawsApart, LivePlaced, RawsOwned, MayAnswer, MallocDone, Keeps, SamePayload;
    MallocEffect(h, size, answer, h', r);
    if r != 0 {
      NothingWritten(h', r);
    }
    if q in h.live {
      MallocPayloadStays(h, size, answer, h', r, q);
      StayedBytes(h, h', q, w[q]);
    }
  }

  lemma FreeKeepsAt(h: Heap, p: nat, h': Heap, w: Written, q: nat)
    requires 0 !in h.live && FreeDone(h, p, h') && KeepsAt(h, w, p) && KeepsAt(h, w, q)
    ensures KeepsAt(h', Account(w, Free(p)), q)
  {
  }

  lemma NullReallocIsMalloc(w: Written, size: Word, answer: nat, r: nat)
    ensures Account(w, Realloc(0, size, answer, r)) == Account(w, Malloc(size, answer, r))
  {
  }

  lemma ReallocKeepsAt(h: Heap, p: nat, size: Word, answer: nat, h': Heap, r: nat, w: Written, q: nat)
    requires Inv(h) && Inv(h') && p != 0 && p in h.live
    requires MayAnswer(h, answer, size + OVERHEAD) && ReallocDone(h, p, size, answer, h', r)
    requires KeepsAt(h, w, p) && KeepsAt(h, w, q)
    ensures KeepsAt(h', Account(w, Realloc(p, size, answer, r)), q)
  {
    hide RawsApart, LivePlaced, RawsOwned, MayAnswer, ReallocDone, SamePayload;
    ReallocEffect(h, p, size, answer, h', r);
    if q == r && r != 0 && r != p {
      LiveBlocksApart(h', r, r);
      hide Inv;
      CarriedBytes(h, p, h', r, w[p]);
    } else if q in h.live && q != p {
      ReallocPayloadStays(h, p, size, answer, h', r, q);
      hide Inv, Keeps;
      StayedBytes(h, h', q, w[q]);
    }
  }

  lemma WriteKeepsAt(h: Heap, p: nat, offset: nat, v: Byte, h': Heap, w: Written, q: nat)
    requires Inv(h) && p in h.live && offset < h.live[p].size && p + offset < |h.ram|
    requires h' == h.(ram := h.ram[p + offset := v]) && KeepsAt(h, w, p) && KeepsAt(h, w, q)
    ensures KeepsAt(h', Account(w, Write(p, offset, v)), q)
  {
    hide RawsApart, LivePlaced, RawsOwned, SamePayload;
    if q in h.live && q != p {
      WrittenPayloadStays(h, p, offset, v, q);
      hide Keeps;
      StayedBytes(h, h', q, w[q]);
    }
  }

  lemma StepKeepsAt(h: Heap, op: Op, h': Heap, w: Written, q: nat)
    requires Inv(h) && Inv(h') && Legal(h, op) && Step(h, op, h') && KeepsAt(h, w, q)
    requires !op.Malloc? ==> KeepsAt(h, w, op.p)
    ensures KeepsAt(h', Account(w, op), q)
  {
    hide Inv, MayAnswer, MallocDone, FreeDone, KeepsAt, Account;
    NullIsNotLive(h);
    match op
    case Malloc(size, answer, r) => MallocKeepsAt(h, size, answer, h', r, w, q);
    case Free(p) => FreeKeepsAt(h, p, h', w, q);
    case Realloc(p, size, answer, r) =>
      if p == 0 {
        MallocKeepsAt(h, size, answer, h', r, w, q);
        NullReallocIsMalloc(w, size, answer, r);
      } else {
        hide ReallocDone;
        ReallocKeepsAt(h, p, size, answer, h', r, w, q);
      }
    case Write(p, offset, v) => WriteKeepsAt(h, p, offset, v, h', w, q);
  }

  lemma StepKeepsAll(h: Heap, op: Op, h': Heap, w: Written)
    requires Inv(h) && Inv(h') && Legal(h, op) && Step(h, op, h') && KeepsAll(h, w)
    ensures KeepsAll(h', Account(w, op))
  {
    hide Inv, MayAnswer, MallocDone, FreeDone, ReallocDone, Keeps;
    NullIsNotLive(h);
    forall q: nat
      ensures KeepsAt(h', Account(w, op), q)
    {
      StepKeepsAt(h, op, h', w, q);
    }
  }

  /** Over any run each live payload holds what its owner last wrote there, also after realloc has moved it. */
  lemma {:induction false} RunKeepsBytes(hs: seq<Heap>, ops: seq<Op>, i: nat)
    requires IsRun(hs, ops) && i <= |ops|
    ensures KeepsAll(hs[i], Accounts(ops[..i]))
  {
    if i > 0 {
      var h, op, h', w := hs[i - 1], ops[i - 1], hs[i], Accounts(ops[..i - 1]);
      assert ops[..i][..i - 1] == ops[..i - 1];
      RunKeepsBytes(hs, ops, i - 1);
      RunSafe(hs, ops, i - 1);
      RunSafe(hs, ops, i);
      assert Legal(h, op) && Step(h, op, hs[i - 1 + 1]);
      hide IsRun, Inv, Legal, Step, Account, KeepsAll;
      StepKeepsAll(h, op, h', w);
    }
  }

  /**
    A failing realloc is to leave the old block alone (section 7.22.3.5 of ISO/IEC 9899:2011). This one does so
    exactly when it does not fail: when the block is large enough already or the runtime has memory.
   */
  lemma FailedReallocFrees(h: Heap, p: nat, size: Word, answer: nat, h': Heap, r: nat)
    requires LivePlaced(h) && p in h.live && p != 0 && size > 0
    requires ReallocDone(h, p, size, answer, h', r)
    ensures (r == 0 ==> p in h'.live) <==> (size <= h.live[p].size || answer != 0)
  {
    ReturnedPointerIsRaw(h, p);
  }

  // ---------- The code ----------

  /** Copying the old payload into a block just allocated leaves the block added, and the old payload is there. */
  lemma CopiedIsAdded(h: Heap, middle: Heap, after: Heap, p: nat, size: Word, answer: nat, r: nat)
    requires p in h.live && WellPlaced(h, p, h.live[p])
    requires h.live[p].size < size && answer != 0 && |h.ram| <= WORD
    requires MayAnswer(h, answer, size + OVERHEAD) && MallocDone(h, size, answer, middle, r)
    requires r + h.live[p].size <= |middle.ram| && p + h.live[p].size <= |middle.ram|
    requires after == middle.(ram := CStrings.Moved(middle.ram, r, p, h.live[p].size))
    ensures BlockAdded(h, after, r, Block(answer, size), r + h.live[p].size)
    ensures after.ram[r..r + h.live[p].size] == h.ram[p..p + h.live[p].size]
  {
    hide HeaderAt, Number, Bytes;
    var used := h.live[p].size;
    assert SameOutside(middle.ram, after.ram, r, r + used);
    assert after.ram[r..r + used] == middle.ram[p..p + used] == h.ram[p..p + used];
    hide CStrings.Moved;
    HeaderStays(middle.ram, after.ram, r, r + used, r, Block(answer, size));
  }

  lemma LiveHeader(h: Heap, p: nat)
    requires Inv(h) && p in h.live
    ensures p != 0 && HEADER <= p && p + h.live[p].size <= |h.ram| <= WORD && Number(h.ram[p - 8..p]) == h.live[p].size
  {
    hide RawsOwned;
    assert |h.ram| <= WORD;
    hide RawsApart, LivePlaced, Number;
    ReturnedPointerIsRaw(h, p);
    LiveBlocksApart(h, p, p);
  }

  /** The payload of the new block and the old payload lie apart. */
  lemma CopyFits(h: Heap, middle: Heap, p: nat, size: Word, answer: nat, r: nat)
    requires Inv(middle) && p in h.live && MallocDone(h, size, answer, middle, r) && r != 0 && h.live[p].size < size
    ensures p in middle.live && middle.live[p] == h.live[p]
    ensures var used := h.live[p].size;
            r + used <= |middle.ram| && p + used <= |middle.ram| && (r + used <= p || p + used <= r)
  {
    hide RawsApart, LivePlaced, RawsOwned, MallocDone;
    MallocEffect(h, size, answer, middle, r);
    LiveBlocksApart(middle, p, p);
    LiveBlocksApart(middle, r, r);
    LiveBlocksApart(middle, p, r);
  }

  /** The heap after the copy is a heap with a block added. */
  lemma CopyKeepsInv(h: Heap, middle: Heap, after: Heap, p: nat, size: Word, answer: nat, r: nat)
    requires Inv(h) && Inv(middle) && p in h.live && h.live[p].size < size && r != 0
    requires MayAnswer(h, answer, size + OVERHEAD) && MallocDone(h, size, answer, middle, r)
    requires r + h.live[p].size <= |middle.ram| && p + h.live[p].size <= |middle.ram|
    requires after == middle.(ram := CStrings.Moved(middle.ram, r, p, h.live[p].size))
    ensures Inv(after) && CopyDone(h, after, p, size, answer, r)
  {
    hide Inv, BlockAdded, MallocDone, MayAnswer, CStrings.Moved, WellPlaced;
    LiveHeader(h, p);
    LiveBlockPlaced(h, p);
    MallocEffect(h, size, answer, middle, r);
    CopiedIsAdded(h, middle, after, p, size, answer, r);
    AddedKeepsInv(h, after, r, Block(answer, size), r + h.live[p].size);
    assert after.live == middle.live && after.live[p] == h.live[p];
  }

  /** A block for `size` bytes at r has been added, and the payload at p has been copied to it. */
  ghost predicate CopyDone(h: Heap, after: Heap, p: nat, size: Word, answer: nat, r: nat)
    requires p in h.live
  {
    var used := h.live[p].size;
    && answer != 0 && r !in h.live && p in after.live && after.live[p] == h.live[p]
    && BlockAdded(h, after, r, Block(answer, size), r + used)
    && p + used <= |h.ram| && r + used <= |after.ram|
    && after.ram[r..r + used] == h.ram[p..p + used]
  }

  /** The free that ends a growing realloc. */
  lemma GrownAndFreed(h: Heap, after: Heap, h': Heap, p: nat, size: Word, answer: nat, r: nat)
    requires Inv(h) && Inv(after) && p in h.live && p != 0 && h.live[p].size < size
    requires CopyDone(h, after, p, size, answer, r) && FreeDone(after, p, h')
    ensures ReallocDone(h, p, size, answer, h', r)
  {
    hide RawsApart, LivePlaced, RawsOwned;
    ReturnedPointerIsRaw(h, p);
    ReturnedPointerIsRaw(after, p);
    hide Inv, HeaderAt, SameOutside, ReturnedPointer;
  }

  lemma AnswerFits(h: Heap, size: Word, answer: nat)
    requires Inv(h) && MayAnswer(h, answer, size + OVERHEAD) && answer != 0
    ensures answer + size + OVERHEAD <= |h.ram| <= WORD
  {
    hide LivePlaced, RawsOwned;
  }

  lemma FreshPointer(h: Heap, answer: nat, size: nat, p: nat)
    requires Inv(h) && MayAnswer(h, answer, size + OVERHEAD) && answer != 0
    requires answer + HEADER <= p < answer + HEADER + ALIGNMENT
    ensures p !in h.live
  {
    hide RawsApart, LivePlaced, RawsOwned;
    AddedPointerIsNew(h, answer, size, p);
  }

  /** The two stores of malloc write a header, and nothing else. */
  lemma StoredIsMalloc(h: Heap, size: Word, answer: Word, h': Heap, p: nat, between: seq<Byte>)
    requires size != 0 && answer != 0 && p !in h.live && p <= |h.ram|
    requires p % ALIGNMENT == 0 && answer + HEADER <= p < answer + HEADER + ALIGNMENT
    requires SameOutside(h.ram, between, p - 16, p - 8) && between[p - 16..p - 8] == Bytes(answer, 8)
    requires SameOutside(between, h'.ram, p - 8, p) && h'.ram[p - 8..p] == Bytes(size, 8)
    requires h'.raws == h.raws[answer := size + OVERHEAD] && h'.live == h.live[p := Block(answer, size)]
    ensures MallocDone(h, size, answer, h', p)
  {
    hide Bytes;
    assert h'.ram[p - 16..p - 8] == between[p - 16..p - 8];
  }

  class Allocator {
    var ram: array<Byte>
    ghost var raws: map<nat, nat>
    ghost var live: map<nat, Block>

    ghost function Snapshot(): Heap
      reads this, ram
    {
      Heap(ram[..], raws, live)
    }

    ghost predicate Valid()
      reads this, ram
    {
      Inv(Snapshot())
    }

    constructor (ram: array<Byte>)
      requires ram.Length <= WORD
      ensures Valid() && this.ram == ram && raws == map[] && live == map[]
    {
      this.ram, raws, live := ram, map[], map[];
    }

    /** The runtime's free: it takes back only raw blocks that it has outstanding. */
    method RuntimeFree(raw: nat)
      requires raw in raws
      modifies this`raws
      ensures raws == old(raws) - {raw}
    {
      raws := raws - {raw};
    }

    method StoreWord(a: nat, v: Word)
      requires a + 8 <= ram.Length
      modifies ram
      ensures SameOutside(old(ram[..]), ram[..], a, a + 8) && ram[a..a + 8] == Bytes(v, 8)
    {
      var bytes := Bytes(v, 8);
      forall i | 0 <= i < 8 {
        ram[a + i] := bytes[i];
      }
    }

    /** `answer` is what the runtime's malloc returns for the raw size; 0 is NULL. */
    method Malloc(size: Word, answer: nat) returns (p: nat)
      requires Valid() && MayAnswer(Snapshot(), answer, size + OVERHEAD)
      modifies this`raws, this`live, ram
      ensures Valid() && MallocDone(old(Snapshot()), size, answer, Snapshot(), p)
    {
      hide Inv, AlignAfter, HeaderAt, SameOutside, RawSize;
      var memSize := RawSize(size);
      if size <= 0 {
        return 0;
      }
      if answer == 0 {
        return 0;
      }
      hide MallocDone;
      ghost var before := Snapshot();
      AnswerFits(before, size, answer);
      RawSizeSuffices(size);
      raws := raws[answer := memSize];
      AlignAfterIsFirst(answer, HEADER);
      p := AlignAfter(answer, HEADER);
      FreshPointer(before, answer, size, p);
      StoreWord(p - HEADER, answer);
      ghost var between := ram[..];
      StoreWord(p - HEADER + 8, size);
      live := live[p := Block(answer, size)];
      StoredIsMalloc(before, size, answer, Snapshot(), p, between);
      hide MayAnswer;
      MallocKeepsInv(before, size, answer, Snapshot(), p);
    }

    method LoadWord(a: nat) returns (v: nat)
      requires a + 8 <= ram.Length
      ensures v == Number(ram[a..a + 8])
    {
      v := Number(ram[a..a + 8]);
    }

    method Free(p: nat)
      requires Valid() && (p == 0 || p in live)
      modifies this`raws, this`live
      ensures Valid() && FreeDone(old(Snapshot()), p, Snapshot())
    {
      if p == 0 {
        return;
      }
      hide RawsApart, LivePlaced, RawsOwned;
      ghost var before := Snapshot();
      ReturnedPointerIsRaw(before, p);
      var mem := LoadWord(p - HEADER);
      RuntimeFree(mem);
      live := live - {p};
      FreeKeepsInv(before, p, Snapshot());
    }

    method Realloc(p: nat, size: Word, answer: nat) returns (r: nat)
      requires Valid() && (p == 0 || p in live)
      requires MayAnswer(Snapshot(), answer, size + OVERHEAD)
      modifies this`raws, this`live, ram
      ensures Valid() && ReallocDone(old(Snapshot()), p, size, answer, Snapshot(), r)
    {
      hide Inv, MallocDone, FreeDone, MayAnswer, CStrings.Moved, CopyDone, Number;
      if p == 0 {
        r := Malloc(size, answer);
        return;
      }
      ghost var before := Snapshot();
      LiveHeader(before, p);
      if size <= 0 {
        Free(p);
        return 0;
      }
      var prevSize := LoadWord(p - 8);
      if size <= prevSize {
        return p;
      }
      r := Malloc(size, answer);
      ghost var middle := Snapshot();
      MallocEffect(before, size, answer, middle, r);
      if r != 0 {
        CopyFits(before, middle, p, size, answer, r);
        CStrings.Memcpy(ram, r, p, prevSize);
        ghost var after := Snapshot();
        CopyKeepsInv(before, middle, after, p, size, answer, r);
        Free(p);
        GrownAndFreed(before, after, Snapshot(), p, size, answer, r);
      } else {
        Free(p);
      }
    }
  }
}
