/** The kernel heap as the list of its blocks, and what kmalloc, kfree and krealloc do to it. */
module HeapList {
  import opened PageBits
  import opened Words

  const HEADER: nat := 32 // sizeof(kheapBlock)
  const OVERHEAD: nat := 40 // header and redzone

  /** A block: header, `used` bytes (its field `allocated`) of payload, redzone and `free` bytes of slack, from `addr`
      on. `border` marks the first block of a chunk that extendHeap got; `limit` is the end of its chunk. */
  datatype Block = Block(addr: nat, used: nat, free: nat, border: bool, limit: nat)

  /** KHEAP_MAX_ALLOC_PTR and KHEAP_REDZONE_OFFSET. */
  function RedzoneAt(b: Block): nat { b.addr + HEADER + b.used }

  /** KHEAP_MAX_TOTAL_PTR. */
  function EndOf(b: Block): nat { b.addr + OVERHEAD + b.used + b.free }

  predicate Disjoint(a: Block, b: Block) { EndOf(a) <= b.addr || EndOf(b) <= a.addr }

  /** Block `i` and its successor: inside a chunk they touch, and the last block of a chunk ends it. */
  predicate Joined(l: seq<Block>, i: nat)
    requires i < |l|
  {
    if i + 1 < |l| && !l[i + 1].border then l[i + 1].addr == EndOf(l[i]) && l[i + 1].limit == l[i].limit
    else EndOf(l[i]) == l[i].limit
  }

  /** Every chunk is cut into blocks without gap or overlap, and chunks are apart. The first block, which
      initKmalloc makes, holds no payload. */
  ghost predicate Tiled(l: seq<Block>) {
    && l != [] && l[0].used == 0 && !l[0].border
    && (forall i :: 0 <= i < |l| ==> l[i].addr > 0 && l[i].limit - l[i].addr < U32)
    && (forall i :: 0 <= i < |l| ==> Joined(l, i))
    && (forall i, j :: 0 <= i < j < |l| ==> Disjoint(l[i], l[j]))
  }

  // ---- Operations --------------------------------------------------------------------------------

  /** initKmalloc. */
  function Init(start: nat, size: nat): seq<Block>
    requires size >= OVERHEAD
  {
    [Block(start, 0, size - OVERHEAD, false, start + size)]
  }

  /** The first block from `i` on with `need` bytes of slack, or |l|. */
  function FirstFit(l: seq<Block>, need: nat, i: nat): nat
    requires i <= |l|
    decreases |l| - i
  {
    if i == |l| || l[i].free >= need then i else FirstFit(l, need, i + 1)
  }

  /** A new block in the slack of block `k`, right behind its redzone. */
  function Carved(b: Block, sz: nat): Block
    requires b.free >= sz + OVERHEAD
  {
    Block(b.addr + OVERHEAD + b.used, sz, b.free - OVERHEAD - sz, false, b.limit)
  }

  function Split(l: seq<Block>, k: nat, sz: nat): seq<Block>
    requires k < |l| && l[k].free >= sz + OVERHEAD
  {
    Cut(l, k, l[k].(free := 0), Carved(l[k], sz))
  }

  /** The room that kmallocInt looks for: header, redzone and payload, in 64 bits. */
  function RoomFor(sz: nat): nat { (sz + OVERHEAD) % U64 }

  /** The test for room is right exactly for requests below 2^64 - 40 bytes, and besides for blocks with less slack than
      the sum has after it wrapped. */
  lemma RoomTest(free: nat, sz: nat)
    requires free < U32 && sz < U64
    ensures (free >= RoomFor(sz) <==> free >= sz + OVERHEAD) <==> sz < U64 - OVERHEAD || free < RoomFor(sz)
  {}

  /** The block as it is then written into such slack, its size cut to 32 bits. */
  function Overlong(b: Block, sz: nat): Block
    requires b.free >= RoomFor(sz)
  {
    Block(b.addr + OVERHEAD + b.used, sz % U32, b.free - RoomFor(sz), false, b.limit)
  }

  /** It then ends 4 GiB past the block it was put into, and the tiling is lost. */
  lemma OverlongBreaks(l: seq<Block>, k: nat, sz: nat)
    requires Tiled(l) && k < |l| && U64 - OVERHEAD <= sz < U64 && l[k].free >= RoomFor(sz)
    ensures EndOf(Overlong(l[k], sz)) == EndOf(l[k]) + U32
    ensures !Tiled(Cut(l, k, l[k].(free := 0), Overlong(l[k], sz)))
  {
    var b := Overlong(l[k], sz);
    var r := Cut(l, k, l[k].(free := 0), b);
    assert sz % U32 == U32 - OVERHEAD + RoomFor(sz);
    assert r[k + 1] == b && (k + 1 < |l| ==> r[k + 2] == l[k + 1]);
    assert Joined(l, k) && !Joined(r, k + 1);
  }

  /** The bytes extendHeap asks for: five pages more than the request, in 32 bits. */
  function ExtendBytes(csz: nat): nat { (csz / PAGE_SZ % U32 + 5) % U32 * PAGE_SZ % U32 }

  /** The slack it records for them, again in 32 bits. */
  function ExtendFree(csz: nat): nat { (ExtendBytes(csz) + U32 - OVERHEAD) % U32 }

  function NewChunk(chunk: nat, sz: nat): Block
    requires ExtendFree(sz + OVERHEAD) >= sz
  {
    Block(chunk, sz, ExtendFree(sz + OVERHEAD) - sz, true, chunk + ExtendBytes(sz + OVERHEAD))
  }

  function Extend(l: seq<Block>, chunk: nat, sz: nat): seq<Block>
    requires ExtendFree(sz + OVERHEAD) >= sz
  {
    l + [NewChunk(chunk, sz)]
  }

  /** kfree: a block inside a chunk gives its bytes to the one before, the first of a chunk leaves the list. */
  function Absorb(a: Block, b: Block): Block { a.(free := a.free + HEADER + b.used + b.free + 8) }

  function Remove(l: seq<Block>, k: nat): seq<Block>
    requires 0 < k < |l|
  {
    if l[k].border then l[..k] + l[k + 1..]
    else l[..k - 1] + [Absorb(l[k - 1], l[k])] + l[k + 1..]
  }

  /** krealloc in place. */
  function Resized(b: Block, sz: nat): Block
    requires sz <= b.used + b.free
  {
    b.(used := sz, free := b.used + b.free - sz)
  }

  function Resize(l: seq<Block>, k: nat, sz: nat): seq<Block>
    requires 0 < k < |l| && sz <= l[k].used + l[k].free
  {
    l[k := Resized(l[k], sz)]
  }

  // ---- Each operation keeps the tiling ----------------------------------------------------------------

  lemma InitTiled(start: nat, size: nat)
    requires start > 0 && OVERHEAD <= size < U32
    ensures Tiled(Init(start, size))
  {}

  /** Block `k` replaced by two. */
  function Cut(l: seq<Block>, k: nat, a: Block, b: Block): seq<Block>
    requires k < |l|
  {
    l[..k] + [a, b] + l[k + 1..]
  }

  predicate Halves(whole: Block, a: Block, b: Block) {
    && a.addr == whole.addr && EndOf(a) == b.addr && EndOf(b) == EndOf(whole)
    && a.limit == b.limit == whole.limit && a.border == whole.border && !b.border && a.used == whole.used
  }

  lemma CutAt(l: seq<Block>, k: nat, a: Block, b: Block, i: nat)
    requires k < |l| && i <= |l|
    ensures Cut(l, k, a, b)[i] == if i < k then l[i] else if i == k then a else if i == k + 1 then b else l[i - 1]
  {}

  lemma CutJoined(l: seq<Block>, k: nat, a: Block, b: Block, i: nat)
    requires Tiled(l) && k < |l| && Halves(l[k], a, b) && i <= |l|
    ensures Joined(Cut(l, k, a, b), i)
    ensures Cut(l, k, a, b)[i].addr > 0 && Cut(l, k, a, b)[i].limit - Cut(l, k, a, b)[i].addr < U32
  {
    CutAt(l, k, a, b, i);
    if i + 1 <= |l| { CutAt(l, k, a, b, i + 1); }
    assert Joined(l, if i <= k then i else i - 1);
  }

  /** Cutting a block in two, wherever the cut lies, as long as the two halves fill it. */
  lemma CutTiled(l: seq<Block>, k: nat, a: Block, b: Block)
    requires Tiled(l) && k < |l| && Halves(l[k], a, b)
    ensures Tiled(Cut(l, k, a, b))
  {
    var r := Cut(l, k, a, b);
    forall i | 0 <= i < |r|
      ensures r[i].addr > 0 && r[i].limit - r[i].addr < U32 && Joined(r, i)
    {
      CutJoined(l, k, a, b, i);
    }
    forall i, j | 0 <= i < j < |r|
      ensures Disjoint(r[i], r[j])
    {
      CutAt(l, k, a, b, i);
      CutAt(l, k, a, b, j);
      PartsApart(l, if i <= k then i else i - 1, if j <= k then j else j - 1, r[i], r[j]);
    }
    CutAt(l, k, a, b, 0);
  }

  /** Blocks inside different blocks are apart, and so are the two halves of one. */
  lemma PartsApart(l: seq<Block>, x: nat, y: nat, p: Block, q: Block)
    requires Tiled(l) && x <= y < |l| && Within(p, l[x]) && Within(q, l[y])
    requires x == y ==> Disjoint(p, q)
    ensures Disjoint(p, q)
  {}

  predicate Within(a: Block, b: Block) { b.addr <= a.addr && EndOf(a) <= EndOf(b) }

  lemma SplitTiled(l: seq<Block>, k: nat, sz: nat)
    requires Tiled(l) && k < |l| && l[k].free >= sz + OVERHEAD
    ensures Tiled(Split(l, k, sz))
  {
    CutTiled(l, k, l[k].(free := 0), Carved(l[k], sz));
  }

  /** Block `k` dropped and the one before it replaced. */
  function Drop(l: seq<Block>, k: nat, c: Block): seq<Block>
    requires 0 < k < |l|
  {
    l[..k - 1] + [c] + l[k + 1..]
  }

  /** What may take the place of two neighbours: their union inside a chunk, or the first alone when the second
      is all of its chunk. */
  predicate Replaces(l: seq<Block>, k: nat, c: Block)
    requires 0 < k < |l|
  {
    if l[k].border then c == l[k - 1] && (k + 1 == |l| || l[k + 1].border)
    else c == l[k - 1].(free := c.free) && EndOf(c) == EndOf(l[k])
  }

  lemma DropAt(l: seq<Block>, k: nat, c: Block, i: nat)
    requires 0 < k < |l| && i < |l| - 1
    ensures Drop(l, k, c)[i] == if i < k - 1 then l[i] else if i == k - 1 then c else l[i + 1]
  {}

  lemma DropJoined(l: seq<Block>, k: nat, c: Block, i: nat)
    requires Tiled(l) && 0 < k < |l| && Replaces(l, k, c) && i < |l| - 1
    ensures Joined(Drop(l, k, c), i)
    ensures Drop(l, k, c)[i].addr > 0 && Drop(l, k, c)[i].limit - Drop(l, k, c)[i].addr < U32
  {
    DropAt(l, k, c, i);
    if i + 1 < |l| - 1 { DropAt(l, k, c, i + 1); }
    assert Joined(l, i) && Joined(l, i + 1);
  }

  lemma DropApart(l: seq<Block>, k: nat, c: Block, j: nat)
    requires Tiled(l) && 0 < k < |l| && Replaces(l, k, c) && j < |l| && j != k && j != k - 1
    ensures Disjoint(c, l[j]) && Disjoint(l[j], c)
  {
    assert Joined(l, k - 1);
    assert Disjoint(l[k - 1], l[j]) || Disjoint(l[j], l[k - 1]);
    assert Disjoint(l[k], l[j]) || Disjoint(l[j], l[k]);
  }

  lemma DropTiled(l: seq<Block>, k: nat, c: Block)
    requires Tiled(l) && 0 < k < |l| && Replaces(l, k, c)
    ensures Tiled(Drop(l, k, c))
  {
    var r := Drop(l, k, c);
    forall i | 0 <= i < |r|
      ensures r[i].addr > 0 && r[i].limit - r[i].addr < U32 && Joined(r, i)
    {
      DropJoined(l, k, c, i);
    }
    forall i: nat, j: nat | i < j < |r|
      ensures Disjoint(r[i], r[j])
    {
      DropDisjoint(l, k, c, i, j);
    }
    DropAt(l, k, c, 0);
  }

  lemma DropDisjoint(l: seq<Block>, k: nat, c: Block, i: nat, j: nat)
    requires Tiled(l) && 0 < k < |l| && Replaces(l, k, c) && i < j < |l| - 1
    ensures Disjoint(Drop(l, k, c)[i], Drop(l, k, c)[j])
  {
    DropAt(l, k, c, i);
    DropAt(l, k, c, j);
    if i == k - 1 { DropApart(l, k, c, j + 1); }
    if j == k - 1 { DropApart(l, k, c, i); }
  }

  /** kfree keeps the tiling exactly when a block that starts a chunk is the last one left of it. */
  lemma RemoveTiled(l: seq<Block>, k: nat)
    requires Tiled(l) && 0 < k < |l|
    ensures Tiled(Remove(l, k)) <==> (l[k].border ==> k + 1 == |l| || l[k + 1].border)
  {
    var c := if l[k].border then l[k - 1] else Absorb(l[k - 1], l[k]);
    assert Remove(l, k) == Drop(l, k, c);
    assert Joined(l, k - 1);
    if l[k].border && k + 1 < |l| && !l[k + 1].border {
      DropAt(l, k, c, k - 1);
      DropAt(l, k, c, k);
      assert Joined(l, k) && Disjoint(l[k - 1], l[k]);
      assert !Joined(Drop(l, k, c), k - 1);
    } else {
      DropTiled(l, k, c);
    }
  }

  lemma ResizeTiled(l: seq<Block>, k: nat, sz: nat)
    requires Tiled(l) && 0 < k < |l| && sz <= l[k].used + l[k].free
    ensures Tiled(Resize(l, k, sz))
  {
    var r := Resize(l, k, sz);
    forall i | 0 <= i < |r|
      ensures Joined(r, i)
    {
      assert Joined(l, i);
    }
    forall i, j | 0 <= i < j < |r|
      ensures Disjoint(r[i], r[j])
    {
      assert Disjoint(l[i], l[j]);
    }
  }

  // ---- Extension ---------------------------------------------------------------------------------

  /** extendHeap gets what was asked for, and records its slack right, exactly below 2^32 - 5 pages. */
  lemma ExtendSuffices(csz: nat)
    ensures ExtendBytes(csz) >= csz <==> csz < U32 - 5 * PAGE_SZ
    ensures csz < U32 - 5 * PAGE_SZ ==>
            ExtendFree(csz) + OVERHEAD == ExtendBytes(csz) && ExtendBytes(csz) >= 5 * PAGE_SZ
  {
    if csz < U32 - 5 * PAGE_SZ {
      assert ExtendBytes(csz) == (csz / PAGE_SZ + 5) * PAGE_SZ;
    } else if csz < U32 {
      assert ExtendBytes(csz) == (csz / PAGE_SZ + 5) * PAGE_SZ - U32;
    }
  }

  /** The assertion after extendHeap misses exactly the requests of 2^32 bytes less five pages, up to the next page:
      nothing was allocated for them, but the 32-bit slack came out as almost 4 GiB. All others that got too little
      it catches. */
  lemma AssertionMisses(sz: nat)
    ensures ExtendBytes(sz + OVERHEAD) < sz + OVERHEAD && ExtendFree(sz + OVERHEAD) >= sz
      <==> (sz + OVERHEAD) / PAGE_SZ == 0x10_0000 - 5
  {
    var csz := sz + OVERHEAD;
    ExtendSuffices(csz);
    if U32 - 5 * PAGE_SZ <= csz < U32 {
      assert ExtendBytes(csz) == (csz / PAGE_SZ + 5) * PAGE_SZ - U32;
    } else if U32 <= csz < U32 + OVERHEAD {
      assert ExtendBytes(csz) == 5 * PAGE_SZ;
    }
  }

  /** A new chunk is apart from the blocks there are. */
  predicate Vacant(l: seq<Block>, chunk: nat, bytes: nat) {
    chunk > 0 && forall i :: 0 <= i < |l| ==> EndOf(l[i]) <= chunk || chunk + bytes <= l[i].addr
  }

  lemma ExtendTiled(l: seq<Block>, chunk: nat, sz: nat)
    requires Tiled(l) && sz + OVERHEAD < U32 - 5 * PAGE_SZ && Vacant(l, chunk, ExtendBytes(sz + OVERHEAD))
    ensures ExtendFree(sz + OVERHEAD) >= sz && Tiled(Extend(l, chunk, sz))
  {
    ExtendSuffices(sz + OVERHEAD);
    var r := Extend(l, chunk, sz);
    forall i | 0 <= i < |r|
      ensures Joined(r, i)
    {
      if i < |l| { assert Joined(l, i); }
    }
  }

  // ---- Aligned allocation ----------------------------------------------------------------------------

  /** KHEAP_ALIGNMENT_OFFSET: the way from the end of the redzone to the next page boundary, 0x1000 on one. */
  function AlignmentOffset(b: Block): nat { PAGE_SZ - (b.addr + OVERHEAD + b.used) % PAGE_SZ }

  /** The scan takes a block with room for a header before the boundary and for the request after it. */
  predicate AlignedFits(b: Block, sz: nat) {
    AlignmentOffset(b) >= HEADER && b.free >= sz + OVERHEAD + AlignmentOffset(b)
  }

  /** The scan, advancing past a block whose offset is too small for a header. */
  function FirstAligned(l: seq<Block>, sz: nat, i: nat): nat
    requires i <= |l|
    decreases |l| - i
  {
    if i == |l| || AlignedFits(l[i], sz) then i else FirstAligned(l, sz, i + 1)
  }

  /** The scan as the source has it, for at most `fuel` turns: a block whose offset is too small for a header is
      looked at again and again. The block it stops at, |l| past the last, or -1 while it is still running. */
  function ScanAsWritten(l: seq<Block>, sz: nat, i: nat, fuel: nat): int
    requires i <= |l|
    decreases fuel
  {
    if fuel == 0 then -1
    else if i == |l| then |l|
    else if AlignmentOffset(l[i]) < HEADER then ScanAsWritten(l, sz, i, fuel - 1)
    else if l[i].free >= sz + OVERHEAD + AlignmentOffset(l[i]) then i
    else ScanAsWritten(l, sz, i + 1, fuel - 1)
  }

  predicate NeverStuck(l: seq<Block>, i: nat, n: nat) {
    forall j :: i <= j < n && j < |l| ==> AlignmentOffset(l[j]) >= HEADER
  }

  /** It comes to an end exactly when no block before the one it should take has too small an offset, and then it
      finds that one. */
  lemma ScanEnds(l: seq<Block>, sz: nat)
    ensures (exists fuel: nat :: ScanAsWritten(l, sz, 0, fuel) >= 0)
      <==> NeverStuck(l, 0, FirstAligned(l, sz, 0))
    ensures forall fuel: nat :: ScanAsWritten(l, sz, 0, fuel) >= 0 ==>
            ScanAsWritten(l, sz, 0, fuel) == FirstAligned(l, sz, 0)
  {
    FirstAlignedFits(l, sz, 0);
    forall fuel: nat | ScanAsWritten(l, sz, 0, fuel) >= 0
      ensures ScanAsWritten(l, sz, 0, fuel) == FirstAligned(l, sz, 0)
      ensures NeverStuck(l, 0, FirstAligned(l, sz, 0))
    {
      ScanFinds(l, sz, 0, fuel);
    }
    if NeverStuck(l, 0, FirstAligned(l, sz, 0)) {
      ScanReaches(l, sz, 0);
    }
  }

  lemma {:induction false} ScanFinds(l: seq<Block>, sz: nat, i: nat, fuel: nat)
    requires i <= |l| && ScanAsWritten(l, sz, i, fuel) >= 0
    ensures ScanAsWritten(l, sz, i, fuel) == FirstAligned(l, sz, i)
    ensures NeverStuck(l, i, FirstAligned(l, sz, i))
    decreases fuel
  {
    if i < |l| {
      if AlignmentOffset(l[i]) < HEADER { ScanFinds(l, sz, i, fuel - 1); }
      else if !AlignedFits(l[i], sz) { ScanFinds(l, sz, i + 1, fuel - 1); }
    }
  }

  lemma {:induction false} ScanReaches(l: seq<Block>, sz: nat, i: nat)
    requires i <= |l| && NeverStuck(l, i, FirstAligned(l, sz, i))
    ensures ScanAsWritten(l, sz, i, |l| - i + 1) >= 0
    decreases |l| - i
  {
    FirstAlignedFits(l, sz, i);
    if i < |l| && !AlignedFits(l[i], sz) { ScanReaches(l, sz, i + 1); }
  }

  /** The aligned block: its payload starts at the boundary, so its header ends there. */
  function AlignedBlock(b: Block, sz: nat): Block
    requires AlignedFits(b, sz)
  {
    var at := b.addr + OVERHEAD + b.used + AlignmentOffset(b) - HEADER;
    Block(at, sz, EndOf(b) - at - (OVERHEAD + sz), false, b.limit)
  }

  /** The block it was taken from keeps the slack before it. */
  function BeforeAligned(b: Block, sz: nat): Block
    requires AlignedFits(b, sz)
  {
    b.(free := AlignedBlock(b, sz).addr - b.addr - (OVERHEAD + b.used))
  }

  function AlignedSplit(l: seq<Block>, k: nat, sz: nat): seq<Block>
    requires k < |l| && AlignedFits(l[k], sz)
  {
    Cut(l, k, BeforeAligned(l[k], sz), AlignedBlock(l[k], sz))
  }

  /** The same without `block->next = nblock`, as the source has it: the new block is not on the list. */
  function AlignedUnlinked(l: seq<Block>, k: nat, sz: nat): seq<Block>
    requires k < |l| && AlignedFits(l[k], sz)
  {
    l[k := BeforeAligned(l[k], sz)]
  }

  /** The payload is on a page boundary, the header strictly behind the redzone, and the tiling is kept. */
  lemma AlignedSplitTiled(l: seq<Block>, k: nat, sz: nat)
    requires Tiled(l) && k < |l| && AlignedFits(l[k], sz)
    ensures (AlignedBlock(l[k], sz).addr + HEADER) % PAGE_SZ == 0
    ensures RedzoneAt(l[k]) + 8 <= AlignedBlock(l[k], sz).addr
    ensures Tiled(AlignedSplit(l, k, sz))
  {
    AlignedArithmetic(l[k], sz);
    CutTiled(l, k, BeforeAligned(l[k], sz), AlignedBlock(l[k], sz));
  }

  lemma AlignedArithmetic(b: Block, sz: nat)
    requires AlignedFits(b, sz)
    ensures (AlignedBlock(b, sz).addr + HEADER) % PAGE_SZ == 0
    ensures Halves(b, BeforeAligned(b, sz), AlignedBlock(b, sz))
  {}

  /** Without the link the chunk is never fully cut up: the bytes of the new block are lost. */
  lemma AlignedUnlinkedBreaks(l: seq<Block>, k: nat, sz: nat)
    requires Tiled(l) && k < |l| && AlignedFits(l[k], sz)
    ensures !Tiled(AlignedUnlinked(l, k, sz))
  {
    assert Joined(l, k);
    AlignedArithmetic(l[k], sz);
    var r := AlignedUnlinked(l, k, sz);
    assert EndOf(r[k]) < EndOf(l[k]);
    assert !Joined(r, k);
  }

  /** An aligned request that extends the heap gets the start of its chunk, a page boundary, plus the header:
      the pointer is then never on a boundary. */
  lemma ExtensionIsUnaligned(chunk: nat)
    requires chunk % PAGE_SZ == 0
    ensures (chunk + HEADER) % PAGE_SZ != 0
  {}

  // ---- Accounting --------------------------------------------------------------------------------------

  /** Slack and payload bytes of the blocks from `i` up to `j`. */
  function FreeBytes(l: seq<Block>, i: nat, j: nat): nat
    requires i <= j <= |l|
    decreases j - i
  {
    if i == j then 0 else l[i].free + FreeBytes(l, i + 1, j)
  }

  function LiveBytes(l: seq<Block>, i: nat, j: nat): nat
    requires i <= j <= |l|
    decreases j - i
  {
    if i == j then 0 else l[i].used + LiveBytes(l, i + 1, j)
  }

  /** The blocks from `i` up to `j` are all of one chunk. */
  predicate IsChunk(l: seq<Block>, i: nat, j: nat) {
    && i < j <= |l| && (i == 0 || l[i].border) && (j == |l| || l[j].border)
    && forall m :: i < m < j ==> !l[m].border
  }

  /** Free bytes, live bytes and the overhead of each block add up to the size of the chunk. */
  lemma ChunkAccount(l: seq<Block>, i: nat, j: nat)
    requires Tiled(l) && IsChunk(l, i, j)
    ensures l[i].addr + FreeBytes(l, i, j) + LiveBytes(l, i, j) + OVERHEAD * (j - i) == l[i].limit
  {
    SpanAccount(l, i, i, j);
  }

  lemma {:induction false} SpanAccount(l: seq<Block>, i: nat, m: nat, j: nat)
    requires Tiled(l) && IsChunk(l, i, j) && i <= m < j
    ensures l[m].addr + FreeBytes(l, m, j) + LiveBytes(l, m, j) + OVERHEAD * (j - m) == l[m].limit
    decreases j - m
  {
    assert Joined(l, m);
    if m + 1 < j { SpanAccount(l, i, m + 1, j); }
  }

  /** Once every block carved from the first chunk is freed, the chunk is what initKmalloc made of it. */
  lemma FullyCoalesced(l: seq<Block>)
    requires Tiled(l) && (|l| == 1 || l[1].border)
    ensures l[0].limit - l[0].addr >= OVERHEAD && [l[0]] == Init(l[0].addr, l[0].limit - l[0].addr)
  {
    assert Joined(l, 0);
  }

  /** No payload meets another block, nor any header or redzone. */
  lemma PayloadsApart(l: seq<Block>, i: nat, j: nat, at: nat)
    requires Tiled(l) && i < |l| && j < |l| && l[i].addr + HEADER <= at < l[i].addr + HEADER + l[i].used
    ensures i != j ==> !(l[j].addr <= at < EndOf(l[j]))
    ensures !(l[j].addr <= at < l[j].addr + HEADER) && !(RedzoneAt(l[j]) <= at < RedzoneAt(l[j]) + 8)
  {}

  // ---- Whole runs --------------------------------------------------------------------------------------

  datatype Op =
    | Alloc(sz: nat, align: bool, chunk: nat)
    | Free(k: nat)
    | Realloc(k: nat, sz: nat, chunk: nat)

  /** The block a request of `sz` bytes is carved from, or |l|. */
  function Fit(l: seq<Block>, sz: nat, align: bool): nat {
    if align then FirstAligned(l, sz, 0) else FirstFit(l, sz + OVERHEAD, 0)
  }

  predicate CanExtend(l: seq<Block>, sz: nat, chunk: nat) {
    sz + OVERHEAD < U32 - 5 * PAGE_SZ && Vacant(l, chunk, ExtendBytes(sz + OVERHEAD))
  }

  /** A request that some block has room for, or that the heap can be extended for. */
  predicate CanAlloc(l: seq<Block>, sz: nat, align: bool, chunk: nat) {
    sz == 0 || Fit(l, sz, align) < |l| || CanExtend(l, sz, chunk)
  }

  function AfterAlloc(l: seq<Block>, sz: nat, align: bool, chunk: nat): seq<Block>
    requires CanAlloc(l, sz, align, chunk)
  {
    FitFits(l, sz, align);
    ExtendSuffices(sz + OVERHEAD);
    var k := Fit(l, sz, align);
    if sz == 0 then l
    else if k == |l| then Extend(l, chunk, sz)
    else if align then AlignedSplit(l, k, sz)
    else Split(l, k, sz)
  }

  // What a caller asked for, told by the bytes alone: header and redzone take 40, a header 32.

  /** How far an aligned payload lies behind the redzone of a block. */
  function BoundaryAfter(b: Block): nat { 0x1000 - (b.addr + b.used + 40) % 0x1000 }

  /** The block has room for a request behind its redzone: header, payload and redzone, the payload on a page boundary
      if aligned. */
  predicate HasRoom(b: Block, sz: nat, align: bool) {
    if align then BoundaryAfter(b) >= 32 && b.free >= sz + 40 + BoundaryAfter(b) else b.free >= sz + 40
  }

  predicate FirstWithRoom(l: seq<Block>, sz: nat, align: bool, i: nat) {
    i < |l| && HasRoom(l[i], sz, align) && forall j :: 0 <= j < i ==> !HasRoom(l[j], sz, align)
  }

  /** The first block with room is the one that is taken, and the heap is extended only when none has. */
  lemma FitIsFirst(l: seq<Block>, sz: nat, align: bool)
    ensures forall i: nat :: FirstWithRoom(l, sz, align, i) <==> i < |l| && Fit(l, sz, align) == i
    ensures Fit(l, sz, align) == |l| <==> forall i :: 0 <= i < |l| ==> !HasRoom(l[i], sz, align)
  {
    FirstFitFits(l, sz + OVERHEAD, 0);
    FirstAlignedFits(l, sz, 0);
    forall i | 0 <= i < |l|
      ensures HasRoom(l[i], sz, align) <==> if align then AlignedFits(l[i], sz) else l[i].free >= sz + OVERHEAD
    {}
  }

  /** What the list then is: the new block lies behind the redzone of that block, or on the first page boundary that
      leaves room for its header, and all slack after it is its own; or it starts a chunk of whole pages, five more than
      the request fills. */
  lemma AllocMakes(l: seq<Block>, sz: nat, align: bool, chunk: nat)
    requires CanAlloc(l, sz, align, chunk) && sz > 0
    ensures forall i: nat :: FirstWithRoom(l, sz, align, i) ==>
      var b, gap := l[i], if align then BoundaryAfter(l[i]) - 32 else 0;
      AfterAlloc(l, sz, align, chunk)
      == l[..i]
         + [b.(free := gap), Block(b.addr + b.used + 40 + gap, sz, b.free - gap - 40 - sz, false, b.limit)]
         + l[i + 1..]
    ensures (forall i :: 0 <= i < |l| ==> !HasRoom(l[i], sz, align)) ==>
      var size := ((sz + 40) / 0x1000 + 5) * 0x1000;
      size < U32 && size >= sz + 40
      && AfterAlloc(l, sz, align, chunk) == l + [Block(chunk, sz, size - sz - 40, true, chunk + size)]
  {
    hide *;
    FitIsFirst(l, sz, align);
    AllocIs(l, sz, align, chunk);
    var k := Fit(l, sz, align);
    if k < |l| {
      SplitMakes(l, k, sz, align);
    } else {
      ChunkMakes(l, sz, chunk);
    }
  }

  lemma AllocIs(l: seq<Block>, sz: nat, align: bool, chunk: nat)
    requires CanAlloc(l, sz, align, chunk) && sz > 0
    ensures var k := Fit(l, sz, align);
      && k <= |l| && (k == |l| ==> CanExtend(l, sz, chunk) && ExtendFree(sz + OVERHEAD) >= sz)
      && (k < |l| ==> (if align then AlignedFits(l[k], sz) else l[k].free >= sz + OVERHEAD))
      && AfterAlloc(l, sz, align, chunk)
         == if k == |l| then Extend(l, chunk, sz) else if align then AlignedSplit(l, k, sz) else Split(l, k, sz)
  {
    FitFits(l, sz, align);
    ExtendSuffices(sz + OVERHEAD);
    hide Fit;
  }

  lemma SplitMakes(l: seq<Block>, k: nat, sz: nat, align: bool)
    requires k < |l| && if align then AlignedFits(l[k], sz) else l[k].free >= sz + OVERHEAD
    ensures var b, gap := l[k], if align then BoundaryAfter(l[k]) - 32 else 0;
      gap >= 0 && b.free >= gap + 40 + sz
      && (if align then AlignedSplit(l, k, sz) else Split(l, k, sz))
         == l[..k]
            + [b.(free := gap), Block(b.addr + b.used + 40 + gap, sz, b.free - gap - 40 - sz, false, b.limit)]
            + l[k + 1..]
  {}

  lemma ChunkMakes(l: seq<Block>, sz: nat, chunk: nat)
    requires CanExtend(l, sz, chunk) && ExtendFree(sz + OVERHEAD) >= sz
    ensures var size := ((sz + 40) / 0x1000 + 5) * 0x1000;
      size < U32 && size >= sz + 40
      && Extend(l, chunk, sz) == l + [Block(chunk, sz, size - sz - 40, true, chunk + size)]
  {
    ExtendSuffices(sz + OVERHEAD);
    ChunkSize(sz + OVERHEAD);
  }

  lemma ChunkSize(csz: nat)
    requires csz < U32 - 5 * PAGE_SZ
    ensures ExtendBytes(csz) == (csz / 0x1000 + 5) * 0x1000 < U32
  {}

  /** Where block `i` is after an allocation. */
  function Placed(l: seq<Block>, sz: nat, align: bool, i: nat): nat {
    if sz > 0 && Fit(l, sz, align) < i then i + 1 else i
  }

  lemma FitFits(l: seq<Block>, sz: nat, align: bool)
    ensures var k := Fit(l, sz, align);
      k <= |l| && (k < |l| ==> if align then AlignedFits(l[k], sz) else l[k].free >= sz + OVERHEAD)
  {
    FirstFitFits(l, sz + OVERHEAD, 0);
    FirstAlignedFits(l, sz, 0);
  }

  lemma {:induction false} FirstFitFits(l: seq<Block>, need: nat, i: nat)
    requires i <= |l|
    ensures var k := FirstFit(l, need, i); i <= k <= |l| && (k < |l| ==> l[k].free >= need)
    ensures forall j :: i <= j < FirstFit(l, need, i) ==> l[j].free < need
    decreases |l| - i
  {
    if i < |l| && l[i].free < need { FirstFitFits(l, need, i + 1); }
  }

  lemma {:induction false} FirstAlignedFits(l: seq<Block>, sz: nat, i: nat)
    requires i <= |l|
    ensures var k := FirstAligned(l, sz, i); i <= k <= |l| && (k < |l| ==> AlignedFits(l[k], sz))
    ensures forall j :: i <= j < FirstAligned(l, sz, i) ==> !AlignedFits(l[j], sz)
    decreases |l| - i
  {
    if i < |l| && !AlignedFits(l[i], sz) { FirstAlignedFits(l, sz, i + 1); }
  }

  /** A block that may be freed: not the first, and the last of its chunk if it starts one. */
  predicate CanFree(l: seq<Block>, k: nat) {
    0 < k < |l| && (l[k].border ==> k + 1 == |l| || l[k + 1].border)
  }

  predicate InPlace(l: seq<Block>, k: nat, sz: nat)
    requires k < |l|
  {
    l[k].used + l[k].free >= sz
  }

  predicate Allowed(l: seq<Block>, op: Op) {
    match op
    case Alloc(sz, align, chunk) => CanAlloc(l, sz, align, chunk)
    case Free(k) => CanFree(l, k)
    case Realloc(k, sz, chunk) =>
      0 < k < |l| && (!InPlace(l, k, sz) ==>
        CanAlloc(l, sz, false, chunk) && CanFree(AfterAlloc(l, sz, false, chunk), Placed(l, sz, false, k)))
  }

  function Apply(l: seq<Block>, op: Op): seq<Block>
    requires Allowed(l, op)
  {
    match op
    case Alloc(sz, align, chunk) => AfterAlloc(l, sz, align, chunk)
    case Free(k) => Remove(l, k)
    case Realloc(k, sz, chunk) =>
      if InPlace(l, k, sz) then Resize(l, k, sz) else Remove(AfterAlloc(l, sz, false, chunk), Placed(l, sz, false, k))
  }

  lemma AllocTiled(l: seq<Block>, sz: nat, align: bool, chunk: nat)
    requires Tiled(l) && CanAlloc(l, sz, align, chunk)
    ensures Tiled(AfterAlloc(l, sz, align, chunk))
  {
    FitFits(l, sz, align);
    var k := Fit(l, sz, align);
    if sz > 0 {
      if k == |l| { ExtendTiled(l, chunk, sz); }
      else if align { AlignedSplitTiled(l, k, sz); }
      else { SplitTiled(l, k, sz); }
    }
  }

  lemma ApplyTiled(l: seq<Block>, op: Op)
    requires Tiled(l) && Allowed(l, op)
    ensures Tiled(Apply(l, op))
  {
    match op
    case Alloc(sz, align, chunk) => AllocTiled(l, sz, align, chunk);
    case Free(k) => RemoveTiled(l, k);
    case Realloc(k, sz, chunk) =>
      if InPlace(l, k, sz) {
        ResizeTiled(l, k, sz);
      } else {
        AllocTiled(l, sz, false, chunk);
        RemoveTiled(AfterAlloc(l, sz, false, chunk), Placed(l, sz, false, k));
      }
  }

  /** A run: each operation allowed in the state the ones before it left. */
  ghost predicate IsRun(states: seq<seq<Block>>, ops: seq<Op>, start: nat, size: nat) {
    && size >= OVERHEAD && |states| == |ops| + 1 && states[0] == Init(start, size)
    && forall i :: 0 <= i < |ops| ==> Allowed(states[i], ops[i]) && states[i + 1] == Apply(states[i], ops[i])
  }

  /** In every state of every run from initKmalloc on the heap is tiled and its first chunk is where it was. */
  lemma {:induction false} RunTiled(states: seq<seq<Block>>, ops: seq<Op>, start: nat, size: nat, n: nat)
    requires IsRun(states, ops, start, size) && 0 < start && size < U32 && n < |states|
    ensures Tiled(states[n]) && states[n][0].addr == start && states[n][0].limit == start + size
    decreases n
  {
    if n == 0 {
      InitTiled(start, size);
    } else {
      RunTiled(states, ops, start, size, n - 1);
      ApplyTiled(states[n - 1], ops[n - 1]);
      FirstStays(states[n - 1], ops[n - 1]);
    }
  }

  lemma FirstStays(l: seq<Block>, op: Op)
    requires Tiled(l) && Allowed(l, op)
    ensures Apply(l, op) != [] && Apply(l, op)[0].addr == l[0].addr && Apply(l, op)[0].limit == l[0].limit
  {
    assert l != [];
    hide Tiled;
    match op
    case Alloc(sz, align, chunk) => AllocFirstStays(l, sz, align, chunk);
    case Free(k) => RemoveFirstStays(l, k);
    case Realloc(k, sz, chunk) =>
      if InPlace(l, k, sz) { ResizeFirstStays(l, k, sz); } else { AllocFirstStays(l, sz, false, chunk); }
  }

  lemma RemoveFirstStays(l: seq<Block>, k: nat)
    requires 0 < k < |l|
    ensures Remove(l, k) != [] && Remove(l, k)[0].addr == l[0].addr && Remove(l, k)[0].limit == l[0].limit
  {}

  lemma ResizeFirstStays(l: seq<Block>, k: nat, sz: nat)
    requires 0 < k < |l| && sz <= l[k].used + l[k].free
    ensures Resize(l, k, sz) != [] && Resize(l, k, sz)[0] == l[0]
  {}

  lemma AllocFirstStays(l: seq<Block>, sz: nat, align: bool, chunk: nat)
    requires l != [] && CanAlloc(l, sz, align, chunk)
    ensures var r := AfterAlloc(l, sz, align, chunk); r != [] && r[0].addr == l[0].addr && r[0].limit == l[0].limit
  {
    FitFits(l, sz, align);
  }

  /** In any run, in whatever order blocks are freed: when no block carved from the first chunk is left, the
      chunk is exactly as initKmalloc made it. */
  lemma RunCoalesces(states: seq<seq<Block>>, ops: seq<Op>, start: nat, size: nat, n: nat)
    requires IsRun(states, ops, start, size) && 0 < start && size < U32 && n < |states|
    requires |states[n]| == 1 || (|states[n]| > 1 && states[n][1].border)
    ensures states[n][..1] == Init(start, size)
  {
    RunTiled(states, ops, start, size, n);
    FullyCoalesced(states[n]);
  }
}
