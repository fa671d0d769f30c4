/** The buddy allocator of the physical memory manager, with the bit code repaired as its comments describe it. */
module Buddy {
  import opened BuddyMap
  import opened BuddyWords
  import opened PageBits
  import opened PhysOrder
  import opened Words

  const MEMORY_ALLOCATION_FAILED: nat := 0xFFF

  /** Blocks past the end of an order have no ancestors inside the orders above. */
  lemma {:induction false} UpOutside(m: seq<seq<bool>>, k: nat, n: nat, o: nat, j: nat)
    requires Shape(m) && k < o <= j < |m| && Up(n, o - k) >= |m[o]|
    ensures Up(n, j - k) >= |m[j]|
    decreases j - o
  {
    if j > o {
      UpOutside(m, k, n, o, j - 1);
      assert Halved(m, j - 1);
    }
  }

  lemma UntouchedRow(m: seq<seq<bool>>, k: nat, n: nat, o: nat, j: nat)
    requires Shape(m) && k < o <= j < |m| && Up(n, o - k) >= |m[o]|
    ensures MarkedRow(m[j], k, n, j) == m[j]
  {
    UpOutside(m, k, n, o, j);
  }

  lemma HolderRow(s: seq<bool>, k: nat, n: nat, o: nat)
    requires k <= o && Up(n, o - k) < |s|
    ensures s[Up(n, o - k) := true] == MarkedRow(s, k, n, o)
  {}

  /** The rows below `i` are marked for block `n` of order `k`, the others still as in `m0`. */
  ghost predicate MarkedUpTo(m: seq<seq<bool>>, m0: seq<seq<bool>>, k: nat, n: nat, i: nat) {
    |m| == |m0| && forall j :: 0 <= j < |m| ==> m[j] == if j < i then MarkedRow(m0[j], k, n, j) else m0[j]
  }

  lemma MarkedOneMore(m: seq<seq<bool>>, m0: seq<seq<bool>>, k: nat, n: nat, i: nat)
    requires MarkedUpTo(m, m0, k, n, i) && i < |m|
    ensures m[i] == m0[i] && MarkedUpTo(m[i := MarkedRow(m0[i], k, n, i)], m0, k, n, i + 1)
  {}

  lemma MarkedAll(m: seq<seq<bool>>, m0: seq<seq<bool>>, k: nat, n: nat, o: nat)
    requires Shape(m0) && k < o <= |m0| && MarkedUpTo(m, m0, k, n, o) && (o == |m0| || Up(n, o - k) >= |m0[o]|)
    ensures m == Marked(m0, k, n)
  {
    forall j: nat | o <= j < |m0|
      ensures MarkedRow(m0[j], k, n, j) == m0[j]
    {
      UntouchedRow(m0, k, n, o, j);
    }
  }

  /** The maps createRegion has made so far for `blocks` blocks, and the number of blocks of the next order. */
  ghost predicate Blank(m: seq<seq<bool>>, blocks: nat, blc: nat) {
    && Shape(m) && (forall k :: 0 <= k < |m| ==> m[k] == seq(|m[k]|, _ => false) && |m[k]| > 0)
    && if m == [] then blc == blocks else |m[0]| == blocks && blc == |m[|m| - 1]| / 2
  }

  lemma BlankStep(m: seq<seq<bool>>, blocks: nat, blc: nat)
    requires Blank(m, blocks, blc) && blc > 0
    ensures Blank(m + [seq(blc, _ => false)], blocks, blc / 2)
  {
    var r := m + [seq(blc, _ => false)];
    forall k: nat | k < |r| - 1
      ensures Halved(r, k)
    {
      if k < |m| - 1 { assert Halved(m, k); }
    }
  }

  lemma BlankSummary(m: seq<seq<bool>>, blocks: nat, blc: nat)
    requires Blank(m, blocks, blc)
    ensures Summary(m) && forall k :: 0 <= k < |m| ==> Count(m[k]) == 0
    ensures m == [] ==> blc == blocks
    ensures m != [] ==> |m[0]| == blocks && |m[|m| - 1]| > 0 && blc == |m[|m| - 1]| / 2
  {
    forall k: nat, p: nat | k < |m| - 1 && p < |m[k + 1]|
      ensures NodeSum(m, k, p)
    {
      assert Halved(m, k);
    }
    forall k | 0 <= k < |m|
      ensures Count(m[k]) == 0
    {
      CountNone(|m[k]|);
    }
  }

  lemma BlankComplete(m: seq<seq<bool>>, blocks: nat, blc: nat)
    requires Blank(m, blocks, blc) && |m| <= MAXORDER && (blc == 0 || |m| == MAXORDER)
    ensures CompleteFor(|m|, blocks)
  {
    forall k: nat | k < MAXORDER
      ensures k < |m| <==> Up(blocks, k) > 0
    {
      if k < |m| {
        RowLength(m, k);
      } else {
        if m != [] { RowLength(m, |m| - 1); }
        UpShrinks(blocks, |m|, k);
      }
    }
  }

  /** `orders` orders are one for every size of which a region of `blocks` minimum blocks has a block. */
  ghost predicate CompleteFor(orders: nat, blocks: nat) {
    orders <= MAXORDER && forall k: nat :: k < MAXORDER ==> (k < orders <==> Up(blocks, k) > 0)
  }

  /** How many blocks an order has. */
  lemma {:induction false} RowLength(m: seq<seq<bool>>, k: nat)
    requires Shape(m) && k < |m|
    ensures |m[k]| == Up(|m[0]|, k)
  {
    if k > 0 {
      RowLength(m, k - 1);
      assert Halved(m, k - 1);
    }
  }

  lemma {:induction false} UpShrinks(x: nat, d: nat, k: nat)
    requires d <= k
    ensures Up(x, k) <= Up(x, d)
    decreases k
  {
    if d < k { UpShrinks(x, d, k - 1); }
  }

  class Region {
    const base: nat
    const limit: nat
    var orders: seq<Order>
    ghost var maps: seq<seq<bool>>

    ghost predicate Stored()
      reads this
    {
      |maps| == |orders| && forall k :: 0 <= k < |maps| ==> Holds(orders[k], maps[k])
    }

    ghost predicate Valid()
      reads this
    {
      Stored() && Summary(maps) && base % PAGE_SZ == 0
    }

    /** The map of the minimum blocks. */
    ghost function Leaves(): seq<bool>
      reads this
    {
      if maps == [] then [] else maps[0]
    }

    /** There is an order for every size of which the region has a block. */
    ghost predicate Complete()
      reads this
    {
      CompleteFor(|maps|, |Leaves()|)
    }

    /** By the counters: if an order is fully allocated then the orders above are filled too. */
    lemma FullOrders(k: nat, j: nat)
      requires Valid() && k <= j < |orders| && orders[k].used >= orders[k].entryn
      ensures orders[j].used >= orders[j].entryn
    {
      CountAll(maps[k]);
      CountAll(maps[j]);
      FullAbove(maps, k, j);
    }

    /** One bit of one order. */
    method Mark(order: nat, idx: nat, bit: nat, v: bool)
      requires Stored() && order < |maps| && bit < 64 && idx * 64 + bit < |maps[order]|
      modifies this
      ensures Stored() && maps == Put(old(maps), order, idx * 64 + bit, v)
    {
      var o := orders[order];
      BitChanged(o, maps[order], idx, bit, v);
      var used := if v == o.entry[idx][bit] then o.used else if v then o.used + 1 else o.used - 1;
      orders := orders[order := Order(o.entryn, used, o.entry[idx := o.entry[idx][bit := v]])];
      maps := Put(maps, order, idx * 64 + bit, v);
    }

    method MarkBlock(order: nat, n: nat, v: bool)
      requires Stored() && order < |maps| && n < |maps[order]|
      modifies this
      ensures Stored() && maps == Put(old(maps), order, n, v)
    {
      Mark(order, n / 64, n % 64, v);
    }

    /** The blocks of one order from `a` up to `b`. */
    method MarkRange(order: nat, a: nat, b: nat)
      requires Stored() && order < |maps| && a <= b <= |maps[order]|
      modifies this
      ensures Stored() && maps == old(maps)[order := SetRange(old(maps)[order], a, b)]
    {
      var n := a;
      assert SetRange(maps[order], a, a) == maps[order];
      while n < b
        invariant a <= n <= b && Stored() && maps == old(maps)[order := SetRange(old(maps)[order], a, n)]
      {
        MarkBlock(order, n, true);
        assert SetRange(old(maps)[order], a, n)[n := true] == SetRange(old(maps)[order], a, n + 1);
        n := n + 1;
      }
    }

    /** setBit: the block, all blocks inside it and all that hold it. */
    method SetBit(order: nat, idx: nat, bit: nat)
      requires Valid() && order < |maps| && bit < 64 && idx * 64 + bit < |maps[order]|
      modifies this
      ensures Valid() && maps == Marked(old(maps), order, idx * 64 + bit)
    {
      ghost var m := maps;
      var n := idx * 64 + bit;
      MarkBelow(order, n);
      MarkedOneMore(maps, m, order, n, order);
      Mark(order, idx, bit, true);
      HolderRow(m[order], order, n, order);
      MarkAbove(order, n, m);
      MarkedSummary(m, order, n);
    }

    method MarkBelow(order: nat, n: nat)
      requires Valid() && order < |maps| && n < |maps[order]|
      modifies this
      ensures Stored() && MarkedUpTo(maps, old(maps), order, n, order)
    {
      var i := 0;
      while i < order
        invariant i <= order < |maps| && Stored() && MarkedUpTo(maps, old(maps), order, n, i)
      {
        MarkedOneMore(maps, old(maps), order, n, i);
        BlocksBelow(old(maps), order, n, i);
        MarkedRange(old(maps)[i], order, n, i);
        var first: nat, end: nat := Pow2(order - i) * n, Pow2(order - i) * (n + 1);
        hide *;
        MarkRange(i, first, end);
        i := i + 1;
      }
    }

    method MarkAbove(order: nat, n: nat, ghost m: seq<seq<bool>>)
      requires Stored() && order < |maps| && Shape(m) && MarkedUpTo(maps, m, order, n, order + 1)
      modifies this
      ensures Stored() && maps == Marked(m, order, n)
    {
      var o, p := order + 1, n / 2;
      while o < |orders| && p < orders[o].entryn
        invariant order < o <= |orders| == |m| && p == Up(n, o - order) && Stored()
        invariant MarkedUpTo(maps, m, order, n, o)
      {
        MarkedOneMore(maps, m, order, n, o);
        HolderRow(m[o], order, n, o);
        MarkBlock(o, p, true);
        o, p := o + 1, p / 2;
      }
      MarkedAll(maps, m, order, n, o);
    }

    /** freeBit, for a minimum block: the parents are freed as long as the other half is free too. */
    method FreeBit(idx: nat, bit: nat)
      requires Valid() && maps != [] && bit < 64 && idx * 64 + bit < |maps[0]|
      modifies this
      ensures Valid() && |maps| == |old(maps)| && maps[0] == old(maps)[0][idx * 64 + bit := false]
    {
      var order: nat, n: nat := 0, idx * 64 + bit;
      StartClearing(maps, n);
      while true
        invariant Stored() && order < |maps| == |old(maps)| && n < |maps[order]| && SummaryBut(maps, order, n)
        invariant order == 0 ==> n == idx * 64 + bit && maps == old(maps)
        invariant order > 0 ==> maps[0] == old(maps)[0][idx * 64 + bit := false]
        decreases |maps| - order
      {
        ClearStep(maps, order, n);
        MarkBlock(order, n, false);
        if order + 1 == |orders| || n / 2 >= orders[order + 1].entryn { return; }
        var other := if n % 2 == 1 then n - 1 else n + 1;
        var taken := IsSet(order, other);
        if taken { return; }
        order, n := order + 1, n / 2;
      }
    }

    method IsSet(order: nat, n: nat) returns (r: bool)
      requires Stored() && order < |maps| && n < |maps[order]|
      ensures r == maps[order][n]
    {
      assert WordIs(orders[order].entry[n / 64], maps[order], n / 64);
      r := orders[order].entry[n / 64][n % 64];
    }

    /** createRegion: an even number of minimum blocks, halved from order to order until none is left. */
    constructor (phys: nat, bytes: nat)
      requires phys % PAGE_SZ == 0
      ensures Valid() && base == phys && limit == phys + bytes
      ensures forall k :: 0 <= k < |maps| ==> Count(maps[k]) == 0
      ensures |maps| <= MAXORDER && |Leaves()| == BlockCount(bytes)
      ensures |maps| == MAXORDER || (maps == [] && |Leaves()| == 0) || |maps[|maps| - 1]| == 1
      ensures Complete() && forall x :: 0 <= x < |Leaves()| ==> !Leaves()[x]
    {
      base := phys;
      limit := phys + bytes;
      orders := [];
      maps := [];
      new;
      var blc: nat := bytes / ORDER_MIN_BLOCK_SIZE;
      if blc % 2 == 1 { blc := blc - 1; }
      ghost var blocks := blc;
      var order: nat := 0;
      while blc > 0 && order < MAXORDER
        invariant Stored() && Blank(maps, blocks, blc) && order == |maps| <= MAXORDER
        decreases MAXORDER - order
      {
        AddOrder(blc, blocks);
        order, blc := order + 1, blc / 2;
      }
      BlankSummary(maps, blocks, blc);
      BlankComplete(maps, blocks, blc);
      hide Blank, Holds, Count, Summary, CompleteFor;
    }

    method AddOrder(blc: nat, ghost blocks: nat)
      requires Stored() && Blank(maps, blocks, blc) && blc > 0
      modifies this
      ensures Stored() && Blank(maps, blocks, blc / 2) && |maps| == |old(maps)| + 1
    {
      EmptyOrder(blc);
      BlankStep(maps, blocks, blc);
      orders := orders + [Order(blc, 0, seq((blc + 63) / 64, _ => seq(64, _ => false)))];
      maps := maps + [seq(blc, _ => false)];
    }

    /** The search of allocRegion, word by word: the first clear bit of an order that is not full. */
    method FirstClear(order: nat) returns (idx: nat, bit: nat)
      requires Stored() && order < |maps| && orders[order].used < orders[order].entryn
      ensures bit < 64 && idx * 64 + bit < |maps[order]| && !maps[order][idx * 64 + bit]
      ensures forall j :: 0 <= j < idx * 64 + bit ==> maps[order][j]
    {
      ghost var s := maps[order];
      CountAll(s);
      var o := orders[order];
      var i := 0;
      idx, bit := 0, 0;
      while i < o.entryn
        invariant i == idx * 64 && bit == 0
        invariant forall j :: 0 <= j < i && j < |s| ==> s[j]
      {
        assert WordIs(o.entry[idx], s, idx);
        if o.entry[idx] != seq(64, _ => true) { break; }
        WordFull(s, idx, o.entry[idx]);
        i, idx := i + 64, idx + 1;
      }
      assert idx * 64 < |s|;
      var word := o.entry[idx];
      assert WordIs(word, s, idx);
      while i < o.entryn && bit < 64
        invariant bit <= 64 && i == idx * 64 + bit <= |s|
        invariant forall j :: 0 <= j < i ==> s[j]
        decreases 64 - bit
      {
        if !word[bit] { break; }
        i, bit := i + 1, bit + 1;
      }
    }

    /** allocRegion: the lowest free block of the order, or failure when each has an allocated part. */
    method AllocRegion(order: nat) returns (ptr: nat, ghost n: nat)
      requires Valid() && order < MAXORDER
      modifies this
      ensures Valid()
      ensures ptr == MEMORY_ALLOCATION_FAILED <==>
              order >= |old(maps)| || forall p :: 0 <= p < |old(maps)[order]| ==> Occupied(old(maps), order, p)
      ensures ptr == MEMORY_ALLOCATION_FAILED ==> maps == old(maps)
      ensures ptr != MEMORY_ALLOCATION_FAILED ==>
        && order < |old(maps)| && n < |old(maps)[order]| && ptr == base + Pow2(order) * n * ORDER_MIN_BLOCK_SIZE
        && !Occupied(old(maps), order, n) && (forall p :: 0 <= p < n ==> Occupied(old(maps), order, p))
        && maps == Marked(old(maps), order, n)
    {
      hide *;
      n := 0;
      OrdersStored();
      if order >= |orders| { return MEMORY_ALLOCATION_FAILED, 0; }
      FullIsOccupied(order);
      if orders[order].used >= orders[order].entryn { return MEMORY_ALLOCATION_FAILED, 0; }
      var idx, bit := FirstClear(order);
      n := idx * 64 + bit;
      ptr := base + Pow2(order) * (idx * 64 + bit) * ORDER_MIN_BLOCK_SIZE;
      AddressAligned(base, Pow2(order) * n, ptr);
      SetBit(order, idx, bit);
    }

    lemma OrdersStored()
      requires Valid()
      ensures Stored() && |orders| == |maps| && base % PAGE_SZ == 0
    {}

    /** An order is counted full exactly when each of its blocks has an allocated part. */
    lemma FullIsOccupied(order: nat)
      requires Valid() && order < |orders|
      ensures forall p :: 0 <= p < |maps[order]| ==> (maps[order][p] <==> Occupied(maps, order, p))
      ensures orders[order].used >= orders[order].entryn <==>
              forall p :: 0 <= p < |maps[order]| ==> Occupied(maps, order, p)
    {
      CountAll(maps[order]);
      MarkedIsOccupied(maps, order);
      assert Holds(orders[order], maps[order]);
    }

    /** allocPhysAddress, once the region is found: as many minimum blocks as the bytes alone would fill. */
    method Reserve(addr: nat, bytes: nat)
      requires Valid() && base <= addr
      requires (addr - base) / ORDER_MIN_BLOCK_SIZE + BlocksFor(bytes) <= |Leaves()|
      modifies this
      ensures Valid() && |maps| == |old(maps)|
      ensures var a := (addr - base) / ORDER_MIN_BLOCK_SIZE;
        Leaves() == SetRange(old(Leaves()), a, a + BlocksFor(bytes))
    {
      var ptr := addr / PAGE_SZ * PAGE_SZ;
      PageKeepsBlock(base, addr);
      ghost var a: nat := (addr - base) / ORDER_MIN_BLOCK_SIZE;
      ghost var n: nat := 0;
      var left: nat := bytes;
      assert SetRange(Leaves(), a, a) == Leaves();
      while left != 0
        invariant Valid() && |maps| == |old(maps)| && base <= ptr && (ptr - base) / ORDER_MIN_BLOCK_SIZE == a + n
        invariant n + BlocksFor(left) == BlocksFor(bytes)
        invariant Leaves() == SetRange(old(Leaves()), a, a + n)
      {
        ReserveStep(left);
        ReserveOne(ptr);
        assert SetRange(SetRange(old(Leaves()), a, a + n), a + n, a + n + 1) == SetRange(old(Leaves()), a, a + n + 1);
        left := if left > ORDER_MIN_BLOCK_SIZE then left - ORDER_MIN_BLOCK_SIZE else 0;
        ptr, n := ptr + ORDER_MIN_BLOCK_SIZE, n + 1;
      }
    }

    method ReserveOne(ptr: nat)
      requires Valid() && base <= ptr && (ptr - base) / ORDER_MIN_BLOCK_SIZE < |Leaves()|
      modifies this
      ensures Valid() && |maps| == |old(maps)|
      ensures var a := (ptr - base) / ORDER_MIN_BLOCK_SIZE; Leaves() == SetRange(old(Leaves()), a, a + 1)
    {
      var bit := (ptr - base) / ORDER_MIN_BLOCK_SIZE;
      MarkedRange(maps[0], 0, bit, 0);
      SetBit(0, bit / 64, bit % 64);
    }

    /** freePhys, once the region is found. */
    method FreePhys(ptr: nat)
      requires Valid() && base <= ptr && (ptr - base) / ORDER_MIN_BLOCK_SIZE < |Leaves()|
      modifies this
      ensures Valid() && |maps| == |old(maps)|
      ensures Leaves() == if ptr % PAGE_SZ != 0 then old(Leaves())
                          else old(Leaves())[(ptr - base) / ORDER_MIN_BLOCK_SIZE := false]
    {
      if ptr % PAGE_SZ != 0 { return; }
      var bit := (ptr - base) / ORDER_MIN_BLOCK_SIZE;
      FreeBit(bit / 64, bit % 64);
    }

    /** freeNPhys, once the region is found. The piece number has 32 bits and so has its product with the block
        size, so from 4 GiB on the same pieces are freed again; the byte count is unsigned, so the loop only ends on an
        exact zero. */
    method FreeNPhys(ptr: nat, bytes: nat)
      requires Valid() && base <= ptr && 0 < bytes < U64 && bytes % ORDER_MIN_BLOCK_SIZE == 0
      requires (ptr - base) / ORDER_MIN_BLOCK_SIZE + Pieces(bytes / ORDER_MIN_BLOCK_SIZE) <= |Leaves()|
      modifies this
      ensures Valid() && |maps| == |old(maps)|
      ensures var a := (ptr - base) / ORDER_MIN_BLOCK_SIZE;
        Leaves() == if ptr % PAGE_SZ != 0 then old(Leaves())
                    else ClearRange(old(Leaves()), a, a + Pieces(bytes / ORDER_MIN_BLOCK_SIZE))
    {
      if ptr % PAGE_SZ != 0 { return; }
      ghost var a: nat := (ptr - base) / ORDER_MIN_BLOCK_SIZE;
      ghost var count: nat, n: nat := bytes / ORDER_MIN_BLOCK_SIZE, 0;
      var i: nat, left: nat := 0, bytes;
      hide *;
      Cleared(Leaves(), a, 0, count);
      Counted(bytes, count);
      while true
        invariant Valid() && |maps| == |old(maps)| && n < count && Remaining(left, count - n) && PieceNumber(i, n)
        invariant Leaves() == ClearRange(old(Leaves()), a, a + Pieces(n))
        decreases count - n
      {
        Cleared(old(Leaves()), a, n, count);
        var done;
        done, i, left := FreeTurn(ptr, i, left, a, n, count);
        n := n + 1;
        if done { return; }
      }
    }

    /** One turn of its loop. */
    method FreeTurn(ptr: nat, i: nat, left: nat, ghost a: nat, ghost n: nat, ghost count: nat)
      returns (done: bool, i': nat, left': nat)
      requires Valid() && base <= ptr && ptr % PAGE_SZ == 0 && a == (ptr - base) / ORDER_MIN_BLOCK_SIZE
      requires n < count && PieceNumber(i, n) && Remaining(left, count - n) && a + n % PIECES < |Leaves()|
      modifies this
      ensures Valid() && |maps| == |old(maps)| && Leaves() == old(Leaves())[a + n % PIECES := false]
      ensures PieceNumber(i', n + 1) && Remaining(left', count - (n + 1)) && (done <==> n + 1 == count)
    {
      FreePiece(ptr, i, n);
      LeftStep(left, i, n, count);
      hide *;
      left' := (left + U64 - ORDER_MIN_BLOCK_SIZE) % U64;
      done, i' := left' == 0, (i + 1) % U32;
    }

    method FreePiece(ptr: nat, i: nat, ghost n: nat)
      requires Valid() && base <= ptr && ptr % PAGE_SZ == 0 && PieceNumber(i, n)
      requires (ptr - base) / ORDER_MIN_BLOCK_SIZE + n % PIECES < |Leaves()|
      modifies this
      ensures Valid() && |maps| == |old(maps)|
      ensures Leaves() == old(Leaves())[(ptr - base) / ORDER_MIN_BLOCK_SIZE + n % PIECES := false]
    {
      PieceOffset(i, n);
      PieceAt(base, ptr, n % PIECES);
      FreePhys(ptr + ORDER_MIN_BLOCK_SIZE * i % U32);
    }
  }

  lemma PieceAt(base: nat, ptr: nat, i: nat)
    requires base <= ptr
    ensures (ptr + ORDER_MIN_BLOCK_SIZE * i - base) / ORDER_MIN_BLOCK_SIZE == (ptr - base) / ORDER_MIN_BLOCK_SIZE + i
    ensures ptr % PAGE_SZ == 0 ==> (ptr + ORDER_MIN_BLOCK_SIZE * i) % PAGE_SZ == 0
  {
    var q, rest := (ptr - base) / ORDER_MIN_BLOCK_SIZE, (ptr - base) % ORDER_MIN_BLOCK_SIZE;
    DivUnique(ptr + ORDER_MIN_BLOCK_SIZE * i - base, ORDER_MIN_BLOCK_SIZE, q + i, rest);
    DivUnique(ptr + ORDER_MIN_BLOCK_SIZE * i, PAGE_SZ, ptr / PAGE_SZ + 4 * i, ptr % PAGE_SZ);
  }

  ghost predicate Remaining(left: nat, n: nat) { left == n * ORDER_MIN_BLOCK_SIZE < U64 }

  lemma LeftStep(left: nat, i: nat, n: nat, count: nat)
    requires n < count && Remaining(left, count - n) && PieceNumber(i, n)
    ensures U64 > 0 && U32 > 0 && left + U64 - ORDER_MIN_BLOCK_SIZE >= 0 && PieceNumber((i + 1) % U32, n + 1)
    ensures var next := (left + U64 - ORDER_MIN_BLOCK_SIZE) % U64;
      Remaining(next, count - (n + 1)) && (next == 0 <==> n + 1 == count)
  {}

  lemma Counted(bytes: nat, count: nat)
    requires 0 < bytes < U64 && bytes % ORDER_MIN_BLOCK_SIZE == 0 && count == bytes / ORDER_MIN_BLOCK_SIZE
    ensures 0 < count && Remaining(bytes, count) && PieceNumber(0, 0)
  {}

  /** Piece `n` by its number in 32 bits. */
  predicate PieceNumber(i: nat, n: nat) { i == n % U32 }

  /** The pieces that `n` turns of freeNPhys free. */
  function Pieces(n: nat): nat { if n < PIECES then n else PIECES }

  lemma PieceOffset(i: nat, n: nat)
    requires PieceNumber(i, n)
    ensures ORDER_MIN_BLOCK_SIZE * i % U32 == ORDER_MIN_BLOCK_SIZE * (n % PIECES)
  {
    DivTwice(n, PIECES, ORDER_MIN_BLOCK_SIZE, U32);
    DivIs(i, PIECES, i / PIECES, i % PIECES);
    DivUnique(ORDER_MIN_BLOCK_SIZE * i, U32, i / PIECES, ORDER_MIN_BLOCK_SIZE * (i % PIECES));
  }

  lemma Cleared(s: seq<bool>, a: nat, n: nat, count: nat)
    requires n < count ==> a + Pieces(count) <= |s|
    ensures Pieces(0) == 0 && ClearRange(s, a, a) == s && |ClearRange(s, a, a + Pieces(n))| == |s|
    ensures n < count ==>
              && PIECES > 0 && a + n % PIECES < |s|
              && ClearRange(s, a, a + Pieces(n))[a + n % PIECES := false] == ClearRange(s, a, a + Pieces(n + 1))
  {}

  const PIECES: nat := 0x4_0000

  function ClearRange(s: seq<bool>, a: nat, b: nat): seq<bool> {
    seq(|s|, x requires 0 <= x < |s| => s[x] && !(a <= x < b))
  }

  /** The address of piece `i` is right exactly for the first 2^18 pieces, 4 GiB. */
  lemma PieceReached(i: nat)
    ensures ORDER_MIN_BLOCK_SIZE * i % U32 == ORDER_MIN_BLOCK_SIZE * i <==> i < PIECES
  {}

  /** The minimum blocks of a region, an even number. */
  function BlockCount(bytes: nat): nat { bytes / ORDER_MIN_BLOCK_SIZE / 2 * 2 }

  /** As many pairs of blocks of 16 KiB as fit into a region. */
  lemma PairsFit(bytes: nat, n: nat)
    ensures 2 * n <= BlockCount(bytes) <==> 2 * n * 0x4000 <= bytes
    ensures BlockCount(bytes) % 2 == 0
  {}

  /** Of the pointers that freePhys takes to be in a region, its limit included, exactly those below the end of the last
      block have a block there; for the others, of which the limit always is one, it indexes behind the bitmap. */
  lemma FreeHasBlock(base: nat, bytes: nat, ptr: nat)
    requires base <= ptr <= base + bytes
    ensures (ptr - base) / ORDER_MIN_BLOCK_SIZE < BlockCount(bytes) <==>
            ptr < base + BlockCount(bytes) * ORDER_MIN_BLOCK_SIZE
    ensures ptr == base + bytes ==> (ptr - base) / ORDER_MIN_BLOCK_SIZE >= BlockCount(bytes)
  {}

  /** The byte count of freeNPhys when it frees piece `k`. */
  function LeftAt(bytes: nat, k: nat): nat {
    if k == 0 then bytes else (LeftAt(bytes, k - 1) + U64 - ORDER_MIN_BLOCK_SIZE) % U64
  }

  predicate EndsAt(bytes: nat, k: nat) { (LeftAt(bytes, k) + U64 - ORDER_MIN_BLOCK_SIZE) % U64 == 0 }

  /** freeNPhys comes to an end exactly for a multiple of the block size; for zero bytes only after 2^50 pieces. */
  lemma FreeEnds(bytes: nat)
    requires bytes < U64
    ensures (exists k: nat :: EndsAt(bytes, k)) <==> bytes % ORDER_MIN_BLOCK_SIZE == 0
    ensures bytes == 0 ==> EndsAt(bytes, 0x4_0000_0000_0000 - 1)
  {
    forall k: nat | EndsAt(bytes, k)
      ensures bytes % ORDER_MIN_BLOCK_SIZE == 0
    {
      LeftRest(bytes, k);
    }
    if bytes == 0 {
      ZeroEnds(0x4_0000_0000_0000 - 1);
    } else if bytes % ORDER_MIN_BLOCK_SIZE == 0 {
      LeftLinear(bytes, bytes / ORDER_MIN_BLOCK_SIZE - 1);
      assert EndsAt(bytes, bytes / ORDER_MIN_BLOCK_SIZE - 1);
    }
  }

  lemma ZeroEnds(k: nat)
    requires (k + 1) * ORDER_MIN_BLOCK_SIZE == U64
    ensures EndsAt(0, k)
  {
    LeftLinear(U64 - ORDER_MIN_BLOCK_SIZE, k - 1);
    LeftShift(k - 1);
  }

  lemma {:induction false} LeftRest(bytes: nat, k: nat)
    requires bytes < U64
    ensures LeftAt(bytes, k) < U64 && LeftAt(bytes, k) % ORDER_MIN_BLOCK_SIZE == bytes % ORDER_MIN_BLOCK_SIZE
  {
    if k > 0 {
      LeftRest(bytes, k - 1);
      WrapRest(LeftAt(bytes, k - 1));
    }
  }

  lemma WrapRest(left: nat)
    requires left < U64
    ensures (left + U64 - ORDER_MIN_BLOCK_SIZE) % U64 % ORDER_MIN_BLOCK_SIZE == left % ORDER_MIN_BLOCK_SIZE
  {
    var q, r := left / ORDER_MIN_BLOCK_SIZE, left % ORDER_MIN_BLOCK_SIZE;
    var next := (left + U64 - ORDER_MIN_BLOCK_SIZE) % U64;
    var t: nat := if q == 0 then U64 / ORDER_MIN_BLOCK_SIZE - 1 else q - 1;
    assert next == ORDER_MIN_BLOCK_SIZE * t + r;
    DivUnique(next, ORDER_MIN_BLOCK_SIZE, t, r);
  }

  lemma {:induction false} LeftLinear(bytes: nat, k: nat)
    requires k * ORDER_MIN_BLOCK_SIZE <= bytes < U64
    ensures LeftAt(bytes, k) == bytes - k * ORDER_MIN_BLOCK_SIZE
  {
    if k > 0 { LeftLinear(bytes, k - 1); }
  }

  lemma {:induction false} LeftShift(k: nat)
    ensures LeftAt(0, k + 1) == LeftAt(U64 - ORDER_MIN_BLOCK_SIZE, k)
  {
    if k > 0 { LeftShift(k - 1); }
  }

  /** allocPhysAddress reserves all bytes of its range exactly when the range, counted from the start of its first
      block, needs no more blocks than its size alone. */
  lemma ReserveCovers(base: nat, addr: nat, bytes: nat)
    requires base <= addr && bytes > 0
    ensures (forall x: nat :: addr <= x < addr + bytes ==> ReservedFor(base, addr, bytes, x))
      <==> (addr - base) % ORDER_MIN_BLOCK_SIZE + bytes <= BlocksFor(bytes) * ORDER_MIN_BLOCK_SIZE
  {
    forall x: nat | addr <= x < addr + bytes
      ensures ReservedFor(base, addr, bytes, x)
        <==> (addr - base) % ORDER_MIN_BLOCK_SIZE + (x - addr) < BlocksFor(bytes) * ORDER_MIN_BLOCK_SIZE
    {
      ReservedAt(base, addr, bytes, x);
    }
    if forall x: nat :: addr <= x < addr + bytes ==> ReservedFor(base, addr, bytes, x) {
      assert ReservedFor(base, addr, bytes, addr + bytes - 1);
    }
  }

  lemma ReservedAt(base: nat, addr: nat, bytes: nat, x: nat)
    requires base <= addr <= x
    ensures ReservedFor(base, addr, bytes, x)
      <==> (addr - base) % ORDER_MIN_BLOCK_SIZE + (x - addr) < BlocksFor(bytes) * ORDER_MIN_BLOCK_SIZE
  {}

  /** Byte `x` lies in a block that the reservation marks. */
  predicate ReservedFor(base: nat, addr: nat, bytes: nat, x: nat)
    requires base <= addr
  {
    base <= x && (addr - base) / ORDER_MIN_BLOCK_SIZE <= (x - base) / ORDER_MIN_BLOCK_SIZE
      < (addr - base) / ORDER_MIN_BLOCK_SIZE + BlocksFor(bytes)
  }

  // ---- Finding the region ---------------------------------------------------------------------------------

  datatype Range = Range(base: nat, limit: nat)

  ghost predicate RangesApart(rs: seq<Range>) {
    forall i, j :: 0 <= i < j < |rs| ==> rs[i].limit <= rs[j].base || rs[j].limit <= rs[i].base
  }

  /** The search of allocPhysAddress; the number of regions when it finds none. */
  method FindToReserve(rs: seq<Range>, addr: nat) returns (rn: nat)
    ensures rn <= |rs| && forall j :: 0 <= j < rn ==> !(rs[j].base < addr < rs[j].limit)
    ensures rn < |rs| ==> rs[rn].base < addr < rs[rn].limit
  {
    rn := 0;
    while rn < |rs|
      invariant rn <= |rs| && forall j :: 0 <= j < rn ==> !(rs[j].base < addr < rs[j].limit)
    {
      if rs[rn].base < addr && rs[rn].limit > addr { break; }
      rn := rn + 1;
    }
  }

  /** The search of freePhys. */
  method FindToFree(rs: seq<Range>, ptr: nat) returns (rn: nat)
    ensures rn <= |rs| && forall j :: 0 <= j < rn ==> !(rs[j].base <= ptr <= rs[j].limit)
    ensures rn < |rs| ==> rs[rn].base <= ptr <= rs[rn].limit
  {
    rn := 0;
    while rn < |rs|
      invariant rn <= |rs| && forall j :: 0 <= j < rn ==> !(rs[j].base <= ptr <= rs[j].limit)
    {
      if ptr >= rs[rn].base && ptr <= rs[rn].limit { break; }
      rn := rn + 1;
    }
  }

  /** What the two searches find for an address in region `i`: reserving misses the first byte of a region, and
      freeing takes an earlier region that ends where this one starts. */
  method Owner(rs: seq<Range>, i: nat, addr: nat) returns (reserve: nat, free: nat)
    requires RangesApart(rs) && i < |rs| && rs[i].base <= addr < rs[i].limit
    ensures reserve == i <==> addr != rs[i].base
    ensures addr == rs[i].base && (forall j :: 0 <= j < |rs| ==> rs[j].base < rs[j].limit) ==> reserve == |rs|
    ensures free == i <==> forall j :: 0 <= j < i ==> rs[j].limit != addr || rs[j].base > addr
  {
    reserve := FindToReserve(rs, addr);
    free := FindToFree(rs, addr);
  }

  // ---- Helpers ---------------------------------------------------------------------------------------------

  lemma MarkedIsOccupied(m: seq<seq<bool>>, k: nat)
    requires Summary(m) && k < |m|
    ensures forall p :: 0 <= p < |m[k]| ==> (m[k][p] <==> Occupied(m, k, p))
  {
    forall p | 0 <= p < |m[k]|
      ensures m[k][p] <==> Occupied(m, k, p)
    {
      SummaryMeans(m, k, p);
    }
  }

  /** The minimum blocks that `bytes` bytes fill. */
  function BlocksFor(bytes: nat): nat { (bytes + ORDER_MIN_BLOCK_SIZE - 1) / ORDER_MIN_BLOCK_SIZE }

  /** They are the least number of blocks of 16 KiB that hold so many bytes. */
  lemma BlocksLeast(bytes: nat, n: nat)
    ensures BlocksFor(bytes) <= n <==> bytes <= n * 0x4000
  {}

  lemma ReserveStep(left: nat)
    requires left > 0
    ensures BlocksFor(left) == 1 + BlocksFor(if left > ORDER_MIN_BLOCK_SIZE then left - ORDER_MIN_BLOCK_SIZE else 0)
  {}

  lemma AddressAligned(base: nat, n: nat, ptr: nat)
    requires base % PAGE_SZ == 0 && ptr == base + n * ORDER_MIN_BLOCK_SIZE
    ensures ptr != MEMORY_ALLOCATION_FAILED
  {}

  /** Rounding an address down to its page leaves it in its block, as regions start on a page. */
  lemma PageKeepsBlock(base: nat, addr: nat)
    requires base % PAGE_SZ == 0 && base <= addr
    ensures base <= addr / PAGE_SZ * PAGE_SZ
    ensures (addr / PAGE_SZ * PAGE_SZ - base) / ORDER_MIN_BLOCK_SIZE == (addr - base) / ORDER_MIN_BLOCK_SIZE
  {
    var b, f := base / PAGE_SZ, addr / PAGE_SZ;
    var n: nat := f - b;
    DivUnique(addr - base, PAGE_SZ, n, addr % PAGE_SZ);
    DivUnique(f * PAGE_SZ - base, PAGE_SZ, n, 0);
  }

  lemma WordFull(s: seq<bool>, idx: nat, w: seq<bool>)
    requires WordIs(w, s, idx) && w == seq(64, _ => true)
    ensures idx * 64 + 63 < |s| && forall j :: idx * 64 <= j < idx * 64 + 64 ==> s[j]
  {
    assert w[63];
    forall j | idx * 64 <= j < idx * 64 + 64
      ensures s[j]
    {
      assert w[j - idx * 64];
    }
  }

  lemma EmptyOrder(blc: nat)
    ensures Holds(Order(blc, 0, seq((blc + 63) / 64, _ => seq(64, _ => false))), seq(blc, _ => false))
  {
    CountNone(blc);
  }
}
