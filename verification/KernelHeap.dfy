/** kmalloc, kfree and krealloc on the heap in memory. */
module KernelHeap {
  import opened HeapList
  import opened HeapMemory
  import opened PageBits
  import opened Words

  lemma KmallocKeeps(l: seq<Block>, sz: nat, align: bool, chunk: nat, i: nat)
    requires CanAlloc(l, sz, align, chunk) && i < |l|
    ensures var r, j := AfterAlloc(l, sz, align, chunk), Placed(l, sz, align, i);
      j < |r| && r[j].addr == l[i].addr && r[j].used == l[i].used
  {
    FitFits(l, sz, align);
    ExtendSuffices(sz + OVERHEAD);
    var k := Fit(l, sz, align);
    var r := AfterAlloc(l, sz, align, chunk);
    if sz == 0 {
      assert r == l;
    } else if k == |l| {
      assert r == HeapList.Extend(l, chunk, sz);
    } else if align {
      assert r == Cut(l, k, BeforeAligned(l[k], sz), AlignedBlock(l[k], sz));
      CutKeeps(l, k, BeforeAligned(l[k], sz), AlignedBlock(l[k], sz), i);
    } else {
      assert r == Cut(l, k, l[k].(free := 0), Carved(l[k], sz));
      CutKeeps(l, k, l[k].(free := 0), Carved(l[k], sz), i);
    }
  }

  lemma CutKeeps(l: seq<Block>, k: nat, a: Block, b: Block, i: nat)
    requires k < |l| && i < |l| && a.addr == l[k].addr && a.used == l[k].used
    ensures var r, j := Cut(l, k, a, b), if k < i then i + 1 else i;
      j < |r| && r[j].addr == l[i].addr && r[j].used == l[i].used
  {
    CutAt(l, k, a, b, if k < i then i + 1 else i);
  }

  /** What an allocation keeps of the payloads of the list after it, it keeps of those of the list before. */
  lemma OldPayloadsKept(m: Mem, m': Mem, l: seq<Block>, sz: nat, align: bool, chunk: nat)
    requires CanAlloc(l, sz, align, chunk) && PayloadsKept(m, m', AfterAlloc(l, sz, align, chunk))
    ensures PayloadsKept(m, m', l)
  {
    forall i: nat | i < |l|
      ensures SamePayload(m, m', l[i])
    {
      KmallocKeeps(l, sz, align, chunk, i);
      assert SamePayload(m, m', AfterAlloc(l, sz, align, chunk)[Placed(l, sz, align, i)]);
    }
  }

  /** extendHeap's computation of the slack of a new chunk, with the page count and the sizes in 32 bits. Together with
      header and redzone it is what vmalloc is asked for, exactly for requests below 2^32 bytes less five pages. */
  method ExtensionSlack(csz: nat) returns (free: nat)
    ensures free == ExtendFree(csz)
    ensures csz < U32 - 5 * PAGE_SZ <==> free + OVERHEAD == ExtendBytes(csz) >= csz
  {
    ExtendSuffices(csz);
    var pages := csz / 0x1000 % U32;
    var min := (pages + 5) % U32 * 0x1000 % U32;
    free := (min + U32 - (HEADER + 8)) % U32;
  }

  lemma ExtendMakes(l: seq<Block>, chunk: nat, sz: nat, last: nat)
    requires Tiled(l) && CanExtend(l, sz, chunk)
    ensures ExtendFree(sz + OVERHEAD) >= sz && HeapList.Extend(l, chunk, sz) == l + [NewChunk(chunk, sz)]
    ensures Tiled(l + [NewChunk(chunk, sz)]) && l != []
    ensures (l + [NewChunk(chunk, sz)])[0].addr == l[0].addr
    ensures NewHeader(NewChunk(chunk, sz), last, 0)
            == Header(KHEAP_MAGIC, sz, ExtendFree(sz + OVERHEAD) - sz, true, last, 0)
    ensures NewChunk(chunk, sz).addr == chunk && OVERHEAD == 8 + HEADER
  {
    ExtendSuffices(sz + OVERHEAD);
    ExtendTiled(l, chunk, sz);
  }

  /** Where the new block is, by what the list was. */
  lemma Returned(l: seq<Block>, sz: nat, align: bool, chunk: nat, r: seq<Block>, j: nat, ptr: nat)
    requires CanAlloc(l, sz, align, chunk) && sz > 0 && r == AfterAlloc(l, sz, align, chunk)
    requires j < |r| && ptr == r[j].addr + HEADER
    requires j == (if Fit(l, sz, align) < |l| then Fit(l, sz, align) + 1 else |l|)
    ensures forall i: nat :: FirstWithRoom(l, sz, align, i) ==>
              ptr == l[i].addr + l[i].used + if align then 40 + BoundaryAfter(l[i]) else 72
    ensures (forall i :: 0 <= i < |l| ==> !HasRoom(l[i], sz, align)) ==> ptr == chunk + 32
  {
    FitIsFirst(l, sz, align);
    AllocMakes(l, sz, align, chunk);
    hide Fit, AfterAlloc, CanAlloc;
  }

  class Heap {
    var mem: Mem
    const startBlock: nat
    ghost var list: seq<Block>

    ghost predicate Valid()
      reads this
    {
      Tiled(list) && Stored(mem, list) && list[0].addr == startBlock
    }

    /** initKmalloc. */
    constructor (heapStart: nat, size: nat, memory: Mem)
      requires 0 < heapStart && OVERHEAD <= size < U32
      ensures Valid() && list == Init(heapStart, size)
    {
      startBlock := heapStart;
      ghost var l := Init(heapStart, size);
      InitTiled(heapStart, size);
      var h := Header(KHEAP_MAGIC, 0, size - OVERHEAD, false, 0, 0);
      WriteHeader(memory, l, 0, h, {0}, {0}, {});
      WriteRedzone(PutHeader(memory, heapStart, h), l, 0, {}, {0}, {});
      mem := PutRedzone(PutHeader(memory, heapStart, h), heapStart + HEADER);
      list := l;
    }

    lemma ListStored()
      requires Valid()
      ensures Tiled(list) && Stored(mem, list) && list != [] && list[0].addr == startBlock
    {}

    /** Reading a block of the list: checkMagic and checkRedzone cannot fail on it. */
    method Load(block: nat, ghost k: nat) returns (h: Header)
      requires Valid() && k < |list| && block == list[k].addr
      ensures h == HeaderOf(list, k) && h.magic == KHEAP_MAGIC
      ensures h == Header(0xFEEF, list[k].used, list[k].free, list[k].border, if k == 0 then 0 else list[k - 1].addr,
                          if k + 1 == |list| then 0 else list[k + 1].addr)
      ensures mem.rdz(block + HEADER + h.used) == Some(KHEAP_REDZONE_MAGIC) == Some(0xABCD_EFFE_DCAB_CAFE)
    {
      assert BlockStored(mem, list, k);
      h := mem.hdr(block).value;
    }

    /** The search loop of kmallocInt, repaired to go on after a block whose offset is too small. */
    method Search(sz: nat, align: bool) returns (block: nat, split: bool, ghost k: nat)
      requires Valid()
      ensures split <==> Fit(list, sz, align) < |list|
      ensures k == if split then Fit(list, sz, align) else |list| - 1
      ensures k < |list| && block == list[if split then Fit(list, sz, align) else |list| - 1].addr
    {
      var csz := sz + 8 + HEADER;
      block, split, k := startBlock, false, 0;
      while true
        invariant k < |list| && block == list[k].addr && !split
        invariant Fit(list, sz, align) == if align then FirstAligned(list, sz, k) else FirstFit(list, csz, k)
        decreases |list| - k
      {
        var h := Load(block, k);
        if align {
          var off := 0x1000 - (block + h.used + HEADER + 8) % 0x1000;
          if off >= HEADER && h.free >= csz + off {
            split := true;
            break;
          }
        }
        if h.free >= csz && !align {
          split := true;
          break;
        }
        if h.next == 0 { break; }
        assert k + 1 < |list|;
        block, k := h.next, k + 1;
      }
    }

    /** The stores that put a new block behind block `k`. */
    method Insert(ghost k: nat, ghost a: Block, ghost b: Block, block: nat, newFree: nat, nblock: nat, sz: nat,
                  free: nat)
      requires Valid() && k < |list| && Halves(list[k], a, b) && block == a.addr && newFree == a.free
      requires nblock == b.addr && sz == b.used && free == b.free
      modifies this
      ensures Valid() && list == Cut(old(list), k, a, b) && PayloadsKept(old(mem), mem, list)
    {
      var h := Load(block, k);
      var n := None;
      if h.next != 0 {
        var nh := Load(h.next, k + 1);
        n := Some(nh);
      }
      Inserted(mem, list, k, a, b, h, n);
      mem := InsertMem(mem, h, block, nblock, Header(KHEAP_MAGIC, sz, free, false, block, h.next), newFree, n);
      list := Cut(list, k, a, b);
    }

    method SetMem(next: Mem, ghost l: seq<Block>)
      requires Tiled(l) && Stored(next, l) && l[0].addr == startBlock
      modifies this
      ensures Valid() && mem == next && list == l
    {
      mem := next;
      list := l;
    }

    /** The rest of kmallocInt when a block with room was found: the new block lies in its slack. */
    method Carve(sz: nat, align: bool, block: nat, ghost k: nat) returns (nblock: nat)
      requires Valid() && sz > 0 && k == Fit(list, sz, align) && k < |list| && block == list[k].addr
      modifies this
      ensures Valid()
      ensures list == (FitFits(old(list), sz, align);
                       if align then AlignedSplit(old(list), k, sz) else Split(old(list), k, sz))
      ensures nblock == list[k + 1].addr && list[k + 1].used == sz
      ensures align ==> (nblock + HEADER) % PAGE_SZ == 0
      ensures PayloadsKept(old(mem), mem, list)
    {
      FitFits(list, sz, align);
      var h := Load(block, k);
      var base := block + h.used + HEADER + 8;
      var maxPtr := base + h.free;
      if align {
        AlignedArithmetic(list[k], sz);
        nblock := base + (0x1000 - base % 0x1000) - HEADER;
        Insert(k, BeforeAligned(list[k], sz), AlignedBlock(list[k], sz), block, nblock - block - (HEADER + 8 + h.used),
               nblock, sz, maxPtr - nblock - (HEADER + 8 + sz));
      } else {
        nblock := base;
        Insert(k, list[k].(free := 0), Carved(list[k], sz), block, 0, nblock, sz, maxPtr - nblock - (HEADER + 8 + sz));
      }
    }

    /** extendHeap, and the rest of kmallocInt when no block had room: `chunk` is what vmalloc returned. */
    method Extend(sz: nat, chunk: nat, block: nat) returns (nblock: nat)
      requires Valid() && sz > 0 && block == list[|list| - 1].addr && CanExtend(list, sz, chunk)
      modifies this
      ensures Valid() && ExtendFree(sz + OVERHEAD) >= sz && list == HeapList.Extend(old(list), chunk, sz)
      ensures nblock == chunk && PayloadsKept(old(mem), mem, list)
    {
      hide *;
      ListStored();
      ExtendMakes(list, chunk, sz, block);
      var free := ExtensionSlack(sz + (8 + HEADER));
      nblock := chunk;
      var h := Load(block, |list| - 1);
      Extended(mem, list, NewChunk(chunk, sz), h);
      SetMem(ExtendMem(mem, h, block, nblock, Header(KHEAP_MAGIC, sz, free - sz, true, block, 0)),
             HeapList.Extend(list, chunk, sz));
    }

    /** kmallocInt, with the two repairs to its aligned path. The block it returns is the new one, number `j`. */
    method KmallocInt(sz: nat, align: bool, chunk: nat) returns (ptr: nat, ghost j: nat)
      requires Valid() && CanAlloc(list, sz, align, chunk)
      modifies this
      ensures Valid() && list == AfterAlloc(old(list), sz, align, chunk) && PayloadsKept(old(mem), mem, old(list))
      ensures sz == 0 ==> ptr == 0 && mem == old(mem)
      ensures sz > 0 ==> 0 < j < |list| && ptr == list[j].addr + HEADER && list[j].used == sz
      ensures sz > 0 ==> forall i :: 0 <= i < |old(list)| ==> Placed(old(list), sz, align, i) != j
      ensures sz > 0 && align && Fit(old(list), sz, align) < |old(list)| ==> ptr % PAGE_SZ == 0
      ensures sz > 0 && align && chunk % PAGE_SZ == 0 ==>
              (ptr % PAGE_SZ == 0 <==> Fit(old(list), sz, align) < |old(list)|)
      ensures sz > 0 ==> forall i: nat :: FirstWithRoom(old(list), sz, align, i) ==>
              ptr == old(list)[i].addr + old(list)[i].used + if align then 40 + BoundaryAfter(old(list)[i]) else 72
      ensures sz > 0 && (forall i :: 0 <= i < |old(list)| ==> !HasRoom(old(list)[i], sz, align)) ==> ptr == chunk + 32
    {
      ghost var l, m := list, mem;
      if sz == 0 {
        ptr, j := 0, 0;
        return;
      }
      FitFits(list, sz, align);
      var block, split, k := Search(sz, align);
      assert split || CanExtend(list, sz, chunk);
      var nblock;
      if split {
        nblock := Carve(sz, align, block, k);
      } else {
        nblock := Extend(sz, chunk, block);
        if chunk % PAGE_SZ == 0 { ExtensionIsUnaligned(chunk); }
      }
      ptr, j := nblock + HEADER, k + 1;
      OldPayloadsKept(m, mem, l, sz, align, chunk);
      Returned(l, sz, align, chunk, list, j, ptr);
    }

    /** kfreeInt; shrinkHeap calls vmFree, which does nothing. */
    method KfreeInt(ptr: nat, ghost k: nat)
      requires Valid() && CanFree(list, k) && ptr == list[k].addr + HEADER
      modifies this
      ensures Valid() && list == Remove(old(list), k) && PayloadsKept(old(mem), mem, list)
      ensures mem.hdr(ptr - HEADER).Some? && mem.hdr(ptr - HEADER).value.magic == 0
    {
      var block := ptr - HEADER;
      var h := Load(block, k);
      var p := Load(h.prev, k - 1);
      var n := None;
      if h.next != 0 {
        var nh := Load(h.next, k + 1);
        n := Some(nh);
      }
      Freed(mem, list, k, p, h, n);
      mem := FreeMem(mem, p, h, block, n);
      list := Remove(list, k);
    }

    /** A client storing in its own payload. */
    method Store(at: nat, v: nat, ghost k: nat)
      requires Valid() && k < |list| && InPayload(list[k], at)
      modifies this
      ensures Valid() && list == old(list) && mem.byte(at) == Some(v)
      ensures forall b: nat :: b != at ==> mem.byte(b) == old(mem).byte(b)
      ensures forall i :: 0 <= i < |list| && i != k ==> SamePayload(old(mem), mem, list[i])
    {
      ClientStore(mem, list, k, at, v);
      mem := PutByte(mem, at, v);
    }

    /** memcpy into the payload of block `j`, taken at its contract (C11, section 7.24.2.1). */
    method Memcpy(dest: nat, src: nat, len: nat, ghost j: nat)
      requires Valid() && j < |list| && dest == list[j].addr + HEADER && len <= list[j].used
      requires len > 0 ==> Apart(dest, len, src, len)
      modifies this
      ensures Valid() && list == old(list) && Moved(old(mem), mem, dest, src, len)
      ensures forall b: nat :: !(dest <= b < dest + len) ==> mem.byte(b) == old(mem).byte(b)
      ensures forall i :: 0 <= i < |list| && i != j ==> SamePayload(old(mem), mem, list[i])
    {
      CopiedInto(mem, list, j, src, len);
      mem := Copy(mem, dest, src, len);
    }

    /** krealloc: block `k` becomes block `j`, of `sz` bytes, and what fits of its payload is kept. It stays where it is
        exactly when its bytes and slack suffice, and otherwise moves to where kmalloc would put it. */
    method Krealloc(ptr: nat, sz: nat, chunk: nat, ghost k: nat) returns (nptr: nat, ghost j: nat)
      requires Valid() && Allowed(list, Realloc(k, sz, chunk)) && ptr == list[k].addr + HEADER
      modifies this
      ensures Valid() && list == Apply(old(list), Realloc(k, sz, chunk))
      ensures j < |list| && nptr == list[j].addr + HEADER && list[j].used == sz
      ensures Moved(old(mem), mem, nptr, ptr, if old(list[k].used) < sz then old(list[k].used) else sz)
      ensures forall i :: 0 <= i < |old(list)| && i != k ==> SamePayload(old(mem), mem, old(list)[i])
      ensures nptr == ptr <==> old(list[k].used + list[k].free) >= sz
      ensures nptr != ptr ==> forall i: nat :: FirstWithRoom(old(list), sz, false, i) ==>
              nptr == old(list)[i].addr + old(list)[i].used + 72
      ensures nptr != ptr && (forall i :: 0 <= i < |old(list)| ==> !HasRoom(old(list)[i], sz, false)) ==>
              nptr == chunk + 32
    {
      var block := ptr - HEADER;
      var h := Load(block, k);
      if h.used == sz {
        nptr, j := ptr, k;
        assert Resize(list, k, sz) == list;
        return;
      }
      if h.used + h.free >= sz {
        ResizeInPlace(block, sz, k);
        nptr, j := ptr, k;
        return;
      }
      nptr, j := Move(ptr, h.used, sz, chunk, k);
    }

    /** krealloc when the block and its slack can take the new size. */
    method ResizeInPlace(block: nat, sz: nat, ghost k: nat)
      requires Valid() && 0 < k < |list| && block == list[k].addr && sz <= list[k].used + list[k].free
      modifies this
      ensures Valid() && list == Resize(old(list), k, sz)
      ensures Moved(old(mem), mem, block + HEADER, block + HEADER,
                    if old(list[k].used) < sz then old(list[k].used) else sz)
      ensures forall i :: 0 <= i < |list| && i != k ==> SamePayload(old(mem), mem, old(list)[i])
    {
      ghost var l, m := list, mem;
      var h := Load(block, k);
      ResizedInPlace(mem, list, k, h, sz);
      mem := ResizeMem(mem, h, block, sz);
      list := Resize(list, k, sz);
      forall i: nat | i < |list|
        ensures SamePayload(m, mem, list[i]) && (i != k ==> list[i] == l[i])
      {
      }
    }

    /** krealloc by way of a new block. */
    method Move(ptr: nat, used: nat, sz: nat, chunk: nat, ghost k: nat) returns (nptr: nat, ghost j: nat)
      requires Valid() && Allowed(list, Realloc(k, sz, chunk)) && !InPlace(list, k, sz)
      requires ptr == list[k].addr + HEADER && used == list[k].used
      modifies this
      ensures Valid() && list == Apply(old(list), Realloc(k, sz, chunk))
      ensures j < |list| && nptr == list[j].addr + HEADER && list[j].used == sz
      ensures Moved(old(mem), mem, nptr, ptr, used)
      ensures forall i :: 0 <= i < |old(list)| && i != k ==> SamePayload(old(mem), mem, old(list)[i])
      ensures nptr != ptr
      ensures forall i: nat :: FirstWithRoom(old(list), sz, false, i) ==>
              nptr == old(list)[i].addr + old(list)[i].used + 72
      ensures (forall i :: 0 <= i < |old(list)| ==> !HasRoom(old(list)[i], sz, false)) ==> nptr == chunk + 32
    {
      ghost var l0, m0 := list, mem;
      MoveAllowed(list, k, sz, chunk);
      hide *;
      var n, jn := KmallocInt(sz, false, chunk);
      ghost var l1, m1, k1 := list, mem, Placed(l0, sz, false, k);
      KmallocKeeps(l0, sz, false, chunk, k);
      MoveApart(this, jn, k1, used);
      MoveElsewhere(this, jn, k1);
      Memcpy(n, ptr, used, jn);
      ghost var m2 := mem;
      KfreeInt(ptr, k1);
      nptr := n;
      j := RemoveKeepsAt(l1, k1, jn);
      MoveKept(l0, l1, m0, m1, m2, mem, sz, chunk, k, jn);
    }
  }

  lemma MoveAllowed(l: seq<Block>, k: nat, sz: nat, chunk: nat)
    requires Allowed(l, Realloc(k, sz, chunk)) && k < |l| && !InPlace(l, k, sz)
    ensures 0 < l[k].used + 1 <= sz && CanAlloc(l, sz, false, chunk)
    ensures var r, k1 := AfterAlloc(l, sz, false, chunk), Placed(l, sz, false, k);
      CanFree(r, k1) && 0 < k1 < |r| && Apply(l, Realloc(k, sz, chunk)) == Remove(r, k1)
  {}

  lemma MoveApart(heap: Heap, j: nat, k: nat, n: nat)
    requires heap.Valid() && j < |heap.list| && k < |heap.list| && j != k
    requires n <= heap.list[j].used && n <= heap.list[k].used
    ensures n > 0 ==> Apart(heap.list[j].addr + HEADER, n, heap.list[k].addr + HEADER, n)
  {}

  lemma MoveElsewhere(heap: Heap, j: nat, k: nat)
    requires heap.Valid() && j < |heap.list| && k < |heap.list| && j != k
    ensures heap.list[j].addr != heap.list[k].addr
  {
    var a, b := heap.list[if j < k then j else k], heap.list[if j < k then k else j];
    assert Disjoint(a, b);
  }

  lemma RemoveKeepsAt(l: seq<Block>, k: nat, i: nat) returns (j: nat)
    requires 0 < k < |l| && i < |l| && i != k
    ensures j < |Remove(l, k)| && Remove(l, k)[j].addr == l[i].addr && Remove(l, k)[j].used == l[i].used
  {
    j := if i < k then i else i - 1;
    assert Remove(l, k) == Drop(l, k, Merged(l, k));
    DropAt(l, k, Merged(l, k), j);
  }

  /** What the three steps of a move leave of the payloads. */
  lemma MoveKept(l0: seq<Block>, l1: seq<Block>, m0: Mem, m1: Mem, m2: Mem, m3: Mem, sz: nat, chunk: nat, k: nat,
                 j: nat)
    requires CanAlloc(l0, sz, false, chunk) && l1 == AfterAlloc(l0, sz, false, chunk) && PayloadsKept(m0, m1, l0)
    requires k < |l0| && j < |l1| && l0[k].used <= sz == l1[j].used
    requires forall i :: 0 <= i < |l0| ==> Placed(l0, sz, false, i) != j
    requires forall i :: 0 <= i < |l1| && i != j ==> SamePayload(m1, m2, l1[i])
    requires Moved(m1, m2, l1[j].addr + HEADER, l0[k].addr + HEADER, l0[k].used)
    requires 0 < Placed(l0, sz, false, k) < |l1| && PayloadsKept(m2, m3, Remove(l1, Placed(l0, sz, false, k)))
    ensures Moved(m0, m3, l1[j].addr + HEADER, l0[k].addr + HEADER, l0[k].used)
    ensures forall i :: 0 <= i < |l0| && i != k ==> SamePayload(m0, m3, l0[i])
  {
    var k1 := Placed(l0, sz, false, k);
    RemoveKeeps(m2, m3, l1, k1, j);
    assert SamePayload(m0, m1, l0[k]);
    forall at: nat | l1[j].addr + HEADER <= at < l1[j].addr + HEADER + l0[k].used
      ensures m3.byte(at) == m0.byte(l0[k].addr + HEADER + (at - (l1[j].addr + HEADER)))
    {
      assert InPayload(l1[j], at) && InPayload(l0[k], l0[k].addr + HEADER + (at - (l1[j].addr + HEADER)));
    }
    forall i: nat | i < |l0| && i != k
      ensures SamePayload(m0, m3, l0[i])
    {
      var i1 := Placed(l0, sz, false, i);
      KmallocKeeps(l0, sz, false, chunk, i);
      RemoveKeeps(m2, m3, l1, k1, i1);
      assert SamePayload(m0, m1, l0[i]) && SamePayload(m1, m2, l1[i1]) && SamePayload(m2, m3, l1[i1]);
    }
  }

  lemma RemoveKeeps(m: Mem, m': Mem, l: seq<Block>, k: nat, i: nat)
    requires 0 < k < |l| && i < |l| && i != k && PayloadsKept(m, m', Remove(l, k))
    ensures SamePayload(m, m', l[i])
  {
    var j := RemoveKeepsAt(l, k, i);
    assert SamePayload(m, m', Remove(l, k)[j]);
  }
}
