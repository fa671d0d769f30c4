/** The memory of the kernel heap: block headers, redzones and payload bytes in one address space. A store
    destroys whatever else lies on the bytes it covers, so reading a header or a redzone back is only possible
    where nothing was stored over it. */
module HeapMemory {
  import opened HeapList
  import opened Words

  const KHEAP_MAGIC: nat := 0xFEEF
  const KHEAP_REDZONE_MAGIC: nat := 0xABCDEFFEDCABCAFE

  datatype Option<T> = None | Some(value: T)

  /** kheapBlock; `used` is its field `allocated`, and 0 is the null pointer. */
  datatype Header = Header(magic: nat, used: nat, free: nat, border: bool, prev: nat, next: nat)

  datatype Mem = Mem(hdr: nat -> Option<Header>, rdz: nat -> Option<nat>, byte: nat -> Option<nat>)

  /** What is left when `n` bytes from `a` on are overwritten. */
  function Wipe(m: Mem, a: nat, n: nat): Mem {
    Mem((k: nat) => if Apart(k, HEADER, a, n) then m.hdr(k) else None,
        (k: nat) => if Apart(k, 8, a, n) then m.rdz(k) else None,
        (k: nat) => if Apart(k, 1, a, n) then m.byte(k) else None)
  }

  function PutHeader(m: Mem, a: nat, h: Header): Mem {
    var w := Wipe(m, a, HEADER);
    w.(hdr := (k: nat) => if k == a then Some(h) else w.hdr(k))
  }

  function PutRedzone(m: Mem, a: nat): Mem {
    var w := Wipe(m, a, 8);
    w.(rdz := (k: nat) => if k == a then Some(KHEAP_REDZONE_MAGIC) else w.rdz(k))
  }

  function PutByte(m: Mem, a: nat, v: nat): Mem {
    var w := Wipe(m, a, 1);
    w.(byte := (k: nat) => if k == a then Some(v) else w.byte(k))
  }

  /** memcpy (C11, section 7.24.2.1): `n` bytes from `s` to `d`. */
  function Copy(m: Mem, d: nat, s: nat, n: nat): Mem {
    var w := Wipe(m, d, n);
    w.(byte := (k: nat) => if d <= k < d + n then m.byte(s + (k - d)) else w.byte(k))
  }

  // ---- Stores and blocks ------------------------------------------------------------------------------

  predicate InPayload(b: Block, at: nat) { b.addr + HEADER <= at < RedzoneAt(b) }

  /** The records of block `b`, and its payload, are in `m'` what they were in `m`. */
  ghost predicate SameBlock(m: Mem, m': Mem, b: Block) {
    && m'.hdr(b.addr) == m.hdr(b.addr)
    && m'.rdz(RedzoneAt(b)) == m.rdz(RedzoneAt(b))
    && SamePayload(m, m', b)
  }

  ghost predicate SamePayload(m: Mem, m': Mem, b: Block) {
    forall at :: InPayload(b, at) ==> m'.byte(at) == m.byte(at)
  }

  /** Block `b`, the slack aside, is clear of `n` bytes from `a` on. */
  predicate Clear(b: Block, a: nat, n: nat) { Apart(b.addr, OVERHEAD + b.used, a, n) }

  /** A store that is clear of a block leaves it alone. */
  lemma StoreElsewhere(m: Mem, b: Block, a: nat, h: Header, v: nat)
    ensures Clear(b, a, HEADER) ==> SameBlock(m, PutHeader(m, a, h), b)
    ensures Clear(b, a, 8) ==> SameBlock(m, PutRedzone(m, a), b)
    ensures Clear(b, a, 1) ==> SameBlock(m, PutByte(m, a, v), b)
  {}

  /** A header or a redzone stored where it belongs leaves the rest of its own block alone. */
  lemma StoreOwn(m: Mem, b: Block, h: Header)
    ensures PutHeader(m, b.addr, h).hdr(b.addr) == Some(h)
    ensures PutHeader(m, b.addr, h).rdz(RedzoneAt(b)) == m.rdz(RedzoneAt(b))
    ensures SamePayload(m, PutHeader(m, b.addr, h), b)
    ensures PutRedzone(m, RedzoneAt(b)).hdr(b.addr) == m.hdr(b.addr)
    ensures PutRedzone(m, RedzoneAt(b)).rdz(RedzoneAt(b)) == Some(KHEAP_REDZONE_MAGIC)
    ensures SamePayload(m, PutRedzone(m, RedzoneAt(b)), b)
  {}

  lemma BlocksClear(l: seq<Block>, i: nat, j: nat)
    requires Tiled(l) && i < |l| && j < |l| && i != j
    ensures Clear(l[i], l[j].addr, HEADER) && Clear(l[i], RedzoneAt(l[j]), 8)
    ensures Clear(l[i], l[j].addr, EndOf(l[j]) - l[j].addr)
  {}

  // ---- A list in memory -------------------------------------------------------------------------------

  function AddrOf(l: seq<Block>, i: int): nat { if 0 <= i < |l| then l[i].addr else 0 }

  function HeaderOf(l: seq<Block>, i: nat): Header
    requires i < |l|
  {
    Header(KHEAP_MAGIC, l[i].used, l[i].free, l[i].border, AddrOf(l, i - 1), AddrOf(l, i + 1))
  }

  function NewHeader(b: Block, prev: nat, next: nat): Header {
    Header(KHEAP_MAGIC, b.used, b.free, b.border, prev, next)
  }

  ghost predicate BlockStored(m: Mem, l: seq<Block>, i: nat)
    requires i < |l|
  {
    m.hdr(l[i].addr) == Some(HeaderOf(l, i)) && m.rdz(RedzoneAt(l[i])) == Some(KHEAP_REDZONE_MAGIC)
  }

  ghost predicate Stored(m: Mem, l: seq<Block>) {
    forall i :: 0 <= i < |l| ==> BlockStored(m, l, i)
  }

  /** Every block of `l` keeps its payload. */
  ghost predicate PayloadsKept(m: Mem, m': Mem, l: seq<Block>) {
    forall i :: 0 <= i < |l| ==> SamePayload(m, m', l[i])
  }

  // ---- Rewriting a list, store by store ----------------------------------------------------------------

  /** The headers of all blocks but those numbered `x` are in place. */
  ghost predicate HeadersBut(m: Mem, l: seq<Block>, x: set<nat>) {
    forall i: nat :: i < |l| && i !in x ==> m.hdr(l[i].addr) == Some(HeaderOf(l, i))
  }

  ghost predicate RedzonesBut(m: Mem, l: seq<Block>, x: set<nat>) {
    forall i: nat :: i < |l| && i !in x ==> m.rdz(RedzoneAt(l[i])) == Some(KHEAP_REDZONE_MAGIC)
  }

  /** A list half rewritten: the headers `x` and the redzones `y` are still to be stored. */
  ghost predicate StoredBut(m: Mem, l: seq<Block>, x: set<nat>, y: set<nat>) {
    HeadersBut(m, l, x) && RedzonesBut(m, l, y)
  }

  lemma WriteHeader(m: Mem, l: seq<Block>, j: nat, h: Header, x: set<nat>, y: set<nat>, x': set<nat>)
    requires Tiled(l) && j < |l| && StoredBut(m, l, x, y) && h == HeaderOf(l, j) && x <= x' + {j}
    ensures StoredBut(PutHeader(m, l[j].addr, h), l, x', y)
    ensures PayloadsKept(m, PutHeader(m, l[j].addr, h), l)
  {
    forall i: nat | i < |l| && i != j
      ensures SameBlock(m, PutHeader(m, l[j].addr, h), l[i])
    {
      BlocksClear(l, i, j);
      StoreElsewhere(m, l[i], l[j].addr, h, 0);
    }
    StoreOwn(m, l[j], h);
  }

  lemma WriteRedzone(m: Mem, l: seq<Block>, j: nat, x: set<nat>, y: set<nat>, y': set<nat>)
    requires Tiled(l) && j < |l| && StoredBut(m, l, x, y) && y <= y' + {j}
    ensures StoredBut(PutRedzone(m, RedzoneAt(l[j])), l, x, y')
    ensures PayloadsKept(m, PutRedzone(m, RedzoneAt(l[j])), l)
  {
    forall i: nat | i < |l| && i != j
      ensures SameBlock(m, PutRedzone(m, RedzoneAt(l[j])), l[i])
    {
      BlocksClear(l, i, j);
      StoreElsewhere(m, l[i], RedzoneAt(l[j]), HeaderOf(l, i), 0);
    }
    StoreOwn(m, l[j], HeaderOf(l, j));
  }

  /** Any other store that is clear of all blocks changes none of them. */
  lemma WriteOutside(m: Mem, l: seq<Block>, a: nat, h: Header, x: set<nat>, y: set<nat>)
    requires StoredBut(m, l, x, y) && forall i :: 0 <= i < |l| ==> Clear(l[i], a, HEADER)
    ensures StoredBut(PutHeader(m, a, h), l, x, y) && PayloadsKept(m, PutHeader(m, a, h), l)
  {}

  lemma KeptAgain(m: Mem, m': Mem, m'': Mem, l: seq<Block>)
    requires PayloadsKept(m, m', l) && PayloadsKept(m', m'', l)
    ensures PayloadsKept(m, m'', l)
  {}

  /** Before the stores of an insertion, only the new block and its neighbours are not as they should be. */
  lemma BeforeCut(m: Mem, l: seq<Block>, k: nat, a: Block, b: Block)
    requires Stored(m, l) && k < |l| && Halves(l[k], a, b)
    ensures StoredBut(m, Cut(l, k, a, b), {k, k + 1, k + 2}, {k + 1})
  {
    var r := Cut(l, k, a, b);
    forall i: nat | i < |r|
      ensures i !in {k, k + 1, k + 2} ==> m.hdr(r[i].addr) == Some(HeaderOf(r, i))
      ensures i != k + 1 ==> m.rdz(RedzoneAt(r[i])) == Some(KHEAP_REDZONE_MAGIC)
    {
      CutAt(l, k, a, b, i);
      if i > 0 { CutAt(l, k, a, b, i - 1); }
      if i + 1 < |r| { CutAt(l, k, a, b, i + 1); }
      if i != k + 1 { assert BlockStored(m, l, if i <= k then i else i - 1); }
    }
  }

  lemma BeforeExtend(m: Mem, l: seq<Block>, b: Block)
    requires Stored(m, l) && l != []
    ensures StoredBut(m, l + [b], {|l| - 1, |l|}, {|l|})
  {
    var r := l + [b];
    forall i: nat | i < |l| - 1
      ensures m.hdr(r[i].addr) == Some(HeaderOf(r, i))
    {
      assert BlockStored(m, l, i) && HeaderOf(r, i) == HeaderOf(l, i);
    }
    forall i: nat | i < |l|
      ensures m.rdz(RedzoneAt(r[i])) == Some(KHEAP_REDZONE_MAGIC)
    {
      assert BlockStored(m, l, i);
    }
    hide HeaderOf, RedzoneAt;
  }

  lemma BeforeDrop(m: Mem, l: seq<Block>, k: nat, c: Block)
    requires Stored(m, l) && 0 < k < |l| && Replaces(l, k, c)
    ensures StoredBut(m, Drop(l, k, c), {k - 1, k}, {})
  {
    var r := Drop(l, k, c);
    forall i: nat | i < |r|
      ensures i !in {k - 1, k} ==> m.hdr(r[i].addr) == Some(HeaderOf(r, i))
      ensures m.rdz(RedzoneAt(r[i])) == Some(KHEAP_REDZONE_MAGIC)
    {
      DropAt(l, k, c, i);
      if i > 0 { DropAt(l, k, c, i - 1); }
      if i + 1 < |r| { DropAt(l, k, c, i + 1); }
      assert BlockStored(m, l, if i < k then i else i + 1);
    }
  }

  lemma BeforeResize(m: Mem, l: seq<Block>, k: nat, sz: nat)
    requires Stored(m, l) && 0 < k < |l| && sz <= l[k].used + l[k].free
    ensures StoredBut(m, Resize(l, k, sz), {k}, {k})
  {
    var r := Resize(l, k, sz);
    forall i: nat | i < |r| && i != k
      ensures m.hdr(r[i].addr) == Some(HeaderOf(r, i)) && m.rdz(RedzoneAt(r[i])) == Some(KHEAP_REDZONE_MAGIC)
    {
      assert BlockStored(m, l, i);
    }
  }

  lemma CutHeaders(l: seq<Block>, k: nat, a: Block, b: Block)
    requires k < |l| && Halves(l[k], a, b)
    ensures var r := Cut(l, k, a, b);
      && r[k].addr == l[k].addr && r[k + 1] == b && HeaderOf(r, k) == HeaderOf(l, k).(next := b.addr, free := a.free)
      && HeaderOf(r, k + 1) == NewHeader(b, l[k].addr, AddrOf(l, k + 1))
      && (k + 1 < |l| ==> r[k + 2].addr == l[k + 1].addr && HeaderOf(r, k + 2) == HeaderOf(l, k + 1).(prev := b.addr))
  {}

  /** The memory after the stores that put a new block behind block `k`. */
  function InsertMem(m: Mem, h: Header, block: nat, at: nat, nh: Header, newFree: nat, n: Option<Header>): Mem {
    var m := if n.Some? then PutHeader(m, h.next, n.value.(prev := at)) else m;
    var m := PutHeader(m, at, nh);
    var m := PutHeader(m, block, h.(next := at, free := newFree));
    PutRedzone(m, at + HEADER + nh.used)
  }

  lemma AllStored(m: Mem, l: seq<Block>)
    requires StoredBut(m, l, {}, {})
    ensures Stored(m, l)
  {}

  lemma Inserted(m: Mem, l: seq<Block>, k: nat, a: Block, b: Block, h: Header, n: Option<Header>)
    requires Tiled(l) && Stored(m, l) && k < |l| && Halves(l[k], a, b) && h == HeaderOf(l, k)
    requires n == if k + 1 < |l| then Some(HeaderOf(l, k + 1)) else None
    ensures var m' := InsertMem(m, h, l[k].addr, b.addr, NewHeader(b, l[k].addr, h.next), a.free, n);
      Tiled(Cut(l, k, a, b)) && Stored(m', Cut(l, k, a, b)) && PayloadsKept(m, m', Cut(l, k, a, b))
  {
    var r := Cut(l, k, a, b);
    CutTiled(l, k, a, b);
    BeforeCut(m, l, k, a, b);
    CutHeaders(l, k, a, b);
    assert h.next == AddrOf(l, k + 1);
    InsertStores(m, r, k, h, n, h.(next := b.addr, free := a.free));
  }

  /** The stores of an insertion, against the list they are to leave. */
  lemma InsertStores(m: Mem, r: seq<Block>, k: nat, h: Header, n: Option<Header>, bh: Header)
    requires Tiled(r) && k + 1 < |r| && StoredBut(m, r, {k, k + 1, k + 2}, {k + 1})
    requires HeaderOf(r, k) == bh && bh == h.(next := r[k + 1].addr, free := bh.free)
    requires n.None? <==> k + 2 == |r|
    requires HeaderOf(r, k + 1) == NewHeader(r[k + 1], r[k].addr, h.next)
    requires n.Some? ==> r[k + 2].addr == h.next && HeaderOf(r, k + 2) == n.value.(prev := r[k + 1].addr)
    ensures var m' := InsertMem(m, h, r[k].addr, r[k + 1].addr, NewHeader(r[k + 1], r[k].addr, h.next), bh.free, n);
      Stored(m', r) && PayloadsKept(m, m', r)
  {
    hide HeaderOf;
    hide Tiled;
    hide HeadersBut;
    hide RedzonesBut;
    hide PutHeader;
    hide PutRedzone;
    hide PayloadsKept;
    hide Stored;
    var b := r[k + 1];
    var m1 := if n.Some? then PutHeader(m, h.next, n.value.(prev := b.addr)) else m;
    if n.Some? {
      WriteHeader(m, r, k + 2, n.value.(prev := b.addr), {k, k + 1, k + 2}, {k + 1}, {k, k + 1});
    } else {
      NothingToWrite(m, r, k + 2, {k, k + 1, k + 2}, {k + 1}, {k, k + 1});
    }
    var nh := HeaderOf(r, k + 1);
    var m2 := PutHeader(m1, b.addr, nh);
    WriteHeader(m1, r, k + 1, nh, {k, k + 1}, {k + 1}, {k});
    KeptAgain(m, m1, m2, r);
    var m3 := PutHeader(m2, r[k].addr, bh);
    WriteHeader(m2, r, k, bh, {k}, {k + 1}, {});
    KeptAgain(m, m2, m3, r);
    var m4 := PutRedzone(m3, RedzoneAt(b));
    WriteRedzone(m3, r, k + 1, {}, {k + 1}, {});
    KeptAgain(m, m3, m4, r);
    AllStored(m4, r);
  }

  lemma NothingToWrite(m: Mem, l: seq<Block>, j: nat, x: set<nat>, y: set<nat>, x': set<nat>)
    requires StoredBut(m, l, x, y) && j >= |l| && x <= x' + {j}
    ensures StoredBut(m, l, x', y) && PayloadsKept(m, m, l)
  {}

  // ---- Extending, freeing, resizing, copying ----------------------------------------------------------

  /** The stores that put a new chunk behind the last block. */
  function ExtendMem(m: Mem, h: Header, block: nat, at: nat, nh: Header): Mem {
    var m := PutHeader(m, block, h.(next := at));
    var m := PutHeader(m, at, nh);
    PutRedzone(m, at + HEADER + nh.used)
  }

  lemma Extended(m: Mem, l: seq<Block>, b: Block, h: Header)
    requires Stored(m, l) && l != [] && Tiled(l + [b]) && h == HeaderOf(l, |l| - 1)
    ensures var m' := ExtendMem(m, h, l[|l| - 1].addr, b.addr, NewHeader(b, l[|l| - 1].addr, 0));
      Stored(m', l + [b]) && PayloadsKept(m, m', l + [b])
  {
    var r, k: nat := l + [b], |l| - 1;
    BeforeExtend(m, l, b);
    assert r[k] == l[k] && r[k + 1] == b;
    assert HeaderOf(r, k) == h.(next := b.addr);
    assert HeaderOf(r, k + 1) == NewHeader(b, l[k].addr, 0);
    ExtendStores(m, r, k, h);
  }

  lemma ExtendStores(m: Mem, r: seq<Block>, k: nat, h: Header)
    requires Tiled(r) && k + 2 == |r| && StoredBut(m, r, {k, k + 1}, {k + 1})
    requires HeaderOf(r, k) == h.(next := r[k + 1].addr)
    requires HeaderOf(r, k + 1) == NewHeader(r[k + 1], r[k].addr, 0)
    ensures var m' := ExtendMem(m, h, r[k].addr, r[k + 1].addr, NewHeader(r[k + 1], r[k].addr, 0));
      Stored(m', r) && PayloadsKept(m, m', r)
  {
    hide HeaderOf;
    hide Tiled;
    hide HeadersBut;
    hide RedzonesBut;
    hide PutHeader;
    hide PutRedzone;
    hide PayloadsKept;
    hide Stored;
    var m1 := PutHeader(m, r[k].addr, HeaderOf(r, k));
    WriteHeader(m, r, k, HeaderOf(r, k), {k, k + 1}, {k + 1}, {k + 1});
    var m2 := PutHeader(m1, r[k + 1].addr, HeaderOf(r, k + 1));
    WriteHeader(m1, r, k + 1, HeaderOf(r, k + 1), {k + 1}, {k + 1}, {});
    KeptAgain(m, m1, m2, r);
    var m3 := PutRedzone(m2, RedzoneAt(r[k + 1]));
    WriteRedzone(m2, r, k + 1, {}, {k + 1}, {});
    KeptAgain(m, m2, m3, r);
    AllStored(m3, r);
  }

  /** kfree's update of the header of the block before. */
  function AbsorbHeader(p: Header, h: Header): Header {
    if h.border then p.(next := h.next) else p.(next := h.next, free := p.free + HEADER + h.used + h.free + 8)
  }

  /** The stores of kfree; the last one clears the magic of the block. */
  function FreeMem(m: Mem, p: Header, h: Header, block: nat, n: Option<Header>): Mem {
    var m := PutHeader(m, h.prev, AbsorbHeader(p, h));
    var m := if n.Some? then PutHeader(m, h.next, n.value.(prev := h.prev)) else m;
    PutHeader(m, block, h.(magic := 0))
  }

  function Merged(l: seq<Block>, k: nat): Block
    requires 0 < k < |l|
  {
    if l[k].border then l[k - 1] else Absorb(l[k - 1], l[k])
  }

  lemma DropHeaders(l: seq<Block>, k: nat)
    requires 0 < k < |l|
    ensures var r := Drop(l, k, Merged(l, k));
      && r[k - 1].addr == l[k - 1].addr && HeaderOf(r, k - 1) == AbsorbHeader(HeaderOf(l, k - 1), HeaderOf(l, k))
      && (k + 1 < |l| ==> r[k].addr == l[k + 1].addr && HeaderOf(r, k) == HeaderOf(l, k + 1).(prev := l[k - 1].addr))
  {}

  /** The header of a freed block lies in no block that is left, the slack aside. */
  lemma DroppedClear(l: seq<Block>, k: nat, i: nat)
    requires Tiled(l) && 0 < k < |l| && i < |l| - 1
    ensures Clear(Drop(l, k, Merged(l, k))[i], l[k].addr, HEADER)
  {}

  lemma FreeReplaces(l: seq<Block>, k: nat)
    requires Tiled(l) && CanFree(l, k)
    ensures Remove(l, k) == Drop(l, k, Merged(l, k)) && Replaces(l, k, Merged(l, k))
  {
    assert Joined(l, k - 1);
  }

  lemma Freed(m: Mem, l: seq<Block>, k: nat, p: Header, h: Header, n: Option<Header>)
    requires Tiled(l) && Stored(m, l) && CanFree(l, k) && p == HeaderOf(l, k - 1) && h == HeaderOf(l, k)
    requires n == if k + 1 < |l| then Some(HeaderOf(l, k + 1)) else None
    ensures var m' := FreeMem(m, p, h, l[k].addr, n);
      Tiled(Remove(l, k)) && Stored(m', Remove(l, k)) && PayloadsKept(m, m', Remove(l, k))
  {
    RemoveTiled(l, k);
    FreeReplaces(l, k);
    BeforeDrop(m, l, k, Merged(l, k));
    DropHeaders(l, k);
    forall i: nat | i < |l| - 1
      ensures Clear(Remove(l, k)[i], l[k].addr, HEADER)
    {
      DroppedClear(l, k, i);
    }
    assert h.prev == l[k - 1].addr && h.next == AddrOf(l, k + 1);
    hide *;
    FreeStores(m, Remove(l, k), k, p, h, l[k].addr, n);
  }

  lemma FreeStores(m: Mem, r: seq<Block>, k: nat, p: Header, h: Header, block: nat, n: Option<Header>)
    requires Tiled(r) && 0 < k <= |r| && StoredBut(m, r, {k - 1, k}, {})
    requires r[k - 1].addr == h.prev && HeaderOf(r, k - 1) == AbsorbHeader(p, h)
    requires n.None? <==> k == |r|
    requires n.Some? ==> r[k].addr == h.next && HeaderOf(r, k) == n.value.(prev := h.prev)
    requires forall i :: 0 <= i < |r| ==> Clear(r[i], block, HEADER)
    ensures var m' := FreeMem(m, p, h, block, n);
      Stored(m', r) && PayloadsKept(m, m', r)
  {
    hide HeaderOf;
    hide Tiled;
    hide HeadersBut;
    hide RedzonesBut;
    hide PutHeader;
    hide PutRedzone;
    hide PayloadsKept;
    hide Stored;
    hide AbsorbHeader;
    hide Clear;
    var m1 := PutHeader(m, h.prev, AbsorbHeader(p, h));
    WriteHeader(m, r, k - 1, AbsorbHeader(p, h), {k - 1, k}, {}, {k});
    var m2 := if n.Some? then PutHeader(m1, h.next, n.value.(prev := h.prev)) else m1;
    if n.Some? {
      WriteHeader(m1, r, k, n.value.(prev := h.prev), {k}, {}, {});
    } else {
      NothingToWrite(m1, r, k, {k}, {}, {});
    }
    KeptAgain(m, m1, m2, r);
    var m3 := PutHeader(m2, block, h.(magic := 0));
    WriteOutside(m2, r, block, h.(magic := 0), {}, {});
    KeptAgain(m, m2, m3, r);
    AllStored(m3, r);
  }

  /** krealloc in place: the sizes, then the redzone at its new place. */
  function ResizeMem(m: Mem, h: Header, block: nat, sz: nat): Mem
    requires sz <= h.used + h.free
  {
    var m := PutHeader(m, block, h.(used := sz, free := h.used + h.free - sz));
    PutRedzone(m, block + HEADER + sz)
  }

  lemma ResizedInPlace(m: Mem, l: seq<Block>, k: nat, h: Header, sz: nat)
    requires Tiled(l) && Stored(m, l) && 0 < k < |l| && h == HeaderOf(l, k) && sz <= l[k].used + l[k].free
    ensures h.used + h.free == l[k].used + l[k].free
    ensures var m' := ResizeMem(m, h, l[k].addr, sz);
      Tiled(Resize(l, k, sz)) && Stored(m', Resize(l, k, sz)) && PayloadsKept(m, m', Resize(l, k, sz))
  {
    var r := Resize(l, k, sz);
    ResizeTiled(l, k, sz);
    BeforeResize(m, l, k, sz);
    assert HeaderOf(r, k) == h.(used := sz, free := h.used + h.free - sz);
    ResizeStores(m, r, k, h, sz);
  }

  lemma ResizeStores(m: Mem, r: seq<Block>, k: nat, h: Header, sz: nat)
    requires Tiled(r) && k < |r| && StoredBut(m, r, {k}, {k}) && sz <= h.used + h.free && r[k].used == sz
    requires HeaderOf(r, k) == h.(used := sz, free := h.used + h.free - sz)
    ensures var m' := ResizeMem(m, h, r[k].addr, sz); Stored(m', r) && PayloadsKept(m, m', r)
  {
    hide HeaderOf;
    hide Tiled;
    hide HeadersBut;
    hide RedzonesBut;
    hide PutHeader;
    hide PutRedzone;
    hide PayloadsKept;
    hide Stored;
    var m1 := PutHeader(m, r[k].addr, HeaderOf(r, k));
    WriteHeader(m, r, k, HeaderOf(r, k), {k}, {k}, {});
    var m2 := PutRedzone(m1, RedzoneAt(r[k]));
    WriteRedzone(m1, r, k, {}, {k}, {});
    KeptAgain(m, m1, m2, r);
    AllStored(m2, r);
  }

  /** The `n` bytes from `d` on are in `m'` what those from `s` on are in `m`. */
  ghost predicate Moved(m: Mem, m': Mem, d: nat, s: nat, n: nat) {
    forall at: nat :: d <= at < d + n ==> m'.byte(at) == m.byte(s + (at - d))
  }

  lemma CopyClear(m: Mem, b: Block, d: nat, s: nat, n: nat)
    requires Clear(b, d, n)
    ensures SameBlock(m, Copy(m, d, s, n), b)
  {}

  lemma CopyOwn(m: Mem, b: Block, s: nat, n: nat)
    requires n <= b.used
    ensures Copy(m, b.addr + HEADER, s, n).hdr(b.addr) == m.hdr(b.addr)
    ensures Copy(m, b.addr + HEADER, s, n).rdz(RedzoneAt(b)) == m.rdz(RedzoneAt(b))
  {}

  lemma CopyMoves(m: Mem, d: nat, s: nat, n: nat)
    ensures Moved(m, Copy(m, d, s, n), d, s, n)
  {}

  /** Bytes copied into the payload of block `j`: no header, redzone or other payload changes. */
  lemma CopiedInto(m: Mem, l: seq<Block>, j: nat, s: nat, n: nat)
    requires Tiled(l) && Stored(m, l) && j < |l| && n <= l[j].used
    ensures var m' := Copy(m, l[j].addr + HEADER, s, n);
      && Stored(m', l) && Moved(m, m', l[j].addr + HEADER, s, n)
      && (forall i :: 0 <= i < |l| && i != j ==> SamePayload(m, m', l[i]))
  {
    CopyMoves(m, l[j].addr + HEADER, s, n);
    hide Copy;
    hide Moved;
    hide Tiled;
    hide SamePayload;
    hide BlockStored;
    var m' := Copy(m, l[j].addr + HEADER, s, n);
    forall i: nat | i < |l|
      ensures BlockStored(m', l, i) && (i != j ==> SamePayload(m, m', l[i]))
    {
      CopyOther(m, l, i, j, s, n);
    }
  }

  lemma CopyOther(m: Mem, l: seq<Block>, i: nat, j: nat, s: nat, n: nat)
    requires Tiled(l) && Stored(m, l) && i < |l| && j < |l| && n <= l[j].used
    ensures var m' := Copy(m, l[j].addr + HEADER, s, n); BlockStored(m', l, i) && (i != j ==> SamePayload(m, m', l[i]))
  {
    assert BlockStored(m, l, i);
    if i != j {
      BlocksClear(l, i, j);
      CopyClear(m, l[i], l[j].addr + HEADER, s, n);
    } else {
      CopyOwn(m, l[j], s, n);
    }
  }

  /** A client storing inside its payload meets no header and no redzone. */
  lemma ClientStore(m: Mem, l: seq<Block>, j: nat, at: nat, v: nat)
    requires Tiled(l) && Stored(m, l) && j < |l| && InPayload(l[j], at)
    ensures Stored(PutByte(m, at, v), l)
    ensures forall i :: 0 <= i < |l| && i != j ==> SamePayload(m, PutByte(m, at, v), l[i])
  {
    forall i: nat | i < |l|
      ensures BlockStored(PutByte(m, at, v), l, i) && (i != j ==> SamePayload(m, PutByte(m, at, v), l[i]))
    {
      assert BlockStored(m, l, i);
      if i != j {
        BlocksClear(l, i, j);
        StoreElsewhere(m, l[i], at, HeaderOf(l, i), v);
      }
    }
  }

  /** memcpy as the C library has it: from index `n` down to 1, instead of from `n - 1` down to 0. On ranges that do not
      overlap, the further byte included, it moves the bytes of its contract exactly when the first one was there
      already, and always the one behind them. */
  method MemcpyAsWritten(m: Mem, d: nat, s: nat, n: nat) returns (m': Mem)
    requires Apart(d, n + 1, s, n + 1)
    ensures MovedDown(m, m', d, s, n, 0)
    ensures Moved(m, m', d, s, n) <==> n == 0 || m.byte(d) == m.byte(s)
    ensures m'.byte(d + n) == if n == 0 then m.byte(d) else m.byte(s + n)
  {
    m' := m;
    var len: nat := n;
    while len > 0
      invariant len <= n && MovedDown(m, m', d, s, n, len)
    {
      OneByteDown(m, m', d, s, n, len);
      m' := Copy(m', d + len, s + len, 1);
      len := len - 1;
    }
    FirstByteDecides(m, m', d, s, n);
  }

  /** The bytes `n` down to `len + 1` have been moved, and no others. */
  ghost predicate MovedDown(m: Mem, m': Mem, d: nat, s: nat, n: nat, len: nat) {
    && (forall at: nat :: d + len < at <= d + n ==> m'.byte(at) == m.byte(s + (at - d)))
    && (forall at: nat :: !(d + len < at <= d + n) ==> m'.byte(at) == m.byte(at))
  }

  lemma OneByteDown(m: Mem, m': Mem, d: nat, s: nat, n: nat, len: nat)
    requires Apart(d, n + 1, s, n + 1) && 0 < len <= n && MovedDown(m, m', d, s, n, len)
    ensures MovedDown(m, Copy(m', d + len, s + len, 1), d, s, n, len - 1)
  {
    hide Copy;
    var after, from := Copy(m', d + len, s + len, 1), s + len;
    forall at: nat | d + (len - 1) < at <= d + n
      ensures after.byte(at) == m.byte(s + (at - d))
    {
      OneByte(m', d + len, from, at);
      if at == d + len { assert m'.byte(from) == m.byte(from); }
    }
    forall at: nat | !(d + (len - 1) < at <= d + n)
      ensures after.byte(at) == m.byte(at)
    {
      OneByte(m', d + len, from, at);
    }
  }

  lemma OneByte(m: Mem, d: nat, s: nat, at: nat)
    ensures Copy(m, d, s, 1).byte(at) == if at == d then m.byte(s) else m.byte(at)
  {
    assert at == d ==> s + (at - d) == s;
  }

  lemma FirstByteDecides(m: Mem, m': Mem, d: nat, s: nat, n: nat)
    requires MovedDown(m, m', d, s, n, 0)
    ensures Moved(m, m', d, s, n) <==> n == 0 || m.byte(d) == m.byte(s)
    ensures m'.byte(d + n) == if n == 0 then m.byte(d) else m.byte(s + n)
  {
    if Moved(m, m', d, s, n) && n > 0 { assert m'.byte(d) == m.byte(s + (d - d)); }
    assert n > 0 ==> m'.byte(d + n) == m.byte(s + (d + n - d));
  }
}
