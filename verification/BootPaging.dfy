/** The bootloader's page tables: a bump allocator for table frames, mapPage, mapPages and the
    identity map of the firmware's memory. */
module BootPaging {
  import opened Words
  import opened PageBits
  import opened PageTables
  import opened PageWrites

  const CHUNK: nat := 0x40_0000
  const POOL_SZ: nat := 0x40_1000 // CHUNK + PAGE_SZ

  /** clearMem over one frame. */
  function ClearFrame(ram: Ram, f: nat): Ram { map s | s in ram && s.base != f :: ram[s] }

  lemma ClearFrameKeepsTree(ram: Ram, root: nat, f: nat)
    requires WellFormed(ram, root) && IsFrame(f) && OffTree(ram, root, f)
    ensures WellFormed(ClearFrame(ram, f), root) && Fresh(ClearFrame(ram, f), root, f)
    ensures forall p, i :: IsPath(p) ==> Entry(ClearFrame(ram, f), root, p, i) == Entry(ram, root, p, i)
    ensures SameTables(ram, ClearFrame(ram, f), root)
  {
    forall p | IsPath(p)
      ensures TableAt(ClearFrame(ram, f), root, p) == TableAt(ram, root, p)
    {
      ClearedTable(ram, root, f, p);
    }
    forall p, i | IsPath(p)
      ensures Entry(ClearFrame(ram, f), root, p, i) == Entry(ram, root, p, i)
    {
      assert Outside(p, f);
    }
  }

  lemma {:induction false} ClearedTable(ram: Ram, root: nat, f: nat, p: Path)
    requires OffTree(ram, root, f) && IsPath(p)
    ensures TableAt(ClearFrame(ram, f), root, p) == TableAt(ram, root, p)
    decreases p
  {
    if p.Sub? {
      ClearedTable(ram, root, f, p.up);
      assert IsPath(p.up) && Outside(p.up, f);
    }
  }

  /** The first frame of the chunk in an allocation. */
  function FirstFrame(pool: nat): nat { Kalign(pool) + PAGE_SZ }

  predicate InChunk(pool: nat, f: nat) { FirstFrame(pool) <= f && f + PAGE_SZ <= FirstFrame(pool) + CHUNK }

  ghost predicate FromChunks(taken: set<nat>, f: nat) { exists p :: p in taken && InChunk(p, f) }

  /** The answers to come, the frames handed out and what is left of the current chunk are apart. */
  ghost predicate Spaced(pools: seq<nat>, given: set<nat>, base: nat, ptr: nat, size: nat)
    requires ptr <= size
  {
    && (forall f :: f in given ==> IsFrame(f) && Apart(f, PAGE_SZ, base + ptr, size - ptr))
    && (forall i :: 0 <= i < |pools| ==> pools[i] + POOL_SZ <= PHYS_LIMIT && Apart(pools[i], POOL_SZ, base, size))
    && (forall i, j :: 0 <= i < j < |pools| ==> Apart(pools[i], POOL_SZ, pools[j], POOL_SZ))
    && (forall i, f :: 0 <= i < |pools| && f in given ==> Apart(f, PAGE_SZ, pools[i], POOL_SZ))
  }

  lemma SpacedBump(pools: seq<nat>, given: set<nat>, base: nat, ptr: nat, size: nat)
    requires ptr + PAGE_SZ <= size && Spaced(pools, given, base, ptr, size) && IsFrame(base + ptr)
    ensures base + ptr !in given && Spaced(pools, given + {base + ptr}, base, ptr + PAGE_SZ, size)
  {}

  lemma SpacedChunk(pools: seq<nat>, given: set<nat>, base: nat, ptr: nat, size: nat)
    requires ptr <= size && pools != [] && Spaced(pools, given, base, ptr, size)
    ensures pools[0] < FirstFrame(pools[0]) && FirstFrame(pools[0]) + CHUNK <= pools[0] + POOL_SZ <= PHYS_LIMIT
    ensures IsFrame(FirstFrame(pools[0])) && Spaced(pools[1..], given, FirstFrame(pools[0]), 0, CHUNK)
  {}

  /** Frames come from the chunks in the answers `taken`, and the first frame of each is in use, but for the one just
      taken up. */
  ghost predicate Tracked(taken: set<nat>, given: set<nat>, pool: nat, base: nat, ptr: nat, size: nat) {
    && (if size == 0 then taken == {} else pool in taken && base == FirstFrame(pool))
    && (forall f {:trigger FromChunks(taken, f)} :: f in given ==> FromChunks(taken, f))
    && (forall p {:trigger FirstUsed(given, p)} :: p in taken && (p != pool || ptr > 0) ==> FirstUsed(given, p))
  }

  predicate FirstUsed(given: set<nat>, pool: nat) { FirstFrame(pool) in given }

  lemma TrackedBump(taken: set<nat>, given: set<nat>, pool: nat, base: nat, ptr: nat)
    requires Tracked(taken, given, pool, base, ptr, CHUNK) && ptr + PAGE_SZ <= CHUNK
    ensures Tracked(taken, given + {base + ptr}, pool, base, ptr + PAGE_SZ, CHUNK)
  {
    var given' := given + {base + ptr};
    assert InChunk(pool, base + ptr);
    forall f | f in given'
      ensures FromChunks(taken, f)
    {
      if f != base + ptr { assert FromChunks(taken, f); }
    }
    forall p | p in taken && (p != pool || ptr + PAGE_SZ > 0)
      ensures FirstUsed(given', p)
    {
      if p == pool && ptr == 0 { assert base + ptr in given'; } else { assert FirstUsed(given, p); }
    }
  }

  lemma TrackedChunk(taken: set<nat>, given: set<nat>, pool: nat, base: nat, ptr: nat, size: nat,
                     next: nat)
    requires Tracked(taken, given, pool, base, ptr, size) && ptr == size && (size == 0 || size == CHUNK)
    ensures Tracked(taken + {next}, given, next, FirstFrame(next), 0, CHUNK)
  {
    forall f | f in given
      ensures FromChunks(taken + {next}, f)
    {
      assert FromChunks(taken, f);
      var p :| p in taken && InChunk(p, f);
      assert p in taken + {next};
    }
    forall p | p in taken + {next} && p != next
      ensures FirstUsed(given, p)
    {
      assert p in taken;
    }
  }

  class BumpAllocator {
    var bumpBase: nat
    var bumpPtr: nat
    var bumpSize: nat
    var pools: seq<nat> // what allocPool will answer, in order
    var given: set<nat> // every frame handed out
    ghost var pool: nat // the allocation the current chunk lies in
    ghost var taken: set<nat> // what allocPool has answered so far
    ghost const answers: seq<nat> // what it answers, from the start

    ghost predicate Valid()
      reads this
    {
      && Tracked(taken, given, pool, bumpBase, bumpPtr, bumpSize)
      && (forall p {:trigger p in answers} :: p in taken || p in pools ==> p in answers)
      && bumpPtr <= bumpSize && bumpPtr % PAGE_SZ == 0
      && (bumpSize == 0 || bumpSize == CHUNK)
      && (bumpSize == CHUNK ==>
            IsFrame(bumpBase) && pool < bumpBase && bumpBase + CHUNK <= pool + POOL_SZ <= PHYS_LIMIT)
      && Spaced(pools, given, bumpBase, bumpPtr, bumpSize)
    }

    constructor (answers: seq<nat>)
      requires forall i :: 0 <= i < |answers| ==> answers[i] + POOL_SZ <= PHYS_LIMIT
      requires forall i, j :: 0 <= i < j < |answers| ==> Apart(answers[i], POOL_SZ, answers[j], POOL_SZ)
      ensures Valid() && given == {} && pools == answers == this.answers
    {
      bumpBase, bumpPtr, bumpSize := 0, 0, 0;
      pools := answers;
      this.answers := answers;
      pool := 0;
      given, taken := {}, {};
    }

    /** No frame is left: the chunk is used up, and the firmware has no memory for another. */
    predicate Exhausted()
      reads this
    {
      pools == [] && bumpPtr == bumpSize
    }

    /** A new table frame, the next one of the chunk or the first of a new one: cleared, aligned, inside its allocation
        and never handed out before. `ok` is false when the firmware has no memory left, which the source does not test
        for. */
    method PgAlloc(ram: Ram) returns (ok: bool, ram': Ram, frame: nat)
      requires Valid()
      modifies this
      ensures Valid()
      ensures ok ==> IsFrame(frame) && ram' == ClearFrame(ram, frame)
      ensures ok ==> frame !in old(given) && given == old(given) + {frame}
      ensures ok ==> pool < frame && frame + PAGE_SZ <= pool + POOL_SZ && (pool == old(pool) || pool in old(pools))
      ensures ok <==> !old(Exhausted())
      ensures ok ==>
        && bumpPtr == frame - bumpBase + 0x1000
        && if old(bumpPtr) != old(bumpSize) then
             frame == old(bumpBase) + old(bumpPtr) && bumpBase == old(bumpBase) && bumpSize == old(bumpSize)
             && pools == old(pools)
           else
             frame == bumpBase == Kalign(old(pools[0])) + 0x1000 && bumpSize == 0x40_0000 && pools == old(pools)[1..]
      ensures !ok ==> ram' == ram && given == old(given) && Exhausted()
      ensures ok || old(bumpPtr) > 0 ==> bumpPtr > 0
    {
      if bumpPtr == bumpSize {
        if pools == [] { return false, ram, 0; }
        NewChunk();
      }
      frame := Bump();
      return true, ClearFrame(ram, frame), frame;
    }

    /** The next frame of the current chunk. */
    method Bump() returns (frame: nat)
      requires Valid() && bumpPtr != bumpSize
      modifies this
      ensures Valid() && pool == old(pool) && pools == old(pools)
      ensures IsFrame(frame) && frame !in old(given) && given == old(given) + {frame}
      ensures pool < frame && frame + PAGE_SZ <= pool + POOL_SZ && bumpPtr > 0
      ensures frame == old(bumpBase) + old(bumpPtr) && bumpPtr == old(bumpPtr) + 0x1000
      ensures bumpBase == old(bumpBase) && bumpSize == old(bumpSize)
    {
      hide Tracked, Spaced;
      SpacedBump(pools, given, bumpBase, bumpPtr, bumpSize);
      frame := bumpBase + bumpPtr;
      TrackedBump(taken, given, pool, bumpBase, bumpPtr);
      bumpPtr := bumpPtr + 0x1000;
      given := given + {frame};
    }

    /** The allocation of a new chunk: aligned up, and one page larger than what is used of it. */
    method NewChunk()
      requires Valid() && bumpPtr == bumpSize && pools != []
      modifies this
      ensures Valid() && given == old(given) && bumpPtr == 0 && bumpSize == CHUNK
      ensures pool == old(pools[0]) && pools == old(pools[1..]) && bumpBase == FirstFrame(old(pools[0]))
    {
      hide Tracked, Spaced, FirstFrame;
      SpacedChunk(pools, given, bumpBase, bumpPtr, bumpSize);
      TrackedChunk(taken, given, pool, bumpBase, bumpPtr, bumpSize, pools[0]);
      pool := pools[0];
      taken := taken + {pools[0]};
      bumpBase := FirstFrame(pools[0]);
      bumpSize := CHUNK;
      bumpPtr := 0;
      pools := pools[1..];
    }
  }

  // ---- mapPage -------------------------------------------------------------------------------------

  function BootAccess(write: bool): nat { OrIf(PG_PRESENT, write, PG_WRITE) }

  function BootLeaf(phys: nat, write: bool, execute: bool): nat {
    Or(OrIf(BootAccess(write), !execute, PG_NX), phys)
  }

  lemma BootAccessBits(write: bool)
    ensures TableBase(BootAccess(write)) == 0 && Present(BootAccess(write)) && !NoExecute(BootAccess(write))
    ensures CanWrite(BootAccess(write)) <==> write
    ensures BootAccess(write) == if write then 3 else 1
  {
    assert Or(1, 2) == 3;
  }

  /** A bootloader leaf names its frame and grants exactly what was asked for. */
  lemma BootLeafBits(phys: nat, write: bool, execute: bool)
    requires phys % PAGE_SZ == 0
    ensures Present(BootLeaf(phys, write, execute))
    ensures CanWrite(BootLeaf(phys, write, execute)) <==> write
    ensures phys < PHYS_LIMIT ==> TableBase(BootLeaf(phys, write, execute)) == phys
    ensures phys < PHYS_LIMIT ==> (NoExecute(BootLeaf(phys, write, execute)) <==> !execute)
  {
    var e := OrIf(BootAccess(write), !execute, PG_NX);
    assert BootLeaf(phys, write, execute) == Or(e, phys);
    hide *;
    NxBits();
    BootAccessBits(write);
    OrIfBits(BootAccess(write), !execute, PG_NX);
    OrPermissions(e, phys);
    BaseOfOr(e, phys);
    AlignedBits(phys);
    if phys < PHYS_LIMIT {
      FrameIsItsBase(phys);
      FrameBits(phys);
    }
  }

  /** The whole leaf. */
  lemma BootLeafWord(phys: nat, write: bool, execute: bool)
    requires phys % PAGE_SZ == 0 && phys < PHYS_LIMIT
    ensures BootLeaf(phys, write, execute)
      == phys + 1 + (if write then 2 else 0) + if execute then 0 else 0x8000_0000_0000_0000
  {
    var access := BootAccess(write);
    assert Or(1, 2) == 3;
    assert IsPow2(4) && PG_NX % 4 == 0 && access == if write then 3 else 1;
    hide Or, IsPow2, BootAccess;
    OrApart(4, access, PG_NX);
    OrFrame(access, false, !execute, phys);
  }

  lemma NxBits()
    ensures TableBase(PG_NX) == 0 && NoExecute(PG_NX) && !Present(PG_NX) && !CanWrite(PG_NX)
  {}

  lemma AlignedBits(phys: nat)
    requires phys % PAGE_SZ == 0
    ensures !Present(phys) && !CanWrite(phys)
  {}

  /** All tables are frames the allocator handed out. */
  ghost predicate TablesFrom(ram: Ram, root: nat, given: set<nat>) {
    forall p {:trigger TableAt(ram, root, p)} :: IsPath(p) && TableAt(ram, root, p) != 0 ==>
           TableAt(ram, root, p) in given
  }

  lemma TablesFromSame(ram: Ram, ram': Ram, root: nat, given: set<nat>)
    requires TablesFrom(ram, root, given) && SameTables(ram, ram', root)
    ensures TablesFrom(ram', root, given)
  {}

  class BootSpace {
    const bump: BumpAllocator
    var ram: Ram
    var pml: nat

    ghost predicate Valid()
      reads this, bump
    {
      && bump.Valid() && bump.bumpPtr > 0
      && WellFormed(ram, pml) && Covered(ram, pml)
      && TablesFrom(ram, pml, bump.given)
    }

    /** initMem up to the identity map: an empty top-level table. The firmware must have memory for it. */
    constructor (answers: seq<nat>, memory: Ram)
      requires answers != []
      requires forall i :: 0 <= i < |answers| ==> answers[i] + POOL_SZ <= PHYS_LIMIT
      requires forall i, j :: 0 <= i < j < |answers| ==> Apart(answers[i], POOL_SZ, answers[j], POOL_SZ)
      ensures Valid() && fresh(bump)
      ensures forall q: nat :: q < PAGES ==> Leaf(ram, pml, q) == 0
    {
      bump := new BumpAllocator(answers);
      ram := memory;
      pml := 0;
      new;
      var ok;
      ok, ram, pml := bump.PgAlloc(memory);
      EmptyTree(ram, pml);
    }

    /** One level of mapPage. */
    method Descend(ghost p: Path, base: nat, i: nat) returns (ok: bool, next: nat)
      requires Valid() && IsPath(p) && Depth(p) < 3 && i < 512 && base == TableAt(ram, pml, p) != 0
      modifies this`ram, bump
      ensures Valid() && Linked(old(ram), ram, pml)
      ensures ok ==> next == TableAt(ram, pml, Sub(p, i)) != 0
      ensures !ok ==> bump.Exhausted() && TableAt(old(ram), pml, Sub(p, i)) == 0
      ensures old(bump.given) <= bump.given
    {
      ok := true;
      if TableBase(At(ram, base, i)) == 0 {
        ok := LinkNew(p, base, i);
        if !ok { return false, 0; }
      }
      next := TableBase(At(ram, base, i));
    }

    /** `entry |= TABLE_BASE(pgAlloc())`, for an entry that names no table. */
    method LinkNew(ghost p: Path, base: nat, i: nat) returns (ok: bool)
      requires Valid() && IsPath(p) && Depth(p) < 3 && i < 512 && base == TableAt(ram, pml, p) != 0
      requires TableBase(Entry(ram, pml, p, i)) == 0
      modifies this`ram, bump
      ensures Valid() && Linked(old(ram), ram, pml)
      ensures ok ==> TableBase(At(ram, base, i)) == TableAt(ram, pml, Sub(p, i)) != 0
      ensures TableAt(ram, pml, p) == base
      ensures !ok ==> ram == old(ram) && bump.Exhausted()
      ensures old(bump.given) <= bump.given
    {
      var cleared, frame;
      ok, cleared, frame := bump.PgAlloc(ram);
      if ok {
        LinkCleared(ram, pml, p, i, frame, old(bump.given));
        ram := OrEntry(cleared, base, i, TableBase(frame));
      }
    }

    /** The tables on the way to a page, made where missing. */
    method FindTables(i4: nat, i3: nat, i2: nat) returns (ok: bool, pdpe: nat, pde: nat, pte: nat)
      requires Valid() && i4 < 512 && i3 < 512 && i2 < 512
      modifies this`ram, bump
      ensures Valid() && Linked(old(ram), ram, pml)
      ensures ok ==>
        && pdpe == TableAt(ram, pml, Sub(Root, i4)) != 0
        && pde == TableAt(ram, pml, Sub(Sub(Root, i4), i3)) != 0
        && pte == TableAt(ram, pml, Sub(Sub(Sub(Root, i4), i3), i2)) != 0
      ensures !ok ==> bump.Exhausted() && TableAt(old(ram), pml, Sub(Sub(Sub(Root, i4), i3), i2)) == 0
      ensures old(bump.given) <= bump.given
    {
      ghost var p3 := Sub(Root, i4);
      ghost var p2 := Sub(p3, i3);
      hide *;
      PathsDown(ram, pml, i4, i3);
      NoTableBelow(ram, pml, p2, i2);
      PathBelow(p2, i2);
      pte := 0;
      ok, pdpe, pde := FindUpper(i4, i3);
      if !ok { return; }
      ghost var before := ram;
      ok, pte := Descend(p2, pde, i2);
      TablesStay(old(ram), before, ram, pml, p3, p2);
      MissingBefore(old(ram), before, pml, Sub(p2, i2));
    }

    method FindUpper(i4: nat, i3: nat) returns (ok: bool, pdpe: nat, pde: nat)
      requires Valid() && i4 < 512 && i3 < 512
      modifies this`ram, bump
      ensures Valid() && Linked(old(ram), ram, pml)
      ensures ok ==>
        pdpe == TableAt(ram, pml, Sub(Root, i4)) != 0 && pde == TableAt(ram, pml, Sub(Sub(Root, i4), i3)) != 0
      ensures !ok ==> bump.Exhausted() && TableAt(old(ram), pml, Sub(Sub(Root, i4), i3)) == 0
      ensures old(bump.given) <= bump.given
    {
      ghost var p3 := Sub(Root, i4);
      hide *;
      PathsDown(ram, pml, i4, i3);
      NoTableBelow(ram, pml, p3, i3);
      Tables();
      pde := 0;
      ok, pdpe := Descend(Root, pml, i4);
      if !ok { return; }
      ghost var before := ram;
      ok, pde := Descend(p3, pdpe, i3);
      TablesStay(old(ram), before, ram, pml, p3, p3);
      MissingBefore(old(ram), before, pml, Sub(p3, i3));
    }

    method MapAligned(ghost page: nat, i4: nat, i3: nat, i2: nat, i1: nat, access: nat, leaf: nat) returns (ok: bool)
      requires Valid() && page < PAGES
      requires i4 == Index4(page) && i3 == Index3(page) && i2 == Index2(page) && i1 == Index1(page)
      requires TableBase(access) == 0 && Present(access) && !NoExecute(access) && (CanWrite(leaf) ==> CanWrite(access))
      modifies this`ram, bump
      ensures Valid()
      ensures OnlyLeaf(old(ram), ram, pml, ok, page, leaf) && UpperBits(old(ram), ram, pml, page, access, ok)
      ensures !ok ==> bump.Exhausted() && TableAt(old(ram), pml, Path1(page)) == 0
      ensures old(bump.given) <= bump.given
    {
      PathsOfPage(page);
      hide *;
      var pdpe, pde, pte;
      ok, pdpe, pde, pte := FindTables(i4, i3, i2);
      ghost var before := ram;
      if ok {
        Tables();
        var next := WriteEntries(ram, pml, page, i4, i3, i2, i1, pdpe, pde, pte, access, leaf);
        TablesFromSame(ram, next, pml, bump.given);
        SetRam(next);
      }
      LinkedMeans(old(ram), before, pml);
      WidenedThenLeaf(old(ram), before, ram, pml, ok, page, leaf);
      LinkedThenGranted(old(ram), before, ram, pml, page, access, ok);
    }

    lemma Tables()
      requires Valid()
      ensures pml != 0 && WellFormed(ram, pml) && Covered(ram, pml) && TablesFrom(ram, pml, bump.given)
    {}

    method SetRam(next: Ram)
      requires Valid() && WellFormed(next, pml) && Covered(next, pml) && TablesFrom(next, pml, bump.given)
      modifies this`ram
      ensures Valid() && ram == next
    {
      ram := next;
    }

    /** Maps the page of a physical address at the page of a virtual one. No assumption on the frames of
        the tables is needed: the allocator clears them. */
    method MapPage(phys: nat, virt: nat, write: bool, execute: bool) returns (ok: bool)
      requires Valid()
      modifies this`ram, bump
      ensures Valid()
      ensures OnlyLeaf(old(ram), ram, pml, ok, PageOf(virt), BootLeaf(Kalign(phys), write, execute))
      ensures UpperBits(old(ram), ram, pml, PageOf(virt), if write then 3 else 1, ok)
      ensures !ok ==> bump.Exhausted() && TableAt(old(ram), pml, Path1(PageOf(virt))) == 0
      ensures old(bump.given) <= bump.given
    {
      hide *;
      var p, v := Kalign(phys), Kalign(virt);
      PageOfKalign(phys);
      PageOfKalign(virt);
      EntryMacros(v);
      BootAccessBits(write);
      BootLeafBits(p, write, execute);
      ok := MapAligned(PageOf(virt), PmlEntry(v), PdpeEntry(v), PdeEntry(v), PteEntry(v),
                       BootAccess(write), BootLeaf(p, write, execute));
    }

    method MapPages(phys: nat, virt: nat, pages: nat, write: bool, execute: bool) returns (ok: bool)
      requires Valid() && pages < U32
      modifies this`ram, bump
      ensures Valid()
      ensures ok ==> BootRange(old(ram), ram, pml, phys, virt, if pages == 0 then 1 else pages, write, execute)
      ensures !ok ==> bump.Exhausted()
      ensures old(bump.given) <= bump.given
    {
      var n := if pages == 0 then 1 else pages;
      var i := 0;
      while i < n
        invariant i <= n && Valid() && old(bump.given) <= bump.given
        invariant BootRange(old(ram), ram, pml, phys, virt, i, write, execute)
      {
        ghost var before := ram;
        var p, v := BootStep(phys, virt, i);
        ok := MapPage(p, v, write, execute);
        if !ok { return; }
        BootRangeGrows(old(ram), before, ram, pml, phys, virt, p, v, i, write, execute);
        i := i + 1;
      }
      ok := true;
    }
  }

  /** Page `q` after mapPages: the offset is a 32-bit product, so it reaches 2^20 pages; a count of 0 maps one. */
  function BootRangeLeaf(before: Ram, root: nat, phys: nat, virt: nat, n: nat, write: bool, execute: bool,
                         q: nat): nat {
    var k := PagesAfter(Kalign(virt), q);
    if k < n && k < 0x10_0000 then BootLeaf(PageStep(Kalign(phys), k), write, execute) else Leaf(before, root, q)
  }

  ghost predicate BootRange(before: Ram, after: Ram, root: nat, phys: nat, virt: nat, n: nat, write: bool,
                            execute: bool) {
    forall q: nat :: q < PAGES ==> Leaf(after, root, q) == BootRangeLeaf(before, root, phys, virt, n, write, execute, q)
  }

  lemma PageOfKalign(v: nat)
    ensures PageOf(Kalign(v)) == PageOf(v) < PAGES && Kalign(v) % PAGE_SZ == 0
  {}

  /** The addresses of turn `i` of mapPages, before mapPage aligns them. */
  method BootStep(phys: nat, virt: nat, i: nat) returns (p: nat, v: nat)
    ensures Kalign(p) == PageStep(Kalign(phys), i % 0x10_0000)
    ensures Kalign(v) == PageStep(Kalign(virt), i % 0x10_0000)
  {
    var off := i * PAGE_SZ % U32;
    ProductWraps(i);
    KalignStep(phys, i % 0x10_0000);
    KalignStep(virt, i % 0x10_0000);
    p, v := (phys + off) % U64, (virt + off) % U64;
  }

  lemma KalignStep(a: nat, k: nat)
    ensures Kalign((a + k * PAGE_SZ) % U64) == PageStep(Kalign(a), k)
  {
    var sum, d := Kalign(a) + k * PAGE_SZ, a % PAGE_SZ;
    DivUnique(sum + d, U64, sum / U64, sum % U64 + d) by { StepAligned(Kalign(a), k); }
    KalignPlus(sum % U64, d);
  }

  lemma KalignPlus(r: nat, d: nat)
    requires r % PAGE_SZ == 0 && d < PAGE_SZ
    ensures Kalign(r + d) == r
  {}

  lemma BootRangeGrows(start: Ram, before: Ram, after: Ram, root: nat, phys: nat, virt: nat, p: nat, v: nat, i: nat,
                       write: bool, execute: bool)
    requires Kalign(p) == PageStep(Kalign(phys), i % 0x10_0000) && Kalign(v) == PageStep(Kalign(virt), i % 0x10_0000)
    requires BootRange(start, before, root, phys, virt, i, write, execute)
    requires OnlyLeaf(before, after, root, true, PageOf(v), BootLeaf(Kalign(p), write, execute))
    ensures BootRange(start, after, root, phys, virt, i + 1, write, execute)
  {
    PageOfKalign(v);
    PageOfKalign(virt);
    forall q: nat | q < PAGES
      ensures Leaf(after, root, q) == BootRangeLeaf(start, root, phys, virt, i + 1, write, execute, q)
    {
      var k := PagesAfter(Kalign(virt), q);
      StepLandsOn(Kalign(virt), i % 0x10_0000, q);
      RangeTurn(k, i, true, true, BootLeaf(PageStep(Kalign(phys), k), write, execute),
                Leaf(start, root, q), Leaf(before, root, q), Leaf(after, root, q));
    }
  }

  lemma EmptyTree(ram: Ram, root: nat)
    requires IsFrame(root) && forall i :: At(ram, root, i) == 0
    ensures WellFormed(ram, root) && Covered(ram, root) && TablesFrom(ram, root, {root})
    ensures forall q: nat :: q < PAGES ==> Leaf(ram, root, q) == 0
  {
    forall p: Path
      ensures TableAt(ram, root, p) != 0 ==> p == Root
    {
      NothingBelow(ram, root, p);
    }
    forall q: nat | q < PAGES
      ensures Leaf(ram, root, q) == 0 && CoversLeaf(ram, root, q)
    {
      assert TableAt(ram, root, Path1(q)) == 0 && TableAt(ram, root, Path2(q)) == 0
             && TableAt(ram, root, Path3(q)) == 0;
      assert !NoExecute(0);
    }
  }

  lemma {:induction false} NothingBelow(ram: Ram, root: nat, p: Path)
    requires root != 0 && forall i :: At(ram, root, i) == 0
    ensures p != Root ==> TableAt(ram, root, p) == 0
    decreases p
  {
    if p != Root { NothingBelow(ram, root, p.up); }
  }

  /** Clearing a frame never handed out and linking it: the tree gains one empty table. */
  lemma LinkCleared(ram: Ram, root: nat, p: Path, i: nat, frame: nat, given: set<nat>)
    requires WellFormed(ram, root) && Covered(ram, root) && TablesFrom(ram, root, given)
    requires IsPath(p) && Depth(p) < 3 && i < 512 && TableAt(ram, root, p) != 0
    requires TableBase(Entry(ram, root, p, i)) == 0 && IsFrame(frame) && frame !in given
    ensures TableBase(frame) == frame
    ensures var ram' := OrEntry(ClearFrame(ram, frame), TableAt(ram, root, p), i, frame);
      && WellFormed(ram', root) && Covered(ram', root) && TablesFrom(ram', root, given + {frame})
      && Linked(ram, ram', root)
      && TableBase(At(ram', TableAt(ram, root, p), i)) == TableAt(ram', root, Sub(p, i)) == frame
      && TableAt(ram', root, p) == TableAt(ram, root, p)
  {
    var cleared := ClearFrame(ram, frame);
    FrameIsItsBase(frame);
    ClearFrameKeepsTree(ram, root, frame);
    LinkTable(cleared, root, p, i, frame);
    var ram' := OrEntry(cleared, TableAt(ram, root, p), i, frame);
    assert Linked(ram, cleared, root);
    LinkedAgain(ram, cleared, ram', root);
    WidenedKeepsCovered(ram, ram', root);
    WidenedKeepsTables(ram, ram', root, p);
    forall q | IsPath(q) && TableAt(ram', root, q) != 0
      ensures TableAt(ram', root, q) in given + {frame}
    {
      assert q != Sub(p, i) ==> TableAt(ram', root, q) == TableAt(cleared, root, q) == TableAt(ram, root, q);
    }
  }

  // ---- The identity map ------------------------------------------------------------------------------

  const EFI_RESERVED: nat := 0
  const EFI_UNUSABLE: nat := 8
  const EFI_UNACCEPTED: nat := 15

  datatype Descriptor = Descriptor(kind: nat, physicalStart: nat, numberOfPages: nat)

  predicate Kept(d: Descriptor) { d.kind != EFI_RESERVED && d.kind != EFI_UNUSABLE && d.kind != EFI_UNACCEPTED }

  /** The page count handed to mapPages, through a 64-bit product and a 32-bit parameter. */
  function PageCount(d: Descriptor): nat { d.numberOfPages * PAGE_SZ % U64 / PAGE_SZ % U32 }

  /** The pages mapPages reaches for a descriptor: at least one and at most 2^20. */
  function Reach(d: Descriptor): nat {
    if PageCount(d) == 0 then 1 else if PageCount(d) < 0x10_0000 then PageCount(d) else 0x10_0000
  }

  /** The whole of a descriptor is reached exactly when it has between one and 2^20 pages. */
  lemma ReachIsWhole(d: Descriptor)
    ensures Reach(d) == d.numberOfPages <==> 1 <= d.numberOfPages <= 0x10_0000
  {}

  /** What is mapped of a descriptor, by its fields: nothing for reserved (0), unusable (8) and unaccepted (15) memory,
      and else as many pages as it has in 32 bits, but at least one and at most 2^20. */
  lemma ReachedMeans(d: Descriptor, q: nat)
    ensures var n := d.numberOfPages % 0x1_0000_0000;
      var pages := if n == 0 then 1 else if n > 0x10_0000 then 0x10_0000 else n;
      Kept(d) && Reached(d, q) <==>
        d.kind != 0 && d.kind != 8 && d.kind != 15
        && d.physicalStart / 0x1000 <= q < d.physicalStart / 0x1000 + pages
  {
    CountInWidth(d.numberOfPages);
  }

  lemma CountInWidth(n: nat)
    ensures n * PAGE_SZ % U64 / PAGE_SZ % U32 == n % 0x1_0000_0000
  {
    DivTwice(n * PAGE_SZ, PAGE_SZ, 0x10_0000_0000_0000, U64);
    DivUnique(n * PAGE_SZ, PAGE_SZ, n, 0);
    DivTwice(n, U32, 0x10_0000, 0x10_0000_0000_0000);
  }

  /** A page-aligned descriptor in the 48-bit address space. */
  predicate Sane(d: Descriptor) {
    d.physicalStart % PAGE_SZ == 0 && d.physicalStart / PAGE_SZ + Reach(d) <= PAGES
  }

  /** So are the descriptors that idMapMem maps: those it keeps, but the last. */
  predicate KeptSane(descs: seq<Descriptor>) { forall i :: 0 <= i < |descs| - 1 && Kept(descs[i]) ==> Sane(descs[i]) }

  predicate Reached(d: Descriptor, q: nat) {
    d.physicalStart / PAGE_SZ <= q < d.physicalStart / PAGE_SZ + Reach(d)
  }

  /** One of the first `n` descriptors is kept and reaches page `q`. */
  ghost predicate IdCovered(descs: seq<Descriptor>, n: int, q: nat)
    requires n <= |descs|
  {
    exists i :: 0 <= i < n && Kept(descs[i]) && Reached(descs[i], q)
  }

  ghost predicate IdMapped(before: Ram, after: Ram, root: nat, descs: seq<Descriptor>, n: int)
    requires n <= |descs|
  {
    forall q: nat :: q < PAGES ==>
      Leaf(after, root, q)
        == if IdCovered(descs, n, q) then BootLeaf(q * PAGE_SZ, true, false) else Leaf(before, root, q)
  }

  lemma SaneStep(d: Descriptor, q: nat)
    requires Sane(d) && q < PAGES
    ensures PagesAfter(d.physicalStart, q) < Reach(d) <==> Reached(d, q)
    ensures Reached(d, q) ==> PageStep(d.physicalStart, PagesAfter(d.physicalStart, q)) == q * PAGE_SZ
  {
    var s := d.physicalStart / PAGE_SZ;
    assert PageOf(d.physicalStart) == s;
    AfterIsDifference(s, q);
  }

  lemma AfterIsDifference(s: nat, q: nat)
    requires s < PAGES && q < PAGES
    ensures (q - s) % PAGES == if s <= q then q - s else q - s + PAGES
  {}

  lemma IdMapGrows(start: Ram, before: Ram, after: Ram, root: nat, descs: seq<Descriptor>, i: nat)
    requires i < |descs| && Sane(descs[i]) && Kept(descs[i])
    requires IdMapped(start, before, root, descs, i)
    requires var d := descs[i];
      BootRange(before, after, root, d.physicalStart, d.physicalStart,
                if PageCount(d) == 0 then 1 else PageCount(d), true, false)
    ensures IdMapped(start, after, root, descs, i + 1)
  {
    var d := descs[i];
    forall q: nat | q < PAGES
      ensures Leaf(after, root, q)
              == if IdCovered(descs, i + 1, q) then BootLeaf(q * PAGE_SZ, true, false) else Leaf(start, root, q)
    {
      SaneStep(d, q);
      assert IdCovered(descs, i + 1, q) <==> IdCovered(descs, i, q) || Reached(d, q);
    }
  }

  /** Identity-maps every descriptor but the last, except reserved, unusable and unaccepted memory. */
  method IdMapMem(boot: BootSpace, descs: seq<Descriptor>) returns (ok: bool)
    requires boot.Valid() && KeptSane(descs)
    modifies boot`ram, boot.bump
    ensures boot.Valid()
    ensures ok ==> IdMapped(old(boot.ram), boot.ram, boot.pml, descs, |descs| - 1)
    ensures !ok ==> boot.bump.Exhausted()
  {
    var i := 0;
    while i + 1 < |descs|
      invariant i <= |descs| && (descs == [] ==> i == 0) && (descs != [] ==> i <= |descs| - 1) && boot.Valid()
      invariant IdMapped(old(boot.ram), boot.ram, boot.pml, descs, i)
    {
      var d := descs[i];
      ghost var before := boot.ram;
      if Kept(d) {
        ok := boot.MapPages(d.physicalStart, d.physicalStart, PageCount(d), true, false);
        if !ok { return; }
        IdMapGrows(old(boot.ram), before, boot.ram, boot.pml, descs, i);
      }
      i := i + 1;
    }
    ok := true;
  }

  /** On tables that were empty, every present translation is the identity, and every kept descriptor but
      the last is mapped writable up to its first 2^20 pages. */
  lemma IdentityMap(before: Ram, after: Ram, root: nat, descs: seq<Descriptor>, v: nat)
    requires IdMapped(before, after, root, descs, |descs| - 1) && Covered(after, root) && root != 0
    requires forall q: nat :: q < PAGES ==> Leaf(before, root, q) == 0
    requires KeptSane(descs)
    ensures Mapped(after, root, PageOf(v)) ==> VirtToPhysInt(after, root, v) == PageOf(v) * PAGE_SZ
    ensures Mapped(after, root, PageOf(v)) <==> IdCovered(descs, |descs| - 1, PageOf(v))
    ensures Mapped(after, root, PageOf(v)) ==> Writable(after, root, PageOf(v)) && !Executable(after, root, PageOf(v))
  {
    var q := PageOf(v);
    BootLeafBits(q * PAGE_SZ, true, false);
    LeafDecides(after, root, q);
    WalksReadTheLeaf(after, root, v);
    assert !Present(0);
  }
}
