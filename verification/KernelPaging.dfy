/** The kernel's page tables: mapPage, mapPages and the stack of frames that feeds them. */
module KernelPaging {
  import opened Words
  import opened PageBits
  import opened PageTables
  import opened PageWrites
  import opened FramePool
  import opened DataStack
  import PhysOrder

  datatype Outcome = Mapped | Refused | Panic

  /** Frames growPageStack pushes for one block: `i <= sz` takes one more than fit in it. */
  const TABLE_BLOCK_FRAMES: nat := 65

  /** The loop of growPageStack: every frame from `phys` to `phys + sz`, that one included. */
  method PushRun(stack: Dstack, phys: nat, sz: nat)
    requires stack.Valid() && sz % PAGE_SZ == 0
    requires 8 * (|stack.Contents()| + sz / PAGE_SZ + 1) <= stack.maxSize
    modifies stack, stack.buffer
    ensures stack.Valid() && stack.Contents() == old(stack.Contents()) + FrameRun(phys, sz / PAGE_SZ + 1)
  {
    var i := 0;
    ghost var n := 0;
    while i <= sz
      invariant i == n * PAGE_SZ && n <= sz / PAGE_SZ + 1
      invariant stack.Valid() && |stack.Contents()| == old(|stack.Contents()|) + n
      invariant stack.Contents() == old(stack.Contents()) + FrameRun(phys, n)
      decreases sz + PAGE_SZ - i
    {
      stack.Push(phys + i);
      i := i + PAGE_SZ;
      n := n + 1;
    }
  }

  class PageSpace {
    const pml4e: nat
    const pageFrames: Dstack
    var ram: Ram
    var blocks: seq<nat> // what allocPhys will answer growPageStack, in order; none left is out of memory

    ghost predicate Valid()
      reads this, pageFrames, pageFrames.buffer
    {
      && pageFrames.Valid() && pageFrames.maxSize == 8 * 100
      && |pageFrames.Contents()| <= 84
      && WellFormed(ram, pml4e)
      && IsPool(ram, pml4e, Pool())
    }

    ghost function Pool(): multiset<nat>
      requires pageFrames.Valid()
      reads this, pageFrames, pageFrames.buffer
    {
      multiset(pageFrames.Contents()) + RunsOf(blocks, TABLE_BLOCK_FRAMES)
    }

    /** initPaging, on the tables the bootloader left in CR3. */
    constructor (kpml: nat, memory: Ram, grants: seq<nat>)
      requires WellFormed(memory, kpml) && IsPool(memory, kpml, RunsOf(grants, TABLE_BLOCK_FRAMES))
      ensures Valid() && ram == memory && pml4e == kpml && blocks == grants
      ensures fresh(pageFrames) && fresh(pageFrames.buffer)
    {
      pml4e := kpml;
      ram := memory;
      blocks := grants;
      pageFrames := new Dstack(8 * 100);
      new;
      assert multiset(pageFrames.Contents()) == multiset{};
    }

    method GrowPageStack() returns (grown: bool)
      requires Valid() && |pageFrames.Contents()| < 20
      modifies this`blocks, pageFrames, pageFrames.buffer
      ensures Valid() && Pool() == old(Pool())
      ensures grown <==> old(blocks) != []
      ensures grown ==>
              pageFrames.Contents() == old(pageFrames.Contents()) + FrameRun(old(blocks)[0], TABLE_BLOCK_FRAMES)
      ensures !grown ==> pageFrames.Contents() == old(pageFrames.Contents())
    {
      if blocks == [] { return false; }
      var order := PhysOrder.ChooseOrder(PAGE_SZ * 100);
      PhysOrder.RefillSizes();
      TakeBlock(pageFrames.Contents(), blocks, TABLE_BLOCK_FRAMES);
      FrameRunLength(blocks[0], TABLE_BLOCK_FRAMES);
      PushRun(pageFrames, blocks[0], PhysOrder.OrderBlockSize(order));
      blocks := blocks[1..];
      return true;
    }

    /** The stack is to be refilled and cannot be. */
    ghost predicate Short()
      requires pageFrames.Valid()
      reads this, pageFrames, pageFrames.buffer
    {
      |pageFrames.Contents()| < 20 && blocks == []
    }

    /** The top frame of the stack, which is refilled first when it holds less than 20; after that it is never empty,
        so the source's second try is not needed. */
    method NewPagetable() returns (fetched: bool, frame: nat)
      requires Valid()
      modifies this`blocks, pageFrames, pageFrames.buffer
      ensures Valid()
      ensures fetched ==> frame in old(Pool()) && Pool() == old(Pool())[frame := 0]
      ensures fetched ==>
              IsTop(frame, pageFrames.Contents(),
                    Refilled(old(pageFrames.Contents()), 20, old(blocks), TABLE_BLOCK_FRAMES))
      ensures fetched || Pool() == old(Pool())
      ensures !fetched ==> pageFrames.top < 20 && blocks == [] && |Pool()| < 20
      ensures fetched <==> !old(Short())
    {
      fetched := Refill();
      if !fetched {
        PoolSize(pageFrames.Contents(), blocks, TABLE_BLOCK_FRAMES);
        return false, 0;
      }
      hide *;
      frame := TakeTop();
    }

    method Refill() returns (ready: bool)
      requires Valid()
      modifies this`blocks, pageFrames, pageFrames.buffer
      ensures Valid() && Pool() == old(Pool())
      ensures ready ==>
              pageFrames.Contents() == Refilled(old(pageFrames.Contents()), 20, old(blocks), TABLE_BLOCK_FRAMES) != []
      ensures !ready ==> pageFrames.top < 20 && blocks == []
      ensures ready <==> !old(Short())
    {
      var count := pageFrames.Count();
      ready := true;
      if count < 20 {
        ready := GrowPageStack();
        if ready { FrameRunLength(old(blocks)[0], TABLE_BLOCK_FRAMES); }
      }
    }

    method TakeTop() returns (frame: nat)
      requires Valid() && pageFrames.Contents() != []
      modifies pageFrames
      ensures Valid() && frame in old(Pool()) && Pool() == old(Pool())[frame := 0]
      ensures IsTop(frame, pageFrames.Contents(), old(pageFrames.Contents()))
    {
      var fetched;
      frame, fetched := pageFrames.Pop();
      TakeFrame(ram, pml4e, old(Pool()), old(pageFrames.Contents()), pageFrames.Contents(), frame,
                RunsOf(blocks, TABLE_BLOCK_FRAMES));
    }

    /** One level of mapPage: find the table an entry names, linking a new one when asked to. */
    method Descend(ghost p: Path, base: nat, i: nat, make: bool) returns (r: Outcome, next: nat)
      requires Valid() && IsPath(p) && Depth(p) < 3 && i < 512 && base == TableAt(ram, pml4e, p) != 0
      modifies this`ram, this`blocks, pageFrames, pageFrames.buffer
      ensures Valid() && Linked(old(ram), ram, pml4e)
      ensures r == Mapped ==> next == TableAt(ram, pml4e, Sub(p, i)) != 0
      ensures r == Refused <==> !make && TableAt(old(ram), pml4e, Sub(p, i)) == 0
      ensures r == Panic ==> make && TableAt(old(ram), pml4e, Sub(p, i)) == 0 && |Pool()| < 20 && blocks == []
      ensures r == Panic <==> make && TableAt(old(ram), pml4e, Sub(p, i)) == 0 && old(Short())
      ensures !make ==> unchanged(this, pageFrames, pageFrames.buffer)
      ensures Used(old(ram), ram, pml4e, old(Pool()), Pool(), 1)
    {
      r := Mapped;
      NoneUsed(ram, ram, pml4e, Pool(), 1);
      if TableBase(At(ram, base, i)) == 0 {
        if !make { return Refused, 0; }
        var linked := LinkNew(p, base, i);
        if !linked { return Panic, 0; }
      }
      next := TableBase(At(ram, base, i));
    }

    /** `entry |= newPagetable()`, for an entry that names no table. */
    method LinkNew(ghost p: Path, base: nat, i: nat) returns (linked: bool)
      requires Valid() && IsPath(p) && Depth(p) < 3 && i < 512 && base == TableAt(ram, pml4e, p) != 0
      requires TableBase(Entry(ram, pml4e, p, i)) == 0
      modifies this`ram, this`blocks, pageFrames, pageFrames.buffer
      ensures Valid() && Linked(old(ram), ram, pml4e)
      ensures linked ==> TableBase(At(ram, base, i)) == TableAt(ram, pml4e, Sub(p, i)) != 0
      ensures TableAt(ram, pml4e, p) == base
      ensures !linked ==> ram == old(ram) && |Pool()| < 20 && blocks == []
      ensures linked <==> !old(Short())
      ensures Used(old(ram), ram, pml4e, old(Pool()), Pool(), 1)
    {
      TreeAndPool();
      LinkedSame(ram, pml4e);
      NoneUsed(ram, ram, pml4e, Pool(), 1);
      PathBelow(p, i);
      hide *;
      ghost var pool := Pool();
      var frame;
      linked, frame := NewPagetable();
      if linked {
        InPool(ram, pml4e, pool, frame);
        LinkTable(ram, pml4e, p, i, frame);
        PoolAfterLink(ram, OrEntry(ram, base, i, frame), pml4e, pool, frame);
        OneUsed(ram, OrEntry(ram, base, i, frame), pml4e, pool, frame, Sub(p, i));
        SetRam(OrEntry(ram, base, i, frame));
      }
    }

    /** How many frames are left for tables. */
    lemma FramesLeft()
      requires Valid()
      ensures |Pool()| == |pageFrames.Contents()| + TABLE_BLOCK_FRAMES * |blocks|
    {
      PoolSize(pageFrames.Contents(), blocks, TABLE_BLOCK_FRAMES);
    }

    /** What the tables and the frames that are left promise. */
    lemma TreeAndPool()
      requires Valid()
      ensures pml4e != 0 && pageFrames.Valid() && WellFormed(ram, pml4e) && IsPool(ram, pml4e, Pool())
    {}

    method SetRam(next: Ram)
      requires Valid() && WellFormed(next, pml4e) && IsPool(next, pml4e, Pool())
      modifies this`ram
      ensures Valid() && ram == next && Pool() == old(Pool())
    {
      ram := next;
    }

    /** The first half of mapPage: the three tables on the way, made if asked. */
    method FindTables(i4: nat, i3: nat, i2: nat, make: bool) returns (r: Outcome, pdpe: nat, pde: nat, pte: nat)
      requires Valid() && i4 < 512 && i3 < 512 && i2 < 512
      modifies this`ram, this`blocks, pageFrames, pageFrames.buffer
      ensures Valid() && Linked(old(ram), ram, pml4e)
      ensures r == Mapped ==>
        && pdpe == TableAt(ram, pml4e, Sub(Root, i4)) != 0
        && pde == TableAt(ram, pml4e, Sub(Sub(Root, i4), i3)) != 0
        && pte == TableAt(ram, pml4e, Sub(Sub(Sub(Root, i4), i3), i2)) != 0
      ensures r == Refused <==> !make && TableAt(old(ram), pml4e, Sub(Sub(Sub(Root, i4), i3), i2)) == 0
      ensures r == Panic ==>
              make && TableAt(old(ram), pml4e, Sub(Sub(Sub(Root, i4), i3), i2)) == 0 && |Pool()| < 20 && blocks == []
      ensures !make ==> unchanged(this, pageFrames, pageFrames.buffer)
      ensures Used(old(ram), ram, pml4e, old(Pool()), Pool(), 3)
    {
      hide *;
      ghost var p3 := Sub(Root, i4);
      ghost var p2 := Sub(p3, i3);
      PathsDown(ram, pml4e, i4, i3);
      NoTableBelow(ram, pml4e, p2, i2);
      TreeAndPool();
      pte := 0;
      PathBelow(p2, i2);
      r, pdpe, pde := FindUpper(i4, i3, make);
      TreeAndPool();
      if r != Mapped {
        UsedLess(old(ram), ram, pml4e, old(Pool()), Pool(), 2, 3);
        return;
      }
      ghost var before, pool := ram, Pool();
      r, pte := Descend(p2, pde, i2, make);
      TablesStay(old(ram), before, ram, pml4e, p3, p2);
      MissingBefore(old(ram), before, pml4e, Sub(p2, i2));
      UsedAgain(old(ram), before, ram, pml4e, old(Pool()), pool, Pool(), 2, 1);
    }

    method FindUpper(i4: nat, i3: nat, make: bool) returns (r: Outcome, pdpe: nat, pde: nat)
      requires Valid() && i4 < 512 && i3 < 512
      modifies this`ram, this`blocks, pageFrames, pageFrames.buffer
      ensures Valid() && Linked(old(ram), ram, pml4e)
      ensures r == Mapped ==>
        pdpe == TableAt(ram, pml4e, Sub(Root, i4)) != 0 && pde == TableAt(ram, pml4e, Sub(Sub(Root, i4), i3)) != 0
      ensures r == Refused <==> !make && TableAt(old(ram), pml4e, Sub(Sub(Root, i4), i3)) == 0
      ensures r == Panic ==>
              make && TableAt(old(ram), pml4e, Sub(Sub(Root, i4), i3)) == 0 && |Pool()| < 20 && blocks == []
      ensures !make ==> unchanged(this, pageFrames, pageFrames.buffer)
      ensures Used(old(ram), ram, pml4e, old(Pool()), Pool(), 2)
    {
      hide *;
      ghost var p3 := Sub(Root, i4);
      PathsDown(ram, pml4e, i4, i3);
      NoTableBelow(ram, pml4e, p3, i3);
      TreeAndPool();
      pde := 0;
      r, pdpe := Descend(Root, pml4e, i4, make);
      if r != Mapped {
        UsedLess(old(ram), ram, pml4e, old(Pool()), Pool(), 1, 2);
        return;
      }
      ghost var before, pool := ram, Pool();
      r, pde := Descend(p3, pdpe, i3, make);
      TablesStay(old(ram), before, ram, pml4e, p3, p3);
      MissingBefore(old(ram), before, pml4e, Sub(p3, i3));
      UsedAgain(old(ram), before, ram, pml4e, old(Pool()), pool, Pool(), 1, 1);
    }

    /** mapPage past the alignment test, on the indices of the page and the words to write. */
    method MapAligned(ghost page: nat, i4: nat, i3: nat, i2: nat, i1: nat, make: bool, access: nat, leaf: nat)
      returns (r: Outcome)
      requires Valid() && page < PAGES
      requires i4 == Index4(page) && i3 == Index3(page) && i2 == Index2(page) && i1 == Index1(page)
      requires TableBase(access) == 0 && Present(access) && !NoExecute(access) && (CanWrite(leaf) ==> CanWrite(access))
      modifies this`ram, this`blocks, pageFrames, pageFrames.buffer
      ensures Valid()
      ensures r == Refused <==> !make && TableAt(old(ram), pml4e, Path1(page)) == 0
      ensures r == Refused ==> unchanged(this, pageFrames, pageFrames.buffer)
      ensures r == Panic ==> make && TableAt(old(ram), pml4e, Path1(page)) == 0 && |Pool()| < 20 && blocks == []
      ensures Used(old(ram), ram, pml4e, old(Pool()), Pool(), 3)
      ensures !make ==> SameTables(old(ram), ram, pml4e)
      ensures OnlyLeaf(old(ram), ram, pml4e, r == Mapped, page, leaf)
      ensures UpperBits(old(ram), ram, pml4e, page, access, r == Mapped)
      ensures Covered(old(ram), pml4e) ==> Covered(ram, pml4e)
    {
      hide *;
      PathsOfPage(page);
      TreeAndPool();
      var pdpe, pde, pte;
      r, pdpe, pde, pte := FindTables(i4, i3, i2, make);
      ghost var before := ram;
      LinkedMeans(old(ram), ram, pml4e);
      if Covered(old(ram), pml4e) { WidenedKeepsCovered(old(ram), ram, pml4e); }
      if r == Mapped {
        TreeAndPool();
        var next := WriteEntries(ram, pml4e, page, i4, i3, i2, i1, pdpe, pde, pte, access, leaf);
        PoolStays(ram, next, pml4e, Pool());
        NoneUsed(ram, next, pml4e, Pool(), 0);
        UsedAgain(old(ram), ram, next, pml4e, old(Pool()), Pool(), Pool(), 3, 0);
        SetRam(next);
      }
      WidenedThenLeaf(old(ram), before, ram, pml4e, r == Mapped, page, leaf);
      LinkedThenGranted(old(ram), before, ram, pml4e, page, access, r == Mapped);
    }

    /** Maps a physical address at a virtual address. */
    method MapPage(phys: nat, virt: nat, flags: nat) returns (r: Outcome)
      requires Valid()
      modifies this`ram, this`blocks, pageFrames, pageFrames.buffer
      ensures Valid()
      ensures r == Refused <==>
        Unaligned(phys) || Unaligned(virt)
        || (!Test(flags, PAGE_FLAG_MAKE) && TableAt(old(ram), pml4e, Path1(PageOf(virt))) == 0)
      ensures r == Refused ==> unchanged(this, pageFrames, pageFrames.buffer)
      ensures r == Panic ==>
              Test(flags, PAGE_FLAG_MAKE) && TableAt(old(ram), pml4e, Path1(PageOf(virt))) == 0
              && |Pool()| < 20 && blocks == []
      ensures Used(old(ram), ram, pml4e, old(Pool()), Pool(), 3)
      ensures !Test(flags, PAGE_FLAG_MAKE) ==> SameTables(old(ram), ram, pml4e)
      ensures OnlyLeaf(old(ram), ram, pml4e, r == Mapped, PageOf(virt), LeafEntry(phys, flags))
      ensures UpperBits(old(ram), ram, pml4e, PageOf(virt), if HasBit(flags, 0x20) then 3 else 1, r == Mapped)
      ensures Covered(old(ram), pml4e) ==> Covered(ram, pml4e)
    {
      NoneUsed(ram, ram, pml4e, Pool(), 3);
      if Unaligned(phys) || Unaligned(virt) { return Refused; }
      EntryMacros(virt);
      AccessFlagsBits(flags);
      AccessIs(flags);
      LeafEntryAccess(phys, flags);
      r := MapAligned(PageOf(virt), PmlEntry(virt), PdpeEntry(virt), PdeEntry(virt), PteEntry(virt),
                      Test(flags, PAGE_FLAG_MAKE), AccessFlags(flags), LeafEntry(phys, flags));
    }

    /** One turn of the loop of mapPages, with its 32-bit offset. */
    method MapStep(phys: nat, virt: nat, flags: nat, b: nat) returns (r: Outcome)
      requires Valid() && phys % PAGE_SZ == 0 && virt % PAGE_SZ == 0
      modifies this`ram, this`blocks, pageFrames, pageFrames.buffer
      ensures Valid()
      ensures OnlyLeaf(old(ram), ram, pml4e, r == Mapped, StepPage(virt, b),
                       LeafEntry(PageStep(phys, b % 0x10_0000), flags))
      ensures r == Refused ==> unchanged(this, pageFrames, pageFrames.buffer)
      ensures r == Refused <==> !Test(flags, PAGE_FLAG_MAKE) && TableAt(old(ram), pml4e, Path1(StepPage(virt, b))) == 0
      ensures !Test(flags, PAGE_FLAG_MAKE) ==> SameTables(old(ram), ram, pml4e)
      ensures r == Panic ==>
              Test(flags, PAGE_FLAG_MAKE) && TableAt(old(ram), pml4e, Path1(StepPage(virt, b))) == 0
              && |Pool()| < 20 && blocks == []
      ensures Used(old(ram), ram, pml4e, old(Pool()), Pool(), 3)
      ensures Covered(old(ram), pml4e) ==> Covered(ram, pml4e)
    {
      var p, v := StepAddresses(phys, virt, b);
      r := MapPage(p, v, flags);
    }

    /** Maps `pages` pages; `ok` is false when the kernel panics on the way, which it does not as long as 20 frames are
        left after three for each page. */
    method MapPages(phys: nat, virt: nat, flags: nat, pages: nat) returns (ok: bool)
      requires Valid() && pages < U32
      modifies this`ram, this`blocks, pageFrames, pageFrames.buffer
      ensures Valid()
      ensures Unaligned(phys) || Unaligned(virt) ==> ok && unchanged(this, pageFrames, pageFrames.buffer)
      ensures !Unaligned(phys) && !Unaligned(virt) && ok ==> RangeMapped(old(ram), ram, pml4e, phys, virt, flags, pages)
      ensures !ok ==> Test(flags, PAGE_FLAG_MAKE) && |Pool()| < 20 && blocks == []
      ensures Used(old(ram), ram, pml4e, old(Pool()), Pool(), 3 * pages)
      ensures Covered(old(ram), pml4e) ==> Covered(ram, pml4e)
    {
      NoneUsed(ram, ram, pml4e, Pool(), 0);
      UsedLess(ram, ram, pml4e, Pool(), Pool(), 0, 3 * pages);
      if Unaligned(phys) || Unaligned(virt) { return true; }
      var b := 0;
      while b < pages
        invariant b <= pages && Valid() && Used(old(ram), ram, pml4e, old(Pool()), Pool(), 3 * b)
        invariant RangeMapped(old(ram), ram, pml4e, phys, virt, flags, b)
        invariant !Test(flags, PAGE_FLAG_MAKE) ==> SameTables(old(ram), ram, pml4e)
        invariant Covered(old(ram), pml4e) ==> Covered(ram, pml4e)
      {
        ghost var before, pool := ram, Pool();
        var r := MapStep(phys, virt, flags, b);
        UsedAgain(old(ram), before, ram, pml4e, old(Pool()), pool, Pool(), 3 * b, 3);
        if r == Panic {
          UsedLess(old(ram), ram, pml4e, old(Pool()), Pool(), 3 * (b + 1), 3 * pages);
          return false;
        }
        RangeGrows(old(ram), before, ram, pml4e, r == Mapped, phys, virt, flags, b);
        b := b + 1;
      }
      return true;
    }
  }

  // ---- Runs of mapPage -------------------------------------------------------------------------

  datatype Request = Request(phys: nat, virt: nat, flags: nat)

  /** The last accepted request among the first `n` that named page `q`, or -1. */
  function Latest(requests: seq<Request>, outcomes: seq<Outcome>, n: nat, q: nat): (i: int)
    requires n <= |requests| && n <= |outcomes|
    ensures -1 <= i < n
  {
    if n == 0 then -1
    else if outcomes[n - 1] == Mapped && PageOf(requests[n - 1].virt) == q then n - 1
    else Latest(requests, outcomes, n - 1, q)
  }

  lemma {:induction false} LatestIsLast(requests: seq<Request>, outcomes: seq<Outcome>, n: nat, q: nat)
    requires n <= |requests| && n <= |outcomes|
    ensures var i := Latest(requests, outcomes, n, q);
      && (i >= 0 ==> outcomes[i] == Mapped && PageOf(requests[i].virt) == q)
      && (forall j :: i < j < n ==> outcomes[j] != Mapped || PageOf(requests[j].virt) != q)
    decreases n
  {
    if n > 0 { LatestIsLast(requests, outcomes, n - 1, q); }
  }

  /** Page `q` is as its latest accepted request left it, or as at the start without one. */
  ghost predicate StandsAs(ram: Ram, start: Ram, root: nat, requests: seq<Request>, outcomes: seq<Outcome>, q: nat)
    requires |outcomes| <= |requests|
  {
    var i := Latest(requests, outcomes, |outcomes|, q);
    if i >= 0 then !Unaligned(requests[i].phys) && Leaf(ram, root, q) == LeafEntry(requests[i].phys, requests[i].flags)
    else Leaf(ram, root, q) == Leaf(start, root, q)
  }

  ghost predicate AllStand(ram: Ram, start: Ram, root: nat, requests: seq<Request>, outcomes: seq<Outcome>) {
    |outcomes| <= |requests| && forall q: nat :: q < PAGES ==> StandsAs(ram, start, root, requests, outcomes, q)
  }

  /** A request with an unaligned address is refused; an aligned one with MAKE never is. */
  predicate Answered(request: Request, outcome: Outcome) {
    && (Unaligned(request.phys) || Unaligned(request.virt) ==> outcome == Refused)
    && (outcome == Refused ==>
          Unaligned(request.phys) || Unaligned(request.virt) || !Test(request.flags, PAGE_FLAG_MAKE))
  }

  ghost predicate AllAnswered(requests: seq<Request>, outcomes: seq<Outcome>) {
    |outcomes| <= |requests| && forall i :: 0 <= i < |outcomes| ==> Answered(requests[i], outcomes[i])
  }

  lemma OneMoreAnswered(requests: seq<Request>, outcomes: seq<Outcome>, r: Outcome)
    requires AllAnswered(requests, outcomes) && |outcomes| < |requests| && Answered(requests[|outcomes|], r)
    ensures AllAnswered(requests, outcomes + [r])
  {}

  /** A run of requests so far: the space is in order, and pages and outcomes are as they should be. */
  ghost predicate SoFar(space: PageSpace, start: Ram, requests: seq<Request>, outcomes: seq<Outcome>)
    reads space, space.pageFrames, space.pageFrames.buffer
  {
    && space.Valid() && Covered(space.ram, space.pml4e) && AllAnswered(requests, outcomes)
    && AllStand(space.ram, start, space.pml4e, requests, outcomes)
  }

  /** Runs a sequence of mapPage calls, up to a panic, which comes only when less than 20 frames are left: never as
      long as there were that many and three for each call. No frame from outside the pool becomes a table. */
  method RunRequests(space: PageSpace, requests: seq<Request>) returns (outcomes: seq<Outcome>)
    requires space.Valid() && Covered(space.ram, space.pml4e)
    modifies space`ram, space`blocks, space.pageFrames, space.pageFrames.buffer
    ensures SoFar(space, old(space.ram), requests, outcomes)
    ensures |outcomes| < |requests| ==> Panic in outcomes
    ensures Panic in outcomes ==> |space.Pool()| < 20 && space.blocks == []
    ensures Used(old(space.ram), space.ram, space.pml4e, old(space.Pool()), space.Pool(), 3 * |outcomes|)
    ensures |old(space.Pool())| >= 20 + 3 * |requests| ==> Panic !in outcomes
  {
    hide *;
    outcomes := [];
    NothingAsked(space, requests);
    while |outcomes| < |requests|
      invariant SoFar(space, old(space.ram), requests, outcomes) && |outcomes| <= |requests| && Panic !in outcomes
      invariant space.pageFrames.Valid()
      invariant Used(old(space.ram), space.ram, space.pml4e, old(space.Pool()), space.Pool(), 3 * |outcomes|)
    {
      ghost var before, pool := space.ram, space.Pool();
      var r := RunNext(space, old(space.ram), requests, outcomes);
      UsedAgain(old(space.ram), before, space.ram, space.pml4e, old(space.Pool()), pool, space.Pool(),
                3 * |outcomes|, 3);
      UsedMeans(old(space.ram), space.ram, space.pml4e, old(space.Pool()), space.Pool(), 3 * |outcomes| + 3);
      outcomes := outcomes + [r];
      if r == Panic { return; }
    }
  }

  lemma NothingAsked(space: PageSpace, requests: seq<Request>)
    requires space.Valid() && Covered(space.ram, space.pml4e)
    ensures SoFar(space, space.ram, requests, []) && space.pageFrames.Valid()
    ensures Used(space.ram, space.ram, space.pml4e, space.Pool(), space.Pool(), 0)
  {
    NoneUsed(space.ram, space.ram, space.pml4e, space.Pool(), 0);
  }

  method RunNext(space: PageSpace, ghost start: Ram, requests: seq<Request>, outcomes: seq<Outcome>)
    returns (r: Outcome)
    requires SoFar(space, start, requests, outcomes) && |outcomes| < |requests|
    modifies space`ram, space`blocks, space.pageFrames, space.pageFrames.buffer
    ensures SoFar(space, start, requests, outcomes + [r]) && space.pageFrames.Valid()
    ensures r == Panic ==> |space.Pool()| < 20 && space.blocks == []
    ensures Used(old(space.ram), space.ram, space.pml4e, old(space.Pool()), space.Pool(), 3)
  {
    var next := requests[|outcomes|];
    r := space.MapPage(next.phys, next.virt, next.flags);
    RequestStands(start, old(space.ram), space.ram, space.pml4e, requests, outcomes, r);
    OneMoreAnswered(requests, outcomes, r);
  }

  lemma RequestStands(start: Ram, before: Ram, after: Ram, root: nat, requests: seq<Request>, outcomes: seq<Outcome>,
                      r: Outcome)
    requires |outcomes| < |requests| && AllStand(before, start, root, requests, outcomes)
    requires var next := requests[|outcomes|];
      && OnlyLeaf(before, after, root, r == Mapped, PageOf(next.virt), LeafEntry(next.phys, next.flags))
      && (r == Mapped ==> !Unaligned(next.phys))
    ensures AllStand(after, start, root, requests, outcomes + [r])
  {
    forall q: nat | q < PAGES
      ensures StandsAs(after, start, root, requests, outcomes + [r], q)
    {
      assert StandsAs(before, start, root, requests, outcomes, q);
      LatestOfPrefix(requests, outcomes, r, q);
    }
  }

  lemma LatestOfPrefix(requests: seq<Request>, outcomes: seq<Outcome>, r: Outcome, q: nat)
    requires |outcomes| < |requests|
    ensures Latest(requests, outcomes + [r], |outcomes| + 1, q)
         == if r == Mapped && PageOf(requests[|outcomes|].virt) == q then |outcomes|
            else Latest(requests, outcomes, |outcomes|, q)
  {
    LatestIgnoresRest(requests, outcomes, outcomes + [r], |outcomes|, q);
  }

  lemma {:induction false} LatestIgnoresRest(requests: seq<Request>, a: seq<Outcome>, b: seq<Outcome>, n: nat, q: nat)
    requires n <= |requests| && n <= |a| && n <= |b| && a[..n] == b[..n]
    ensures Latest(requests, a, n, q) == Latest(requests, b, n, q)
    decreases n
  {
    if n > 0 {
      assert a[n - 1] == a[..n][n - 1] == b[n - 1];
      assert a[..n - 1] == a[..n][..n - 1] == b[..n - 1];
      LatestIgnoresRest(requests, a, b, n - 1, q);
    }
  }

  /** At any point of a run, what the processor grants a page follows the latest accepted request for it, whatever was
      mapped through the tables it shares with other pages before or since. */
  lemma EffectivePermissions(space: PageSpace, start: Ram, requests: seq<Request>, outcomes: seq<Outcome>, page: nat)
    requires SoFar(space, start, requests, outcomes) && page < PAGES
    requires var i := Latest(requests, outcomes, |outcomes|, page); i >= 0 && requests[i].phys < PHYS_LIMIT
    ensures var request := requests[Latest(requests, outcomes, |outcomes|, page)];
      && PageTables.Mapped(space.ram, space.pml4e, page)
      && (Writable(space.ram, space.pml4e, page) <==> Test(request.flags, PAGE_FLAG_WRITE))
      && (Executable(space.ram, space.pml4e, page) <==> Test(request.flags, PAGE_FLAG_EXECUTE))
  {
    var request := requests[Latest(requests, outcomes, |outcomes|, page)];
    assert StandsAs(space.ram, start, space.pml4e, requests, outcomes, page);
    LeafDecides(space.ram, space.pml4e, page);
    LeafEntryPermissions(request.phys, request.flags);
  }

  /** At any point of a run, the memory type and the user bit of a page are those its latest accepted request asked
      for, and with an address an entry can hold so is the whole leaf. */
  lemma LatestLeaf(space: PageSpace, start: Ram, requests: seq<Request>, outcomes: seq<Outcome>, page: nat)
    requires SoFar(space, start, requests, outcomes) && page < PAGES
    requires Latest(requests, outcomes, |outcomes|, page) >= 0
    ensures var request := requests[Latest(requests, outcomes, |outcomes|, page)];
      var e := Leaf(space.ram, space.pml4e, page);
      && (HasBit(e, 0x10) <==> HasBit(request.flags, 0x1))
      && (HasBit(e, 0x8) <==>
            || HasBit(request.flags, 0x1) || HasBit(request.flags, 0x2)
            || (HasBit(request.flags, 0x10) && !HasBit(request.flags, 0x4) && !HasBit(request.flags, 0x8)))
      && (HasBit(e, 0x4) <==> HasBit(request.flags, 0x40))
      && (request.phys < PHYS_LIMIT ==>
            e == AccessWord(request.flags)
                 + (if WantsPat(request.flags) && !HasBit(request.phys, 0x1000) then request.phys + 0x1000
                    else request.phys)
                 + if HasBit(request.flags, 0x80) then 0 else 0x8000_0000_0000_0000)
  {
    var request := requests[Latest(requests, outcomes, |outcomes|, page)];
    assert StandsAs(space.ram, start, space.pml4e, requests, outcomes, page);
    hide LeafEntry, HasBit, AccessWord, WantsPat;
    LeafTypes(request.phys, request.flags);
    if request.phys < PHYS_LIMIT { LeafWord(request.phys, request.flags); }
  }

  /** A page that no accepted request named has the rights it had at the start. */
  lemma UntouchedPermissions(space: PageSpace, start: Ram, requests: seq<Request>, outcomes: seq<Outcome>, page: nat)
    requires SoFar(space, start, requests, outcomes) && Covered(start, space.pml4e) && page < PAGES
    requires Latest(requests, outcomes, |outcomes|, page) == -1
    ensures PageTables.Mapped(space.ram, space.pml4e, page) <==> PageTables.Mapped(start, space.pml4e, page)
    ensures Writable(space.ram, space.pml4e, page) <==> Writable(start, space.pml4e, page)
    ensures Executable(space.ram, space.pml4e, page) <==> Executable(start, space.pml4e, page)
  {
    assert StandsAs(space.ram, start, space.pml4e, requests, outcomes, page);
    LeafDecides(space.ram, space.pml4e, page);
    LeafDecides(start, space.pml4e, page);
  }

  // ---- Ranges ------------------------------------------------------------------------------------

  /** The page of turn `b` of mapPages. */
  function StepPage(virt: nat, b: nat): nat { PageOf(PageStep(virt, b % 0x10_0000)) }

  /** What mapPages leaves at page `q`: the 32-bit offset reaches 2^20 pages and no more. */
  function RangeLeaf(before: Ram, root: nat, phys: nat, virt: nat, flags: nat, pages: nat, q: nat): nat {
    var k := PagesAfter(virt, q);
    if k < pages && k < 0x10_0000 && (Test(flags, PAGE_FLAG_MAKE) || TableAt(before, root, Path1(q)) != 0)
    then LeafEntry(PageStep(phys, k), flags) else Leaf(before, root, q)
  }

  /** `after` is `before` with a range of pages mapped by mapPages. */
  ghost predicate RangeMapped(before: Ram, after: Ram, root: nat, phys: nat, virt: nat, flags: nat, pages: nat) {
    forall q: nat :: q < PAGES ==> Leaf(after, root, q) == RangeLeaf(before, root, phys, virt, flags, pages, q)
  }

  /** The addresses of turn `b` of mapPages: the product `b * PAGE_SZ` is taken in 32 bits. */
  method StepAddresses(phys: nat, virt: nat, b: nat) returns (p: nat, v: nat)
    requires phys % PAGE_SZ == 0 && virt % PAGE_SZ == 0
    ensures p == PageStep(phys, b % 0x10_0000) && v == PageStep(virt, b % 0x10_0000)
    ensures !Unaligned(p) && !Unaligned(v)
  {
    var off := b * PAGE_SZ % U32;
    ProductWraps(b);
    StepAligned(phys, b % 0x10_0000);
    StepAligned(virt, b % 0x10_0000);
    p, v := (phys + off) % U64, (virt + off) % U64;
  }

  lemma RangeGrows(start: Ram, before: Ram, after: Ram, root: nat, mapped: bool, phys: nat, virt: nat, flags: nat,
                   b: nat)
    requires virt % PAGE_SZ == 0
    requires RangeMapped(start, before, root, phys, virt, flags, b)
    requires OnlyLeaf(before, after, root, mapped, StepPage(virt, b), LeafEntry(PageStep(phys, b % 0x10_0000), flags))
    requires !mapped <==> !Test(flags, PAGE_FLAG_MAKE) && TableAt(before, root, Path1(StepPage(virt, b))) == 0
    requires !Test(flags, PAGE_FLAG_MAKE) ==> SameTables(start, before, root)
    ensures RangeMapped(start, after, root, phys, virt, flags, b + 1)
  {
    forall q: nat | q < PAGES
      ensures Leaf(after, root, q) == RangeLeaf(start, root, phys, virt, flags, b + 1, q)
    {
      StepLandsOn(virt, b % 0x10_0000, q);
      PathsOfPage(q);
      var made := Test(flags, PAGE_FLAG_MAKE) || TableAt(start, root, Path1(q)) != 0;
      if PagesAfter(virt, q) == b % 0x10_0000 {
        assert mapped == made;
      }
      RangeTurn(PagesAfter(virt, q), b, made, mapped, LeafEntry(PageStep(phys, PagesAfter(virt, q)), flags),
                Leaf(start, root, q), Leaf(before, root, q), Leaf(after, root, q));
    }
  }

  /** How far a range reaches: with MAKE and a type other than UC, WB and WT, page `k` of the range
      is translated to phys + 4096 * k for every k below 2^20, and page 2^20 and later ones, which the
      32-bit offset never reaches, keep the translation they had. */
  lemma RangeTranslation(before: Ram, after: Ram, root: nat, phys: nat, virt: nat, flags: nat, pages: nat, k: nat,
                         v: nat)
    requires root != 0 && !Unaligned(phys) && !Unaligned(virt) && Test(flags, PAGE_FLAG_MAKE) && !AsksForPat(flags)
    requires phys + pages * PAGE_SZ <= PHYS_LIMIT && k < pages < U32 && v == PageStep(virt, k)
    requires RangeMapped(before, after, root, phys, virt, flags, pages)
    ensures VirtToPhysInt(after, root, v)
            == if k < 0x10_0000 then phys + k * PAGE_SZ else VirtToPhysInt(before, root, v)
  {
    RangeLeafAt(before, after, root, phys, virt, flags, pages, k, v);
    if k < 0x10_0000 {
      StepInside(phys, k, pages);
      LeafTranslatesPlainly(after, root, v, phys + k * PAGE_SZ, flags);
    } else {
      SameLeaf(before, after, root, v);
    }
  }

  lemma RangeLeafAt(before: Ram, after: Ram, root: nat, phys: nat, virt: nat, flags: nat, pages: nat, k: nat, v: nat)
    requires virt % PAGE_SZ == 0 && Test(flags, PAGE_FLAG_MAKE) && phys + pages * PAGE_SZ <= PHYS_LIMIT
    requires k < pages < U32
    requires RangeMapped(before, after, root, phys, virt, flags, pages) && v == PageStep(virt, k)
    ensures Leaf(after, root, PageOf(v))
            == if k < 0x10_0000 then LeafEntry(phys + k * PAGE_SZ, flags) else Leaf(before, root, PageOf(v))
  {
    StepLandsOn(virt, k, PageOf(v));
    SmallStep(phys, k);
  }

  lemma StepInside(phys: nat, k: nat, pages: nat)
    requires phys % PAGE_SZ == 0 && phys + pages * PAGE_SZ <= PHYS_LIMIT && k < pages
    ensures (phys + k * PAGE_SZ) % PAGE_SZ == 0 && phys + k * PAGE_SZ < PHYS_LIMIT
  {}

  /** Pages outside the range are left alone. */
  lemma RangeFrame(before: Ram, after: Ram, root: nat, phys: nat, virt: nat, flags: nat, pages: nat, v: nat)
    requires root != 0
    requires RangeMapped(before, after, root, phys, virt, flags, pages)
    requires PagesAfter(virt, PageOf(v)) >= pages
    ensures VirtToPhysInt(after, root, v) == VirtToPhysInt(before, root, v)
  {
    SameLeaf(before, after, root, v);
  }
}
