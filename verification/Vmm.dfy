/** vmalloc and vmallocPhys: markers, frames and page tables together. */
module Vmm {
  import opened Words
  import opened PageBits
  import opened PageTables
  import opened KernelPaging
  import opened Markers
  import opened FrameSource
  import opened FramePool

  const VFLAG_WRITE: nat := 0x1
  const VFLAG_EXEC: nat := 0x2
  const VFLAG_USER: nat := 0x4
  const VFLAG_UC: nat := 0x8
  const VFLAG_MAKE: nat := 0x10
  const VFLAG_WT: nat := 0x20
  const VFLAG_WC: nat := 0x80

  // ---- Flags -------------------------------------------------------------------------------------

  function FormFlags(flags: nat): nat {
    var pf := OrIf(0, Test(flags, VFLAG_WRITE), PAGE_FLAG_WRITE);
    var pf := OrIf(pf, Test(flags, VFLAG_EXEC), PAGE_FLAG_EXECUTE);
    var pf := OrIf(pf, Test(flags, VFLAG_USER), PAGE_FLAG_USER);
    var pf := OrIf(pf, Test(flags, VFLAG_UC), PAGE_FLAG_UC);
    var pf := OrIf(pf, Test(flags, VFLAG_MAKE), PAGE_FLAG_MAKE);
    var pf := OrIf(pf, Test(flags, VFLAG_WT), PAGE_FLAG_WT);
    OrIf(pf, Test(flags, VFLAG_WC), PAGE_FLAG_WC)
  }

  predicate IsFlag(mask: nat) {
    mask == 1 || mask == 2 || mask == 4 || mask == 8 || mask == 16 || mask == 32 || mask == 64 || mask == 128
      || mask == 256
  }

  lemma OneFlag(g: nat, mask: nat)
    requires IsFlag(mask) && IsFlag(g)
    ensures Test(g, mask) <==> g == mask
  {}

  lemma OrIfFlag(e: nat, on: bool, g: nat, mask: nat)
    requires IsFlag(mask) && IsFlag(g)
    ensures Test(OrIf(e, on, g), mask) <==> Test(e, mask) || (on && g == mask)
  {
    OrTest(e, g, mask);
    OneFlag(g, mask);
  }

  lemma {:induction false} NoFlag(mask: nat)
    ensures !Test(0, mask)
    decreases mask
  {
    if mask > 1 { NoFlag(mask / 2); }
  }

  /** Each page flag is set exactly when its request flag is. */
  lemma FormFlagsTest(flags: nat, mask: nat)
    requires IsFlag(mask)
    ensures Test(FormFlags(flags), mask) <==>
      || (mask == PAGE_FLAG_WRITE && Test(flags, VFLAG_WRITE)) || (mask == PAGE_FLAG_EXECUTE && Test(flags, VFLAG_EXEC))
      || (mask == PAGE_FLAG_USER && Test(flags, VFLAG_USER)) || (mask == PAGE_FLAG_UC && Test(flags, VFLAG_UC))
      || (mask == PAGE_FLAG_MAKE && Test(flags, VFLAG_MAKE)) || (mask == PAGE_FLAG_WT && Test(flags, VFLAG_WT))
      || (mask == PAGE_FLAG_WC && Test(flags, VFLAG_WC))
  {
    var p1 := OrIf(0, Test(flags, VFLAG_WRITE), PAGE_FLAG_WRITE);
    var p2 := OrIf(p1, Test(flags, VFLAG_EXEC), PAGE_FLAG_EXECUTE);
    var p3 := OrIf(p2, Test(flags, VFLAG_USER), PAGE_FLAG_USER);
    var p4 := OrIf(p3, Test(flags, VFLAG_UC), PAGE_FLAG_UC);
    var p5 := OrIf(p4, Test(flags, VFLAG_MAKE), PAGE_FLAG_MAKE);
    var p6 := OrIf(p5, Test(flags, VFLAG_WT), PAGE_FLAG_WT);
    NoFlag(mask);
    OrIfFlag(0, Test(flags, VFLAG_WRITE), PAGE_FLAG_WRITE, mask);
    OrIfFlag(p1, Test(flags, VFLAG_EXEC), PAGE_FLAG_EXECUTE, mask);
    OrIfFlag(p2, Test(flags, VFLAG_USER), PAGE_FLAG_USER, mask);
    OrIfFlag(p3, Test(flags, VFLAG_UC), PAGE_FLAG_UC, mask);
    OrIfFlag(p4, Test(flags, VFLAG_MAKE), PAGE_FLAG_MAKE, mask);
    OrIfFlag(p5, Test(flags, VFLAG_WT), PAGE_FLAG_WT, mask);
    OrIfFlag(p6, Test(flags, VFLAG_WC), PAGE_FLAG_WC, mask);
  }

  lemma FormFlagsMake(flags: nat)
    ensures Test(FormFlags(flags), PAGE_FLAG_MAKE) <==> Test(flags, VFLAG_MAKE)
  {
    FormFlagsTest(flags, PAGE_FLAG_MAKE);
  }

  /** A request is mapped with PG_PAT set, so with frames moved, exactly for UC, and for WT without WC. */
  lemma FormFlagsPat(flags: nat)
    ensures AsksForPat(FormFlags(flags)) <==> Test(flags, VFLAG_UC) || (Test(flags, VFLAG_WT) && !Test(flags, VFLAG_WC))
  {
    FormFlagsTest(flags, PAGE_FLAG_UC);
    FormFlagsTest(flags, PAGE_FLAG_WC);
    FormFlagsTest(flags, PAGE_FLAG_WB);
    FormFlagsTest(flags, PAGE_FLAG_WP);
    FormFlagsTest(flags, PAGE_FLAG_WT);
  }

  // ---- The markers of a task --------------------------------------------------------------------

  /** Markers from page 0 up, each starting where the one before ends and none of 2^20 pages or more. */
  predicate Contiguous(ms: seq<Info>) {
    && |ms| > 0 && ms[0].base == 0
    && (forall i :: 0 <= i < |ms| ==> ms[i].base % PAGE_SZ == 0 && 1 <= ms[i].pages < 0x10_0000)
    && (forall i :: 0 <= i < |ms| - 1 ==> ms[i + 1].base == ms[i].base + ms[i].pages * PAGE_SZ)
  }

  /** The first page after the last marker. */
  function TopPage(ms: seq<Info>): nat
    requires ms != []
  {
    ms[|ms| - 1].base / PAGE_SZ + ms[|ms| - 1].pages
  }

  /** A request of less than 4 GiB is appended right after the last marker, as long as the addresses
      stay in 48 bits; with 2^20 pages VMARKER_END is the base again and the next marker lies on top. */
  lemma AppendsAtTop(ms: seq<Info>, pages: nat, flags: nat, kind: nat, minAddr: nat)
    requires Contiguous(ms) && TopPage(ms) < PAGES && 1 <= pages < 0x10_0000
    ensures Position(ms, pages, minAddr) == |ms|
    ensures NewMarker(ms, pages, flags, kind, minAddr) == Info(TopPage(ms) * PAGE_SZ, pages, flags, kind)
    ensures Contiguous(ms + [NewMarker(ms, pages, flags, kind, minAddr)])
    ensures TopPage(ms + [NewMarker(ms, pages, flags, kind, minAddr)]) == TopPage(ms) + pages
  {
    AscendingAppends(ms, pages, minAddr);
    EndIsTop(ms);
    var m := NewMarker(ms, pages, flags, kind, minAddr);
    assert m == Info(End(ms[|ms| - 1]), pages, flags, kind);
    hide NewMarker, Position, End;
    assert TopPage(ms + [m]) == m.base / PAGE_SZ + pages;
  }

  lemma EndIsTop(ms: seq<Info>)
    requires Contiguous(ms) && TopPage(ms) < PAGES
    ensures var last := ms[|ms| - 1];
      End(last) == last.base + last.pages * PAGE_SZ == TopPage(ms) * PAGE_SZ
  {
    EndOfSmall(ms[|ms| - 1]);
  }

  /** VMARKER_END is the end of a marker exactly when the marker has less than 2^20 pages. */
  lemma EndOfSmall(m: Info)
    requires m.base + m.pages * PAGE_SZ < U64
    ensures End(m) == m.base + m.pages * PAGE_SZ <==> m.pages < 0x10_0000
  {}

  /** The marker after a request of any size lies behind it exactly when the request has less than 2^20 pages;
      otherwise the two overlap. */
  lemma NextMarkerApart(ms: seq<Info>, m: Info, pages: nat, flags: nat, kind: nat, minAddr: nat)
    requires Contiguous(ms) && m.base == TopPage(ms) * PAGE_SZ && m.base + m.pages * PAGE_SZ < U64
    ensures var next := NewMarker(ms + [m], pages, flags, kind, minAddr);
      m.base + m.pages * PAGE_SZ <= next.base <==> m.pages < 0x10_0000
  {
    AscendingAppends(ms + [m], pages, minAddr);
    EndOfSmall(m);
    assert m.pages * PAGE_SZ % U32 <= m.pages * PAGE_SZ;
  }

  // ---- Allocations --------------------------------------------------------------------------------

  /** What is behind an allocation: frames of the machine, by their place in the order in which
      getPhysmem handed them out, or a fixed physical address. */
  datatype Backing = Frames(first: nat) | Fixed(phys: nat)

  datatype Allocation = Allocation(page: nat, pages: nat, flags: nat, backing: Backing)

  function FrameOf(a: Allocation, handed: seq<nat>, k: nat): nat {
    match a.backing
    case Frames(first) => if first + k < |handed| then handed[first + k] else 0
    case Fixed(phys) => PageStep(phys, k)
  }

  /** Every page of an allocation is mapped to the frame it was first given. */
  ghost predicate Backed(ram: Ram, root: nat, a: Allocation, handed: seq<nat>) {
    forall k: nat :: k < a.pages ==> Leaf(ram, root, a.page + k) == LeafEntry(FrameOf(a, handed, k), FormFlags(a.flags))
  }

  /** The allocations, oldest first: virtual pages in ascending order below `top`, and frames apart. */
  ghost predicate Arranged(allocs: seq<Allocation>, handed: seq<nat>, top: nat) {
    && (forall i :: 0 <= i < |allocs| ==> allocs[i].page + allocs[i].pages <= top <= PAGES)
    && (forall i, j :: 0 <= i < j < |allocs| ==> allocs[i].page + allocs[i].pages <= allocs[j].page)
    && (forall i :: 0 <= i < |allocs| && allocs[i].backing.Frames? ==>
          allocs[i].backing.first + allocs[i].pages < |handed|)
    && (forall i, j :: 0 <= i < j < |allocs| && allocs[i].backing.Frames? && allocs[j].backing.Frames? ==>
          allocs[i].backing.first + allocs[i].pages < allocs[j].backing.first)
  }

  ghost predicate AllBacked(ram: Ram, root: nat, allocs: seq<Allocation>, handed: seq<nat>) {
    forall i :: 0 <= i < |allocs| ==> Backed(ram, root, allocs[i], handed)
  }

  /** Mapping above the existing allocations, and handing out more frames, leaves them backed. */
  lemma StillBacked(before: Ram, after: Ram, root: nat, allocs: seq<Allocation>, handed: seq<nat>, handed': seq<nat>,
                    top: nat)
    requires Arranged(allocs, handed, top) && AllBacked(before, root, allocs, handed) && handed <= handed'
    requires forall q: nat :: q < top ==> Leaf(after, root, q) == Leaf(before, root, q)
    ensures AllBacked(after, root, allocs, handed')
  {
    forall i | 0 <= i < |allocs|
      ensures Backed(after, root, allocs[i], handed')
    {
      assert Backed(before, root, allocs[i], handed);
      OneStillBacked(before, after, root, allocs[i], handed, handed', top);
    }
  }

  lemma OneStillBacked(before: Ram, after: Ram, root: nat, a: Allocation, handed: seq<nat>, handed': seq<nat>, top: nat)
    requires a.page + a.pages <= top && (a.backing.Frames? ==> a.backing.first + a.pages < |handed|)
    requires Backed(before, root, a, handed) && handed <= handed'
    requires forall q: nat :: q < top ==> Leaf(after, root, q) == Leaf(before, root, q)
    ensures Backed(after, root, a, handed')
  {
    forall k: nat | k < a.pages
      ensures Leaf(after, root, a.page + k) == LeafEntry(FrameOf(a, handed', k), FormFlags(a.flags))
    {
      assert FrameOf(a, handed', k) == FrameOf(a, handed, k);
      var q := a.page + k;
      assert Leaf(after, root, q) == Leaf(before, root, q);
    }
  }

  /** Two pages of two allocations are different pages, and when both come from vmalloc, different frames. */
  lemma Isolated(allocs: seq<Allocation>, handed: seq<nat>, top: nat, i: nat, j: nat, k: nat, l: nat)
    requires Arranged(allocs, handed, top) && AllOnce(multiset(handed))
    requires i < j < |allocs| && k < allocs[i].pages && l < allocs[j].pages
    ensures allocs[i].page + k != allocs[j].page + l
    ensures allocs[i].backing.Frames? && allocs[j].backing.Frames? ==>
            FrameOf(allocs[i], handed, k) != FrameOf(allocs[j], handed, l)
  {
    if allocs[i].backing.Frames? && allocs[j].backing.Frames? {
      OnceMeansDistinct(handed, allocs[i].backing.first + k, allocs[j].backing.first + l);
    }
  }

  lemma OnceMeansDistinct(s: seq<nat>, i: nat, j: nat)
    requires AllOnce(multiset(s)) && i < j < |s|
    ensures s[i] != s[j]
  {
    assert s == s[..j] + [s[j]] + s[j + 1..];
    assert s[i] in s[..j];
    assert multiset(s) == multiset(s[..j]) + multiset{s[j]} + multiset(s[j + 1..]);
    assert multiset(s)[s[j]] == 1;
  }

  // ---- A window of pages ----------------------------------------------------------------------------

  /** The pages from `first` on were mapped to `frames`, if at all possible; no other page changed. */
  ghost predicate Window(before: Ram, after: Ram, root: nat, first: nat, frames: seq<nat>, flags: nat) {
    && (forall q: nat :: q < PAGES && !(first <= q < first + |frames|) ==>
          Leaf(after, root, q) == Leaf(before, root, q))
    && (forall q: nat :: first <= q < first + |frames| ==>
          Leaf(after, root, q)
            == if Mappable(before, root, q, flags) then LeafEntry(frames[q - first], flags) else Leaf(before, root, q))
    && (Test(flags, PAGE_FLAG_MAKE) || SameTables(before, after, root))
  }

  /** Tables for the page are made if missing, or are there. */
  ghost predicate Mappable(ram: Ram, root: nat, q: nat, flags: nat) {
    Test(flags, PAGE_FLAG_MAKE) || TableAt(ram, root, Path1(q)) != 0
  }

  lemma WindowGrows(start: Ram, before: Ram, after: Ram, root: nat, first: nat, frames: seq<nat>, flags: nat,
                    frame: nat, mapped: bool)
    requires Window(start, before, root, first, frames, flags) && first + |frames| < PAGES
    requires OnlyLeaf(before, after, root, mapped, first + |frames|, LeafEntry(frame, flags))
    requires mapped <==> Mappable(before, root, first + |frames|, flags)
    requires Test(flags, PAGE_FLAG_MAKE) || SameTables(before, after, root)
    ensures Window(start, after, root, first, frames + [frame], flags)
  {
    hide LeafEntry, Leaf, Mappable, Test, SameTables;
    var last := first + |frames|;
    TablesAgain(start, before, after, root, flags, last);
    forall q: nat | q < PAGES
      ensures Leaf(after, root, q)
        == if q == last && mapped then LeafEntry(frame, flags) else Leaf(before, root, q)
    {}
    assert (frames + [frame])[last - first] == frame;
  }

  lemma TablesAgain(start: Ram, before: Ram, after: Ram, root: nat, flags: nat, q: nat)
    requires Test(flags, PAGE_FLAG_MAKE) || (SameTables(start, before, root) && SameTables(before, after, root))
    ensures Test(flags, PAGE_FLAG_MAKE) || SameTables(start, after, root)
    ensures Mappable(start, root, q, flags) <==> Mappable(before, root, q, flags)
  {
    PathsOfPage(q);
  }

  lemma NoWindow(ram: Ram, root: nat, first: nat, flags: nat)
    ensures Window(ram, ram, root, first, [], flags)
  {}

  lemma RangeIsWindow(before: Ram, after: Ram, root: nat, phys: nat, virt: nat, flags: nat, pages: nat, a: Allocation)
    requires virt == a.page * PAGE_SZ && a.page + pages <= PAGES && 1 <= pages < 0x10_0000
    requires RangeMapped(before, after, root, phys, virt, flags, pages)
    requires a.pages == pages && a.backing == Fixed(phys) && FormFlags(a.flags) == flags
    ensures forall q: nat :: q < a.page ==> Leaf(after, root, q) == Leaf(before, root, q)
    ensures Test(flags, PAGE_FLAG_MAKE) ==> Backed(after, root, a, [])
  {
    forall q: nat | q < PAGES
      ensures q < a.page ==> Leaf(after, root, q) == Leaf(before, root, q)
      ensures a.page <= q < a.page + pages && Test(flags, PAGE_FLAG_MAKE) ==>
                Leaf(after, root, q) == LeafEntry(PageStep(phys, q - a.page), flags)
    {
      PageOfRange(before, after, root, phys, virt, flags, pages, a.page, q);
    }
    hide Leaf, LeafEntry, Test, PageStep, FormFlags, RangeMapped;
    assert Test(flags, PAGE_FLAG_MAKE) ==> forall k: nat :: k < a.pages ==>
             Leaf(after, root, a.page + k) == LeafEntry(FrameOf(a, [], k), FormFlags(a.flags));
  }

  lemma PageOfRange(before: Ram, after: Ram, root: nat, phys: nat, virt: nat, flags: nat, pages: nat, first: nat,
                    q: nat)
    requires virt == first * PAGE_SZ && first + pages <= PAGES && 1 <= pages < 0x10_0000 && q < PAGES
    requires RangeMapped(before, after, root, phys, virt, flags, pages)
    ensures q < first ==> Leaf(after, root, q) == Leaf(before, root, q)
    ensures first <= q < first + pages && Test(flags, PAGE_FLAG_MAKE) ==>
              Leaf(after, root, q) == LeafEntry(PageStep(phys, q - first), flags)
  {
    PagesFrom(first, virt, q);
    assert Leaf(after, root, q) == RangeLeaf(before, root, phys, virt, flags, pages, q);
    hide Leaf, LeafEntry, Test, PageStep, TableAt, PagesAfter, RangeMapped;
  }

  lemma PagesFrom(first: nat, virt: nat, q: nat)
    requires virt == first * PAGE_SZ && first < PAGES && q < PAGES
    ensures PagesAfter(virt, q) == if q >= first then q - first else q - first + PAGES
  {}

  lemma NextPage(first: nat, virt: nat, i: nat, v: nat)
    requires virt == first * PAGE_SZ && i < 0x10_0000 && first + i < PAGES && v == (virt + i * PAGE_SZ % U32) % U64
    ensures PageOf(v) == first + i && !Unaligned(v)
  {}

  /** The allocations with a new one, if it counts. */
  function With(allocs: seq<Allocation>, a: Allocation, counts: bool): seq<Allocation> {
    if counts then allocs + [a] else allocs
  }

  /** A new allocation above the others: it leaves them backed, and is one of them if it is backed itself. */
  lemma NewAllocation(before: Ram, after: Ram, root: nat, allocs: seq<Allocation>, handed: seq<nat>,
                      handed': seq<nat>, a: Allocation, counts: bool)
    requires Arranged(allocs, handed, a.page) && AllBacked(before, root, allocs, handed)
    requires handed <= handed' && a.page + a.pages < PAGES
    requires a.backing.Frames? ==> a.backing.first == |handed| && |handed| + a.pages < |handed'|
    requires forall q: nat :: q < a.page ==> Leaf(after, root, q) == Leaf(before, root, q)
    requires counts ==> Backed(after, root, a, handed')
    ensures Arranged(With(allocs, a, counts), handed', a.page + a.pages)
    ensures AllBacked(after, root, With(allocs, a, counts), handed')
  {
    StillBacked(before, after, root, allocs, handed, handed', a.page);
    if counts { Appended(after, root, allocs, handed', a); }
  }

  /** The pages a vmalloc maps are backed by its frames; the extra page it maps lies on the page that the
      next marker takes over. */
  lemma FramesBack(before: Ram, after: Ram, root: nat, handed: seq<nat>, frames: seq<nat>, a: Allocation)
    requires a.backing == Frames(|handed|) && |frames| == a.pages + 1 && a.page + a.pages < PAGES
    requires Window(before, after, root, a.page, frames, FormFlags(a.flags)) && Test(FormFlags(a.flags), PAGE_FLAG_MAKE)
    ensures Backed(after, root, a, handed + frames)
    ensures Leaf(after, root, a.page + a.pages) == LeafEntry(frames[a.pages], FormFlags(a.flags))
  {
    forall k: nat | k < a.pages
      ensures Leaf(after, root, a.page + k) == LeafEntry(FrameOf(a, handed + frames, k), FormFlags(a.flags))
    {
      assert (handed + frames)[|handed| + k] == frames[k];
      var q := a.page + k;
      assert Leaf(after, root, q) == LeafEntry(frames[q - a.page], FormFlags(a.flags));
    }
  }

  lemma NewFixed(before: Ram, after: Ram, root: nat, allocs: seq<Allocation>, handed: seq<nat>, a: Allocation,
                 counts: bool)
    requires Arranged(allocs, handed, a.page) && AllBacked(before, root, allocs, handed)
    requires a.backing.Fixed? && a.page + a.pages < PAGES
    requires forall q: nat :: q < a.page ==> Leaf(after, root, q) == Leaf(before, root, q)
    requires counts ==> Backed(after, root, a, [])
    ensures Arranged(With(allocs, a, counts), handed, a.page + a.pages)
    ensures AllBacked(after, root, With(allocs, a, counts), handed)
  {
    if counts { FixedNeedsNoFrames(after, root, a, handed); }
    NewAllocation(before, after, root, allocs, handed, handed, a, counts);
  }

  lemma PagesOfSmall(bytes: nat)
    requires bytes / PAGE_SZ < 0x10_0000
    ensures 1 <= PagesOf(bytes) < 0x10_0000 && PagesFor(bytes, PagesOf(bytes))
  {}

  lemma FixedNeedsNoFrames(ram: Ram, root: nat, a: Allocation, handed: seq<nat>)
    requires a.backing.Fixed? && Backed(ram, root, a, [])
    ensures Backed(ram, root, a, handed)
  {
    forall k: nat | k < a.pages
      ensures Leaf(ram, root, a.page + k) == LeafEntry(FrameOf(a, handed, k), FormFlags(a.flags))
    {
      assert FrameOf(a, [], k) == FrameOf(a, handed, k);
    }
  }

  lemma Appended(ram: Ram, root: nat, allocs: seq<Allocation>, handed: seq<nat>, a: Allocation)
    requires AllBacked(ram, root, allocs, handed) && Backed(ram, root, a, handed)
    ensures AllBacked(ram, root, allocs + [a], handed)
  {}

  /** The pages of a marker hold all bytes asked for exactly when the size is a multiple of the page size or
      less than a page: the division rounds down. */
  lemma RequestCovered(bytes: nat)
    requires bytes / PAGE_SZ < U32
    ensures PagesOf(bytes) * PAGE_SZ >= bytes <==> bytes % PAGE_SZ == 0 || bytes < PAGE_SZ
  {}

  lemma Joined(a: seq<nat>, b: seq<nat>, x: nat)
    ensures a + b + [x] == a + (b + [x])
  {}

  // ---- vmalloc and vmallocPhys ---------------------------------------------------------------------------

  class VirtualMemory {
    const space: PageSpace
    const markers: MarkerList
    const source: PhysFrames
    const heapEnd: nat

    ghost predicate Separate()
      reads this, markers
    {
      && source.stack != space.pageFrames && source.stack.buffer != space.pageFrames.buffer
      && {this, space, space.pageFrames, space.pageFrames.buffer} !! markers.repr
      && {source, source.stack, source.stack.buffer} !! markers.repr
    }

    ghost predicate InOrder()
      reads this, space, space.pageFrames, space.pageFrames.buffer, markers, markers.repr
      reads source, source.stack, source.stack.buffer
    {
      Separate() && space.Valid() && markers.Valid() && source.Valid()
    }

    /** One of the two stacks of frames cannot be refilled: that of tables is short, or that of vmalloc never had
        `needed` frames. */
    ghost predicate OutOfFrames(needed: nat)
      requires space.Valid() && source.Valid()
      reads space, space.pageFrames, space.pageFrames.buffer, source, source.stack, source.stack.buffer
    {
      || (space.blocks == [] && |space.Pool()| < 20)
      || (source.blocks == [] && |source.All()| < needed)
    }

    /** Mapping `n` pages since then has used up no more than three table frames for each, and has turned none of the
        frames of vmalloc, of which none is lost, into a table. */
    ghost predicate Spent(before: Ram, pool: multiset<nat>, all: multiset<nat>, n: nat)
      requires space.Valid() && source.Valid()
      reads space, space.pageFrames, space.pageFrames.buffer, source, source.stack, source.stack.buffer
    {
      Used(before, space.ram, space.pml4e, pool, space.Pool(), 3 * n) && source.All() == all
    }

    /** There are `frames` frames for vmalloc, and 20 for tables besides three for each of `pages` pages. */
    ghost predicate Suffice(frames: nat, pages: nat)
      requires space.Valid() && source.Valid()
      reads space, space.pageFrames, space.pageFrames.buffer, source, source.stack, source.stack.buffer
    {
      |source.All()| >= frames && |space.Pool()| >= 20 + 3 * pages
    }

    /** No frame that vmalloc has, had or will have is a page table or is set aside for one. */
    ghost predicate TablesElsewhere()
      requires space.Valid() && source.Valid()
      reads space, space.pageFrames, space.pageFrames.buffer, source, source.stack, source.stack.buffer
    {
      forall f :: f in source.All() ==> Alien(space.ram, space.pml4e, space.Pool(), f)
    }

    lemma StacksValid()
      requires space.Valid() && source.Valid()
      ensures space.pageFrames.Valid() && source.stack.Valid()
      ensures Spent(space.ram, space.Pool(), source.All(), 0)
      ensures forall frames: nat, pages: nat {:trigger Suffice(frames, pages)} ::
                Suffice(frames, pages) <==> |source.All()| >= frames && |space.Pool()| >= 20 + 3 * pages
      ensures TablesElsewhere() <==> forall f :: f in source.All() ==> Alien(space.ram, space.pml4e, space.Pool(), f)
    {
      NoneUsed(space.ram, space.ram, space.pml4e, space.Pool(), 0);
    }

    lemma SpentMore(start: Ram, pool0: multiset<nat>, before: Ram, pool: multiset<nat>, all: multiset<nat>, n: nat,
                    m: nat)
      requires space.Valid() && source.Valid() && Used(start, before, space.pml4e, pool0, pool, 3 * n)
      requires Spent(before, pool, all, m)
      ensures Spent(start, pool0, all, n + m)
    {
      UsedAgain(start, before, space.ram, space.pml4e, pool0, pool, space.Pool(), 3 * n, 3 * m);
    }

    lemma SpentLess(before: Ram, pool: multiset<nat>, all: multiset<nat>, n: nat, m: nat)
      requires space.Valid() && source.Valid() && Spent(before, pool, all, n) && n <= m
      ensures Spent(before, pool, all, m)
    {
      UsedLess(before, space.ram, space.pml4e, pool, space.Pool(), 3 * n, 3 * m);
    }

    lemma SpentMeans(before: Ram, pool: multiset<nat>, all: multiset<nat>, n: nat)
      requires space.Valid() && source.Valid() && Spent(before, pool, all, n)
      ensures source.stack.Valid() && space.pageFrames.Valid() && source.All() == all
      ensures Used(before, space.ram, space.pml4e, pool, space.Pool(), 3 * n) && |pool| <= |space.Pool()| + 3 * n
      ensures (forall f :: f in all ==> Alien(before, space.pml4e, pool, f)) ==> TablesElsewhere()
    {}

    /** The machine is in order and every allocation of `allocs` is backed as it was when it was made. */
    ghost predicate Holds(allocs: seq<Allocation>)
      reads this, space, space.pageFrames, space.pageFrames.buffer, markers, markers.repr
      reads source, source.stack, source.stack.buffer
    {
      && InOrder()
      && Contiguous(markers.infos)
      && Arranged(allocs, source.handed, TopPage(markers.infos))
      && AllBacked(space.ram, space.pml4e, allocs, source.handed)
    }

    constructor (s: PageSpace, m: MarkerList, f: PhysFrames, end: nat)
      requires s.Valid() && m.Valid() && f.Valid() && m.infos == [Info(0, 1, 0, 0)]
      requires f.stack != s.pageFrames && f.stack.buffer != s.pageFrames.buffer
      requires {s, s.pageFrames, s.pageFrames.buffer, f, f.stack, f.stack.buffer} !! m.repr
      ensures Holds([]) && space == s && markers == m && source == f
    {
      space, markers, source, heapEnd := s, m, f, end;
    }

    /** mapPage at page `i` from `virt` on. */
    method MapNext(ghost first: nat, virt: nat, i: nat, phys: nat, flags: nat) returns (r: Outcome)
      requires Separate() && space.Valid() && source.Valid()
      requires virt == first * PAGE_SZ && phys % PAGE_SZ == 0 && i < 0x10_0000 && first + i < PAGES
      modifies space`ram, space`blocks, space.pageFrames, space.pageFrames.buffer
      ensures space.Valid() && source.Valid() && source.handed == old(source.handed)
      ensures OnlyLeaf(old(space.ram), space.ram, space.pml4e, r == KernelPaging.Mapped, first + i,
                       LeafEntry(phys, flags))
      ensures r == KernelPaging.Panic
              || (r == KernelPaging.Mapped <==> Mappable(old(space.ram), space.pml4e, first + i, flags))
      ensures Test(flags, PAGE_FLAG_MAKE) || SameTables(old(space.ram), space.ram, space.pml4e)
      ensures r == KernelPaging.Panic ==> OutOfFrames(0)
      ensures Spent(old(space.ram), old(space.Pool()), old(source.All()), 1)
    {
      StacksValid();
      hide PageSpace.Valid, PhysFrames.Valid, OnlyLeaf, LeafEntry, Test, Used, RunsOf, Path1, PageSpace.Pool, Covered;
      hide SameTables, TableAt, TablesElsewhere, Suffice, UpperBits;
      var v := (virt + i * PAGE_SZ % U32) % U64;
      NextPage(first, virt, i, v);
      r := space.MapPage(phys, v, flags);
    }

    /** The next frame for a page. */
    method NextFrame() returns (ok: bool, phys: nat)
      requires Separate() && space.Valid() && source.Valid()
      modifies source, source.stack, source.stack.buffer
      ensures space.Valid() && source.Valid() && source.handed == old(source.handed) + (if ok then [phys] else [])
      ensures ok ==> phys % PAGE_SZ == 0
      ensures Spent(old(space.ram), old(space.Pool()), old(source.All()), 0)
      ensures !ok ==> OutOfFrames(|old(source.handed)| + 1)
    {
      StacksValid();
      hide PageSpace.Valid, PhysFrames.Valid, Used, RunsOf, PageSpace.Pool, IsTop, Refilled, TablesElsewhere, Suffice;
      hide Spent, OutOfFrames;
      ok, phys := source.GetPhysmem();
      StacksValid();
      if !ok { NoFrameLeft(); }
    }

    /** One turn of the loop of vmalloc: a new frame behind page `i`. */
    method BackNext(ghost first: nat, virt: nat, i: nat, flags: nat, ghost start: Ram, ghost frames: seq<nat>)
      returns (ok: bool, phys: nat)
      requires Separate() && space.Valid() && source.Valid() && i == |frames|
      requires virt == first * PAGE_SZ && i < 0x10_0000 && first + i < PAGES
      requires Window(start, space.ram, space.pml4e, first, frames, flags)
      modifies space`ram, space`blocks, space.pageFrames, space.pageFrames.buffer
      modifies source, source.stack, source.stack.buffer
      ensures space.Valid() && source.Valid()
      ensures ok ==> source.handed == old(source.handed) + [phys]
      ensures ok ==> Window(start, space.ram, space.pml4e, first, frames + [phys], flags)
      ensures Spent(old(space.ram), old(space.Pool()), old(source.All()), 1)
      ensures !ok ==> OutOfFrames(|old(source.handed)| + 1)
    {
      hide *;
      StacksValid();
      ghost var before, pool, all := space.ram, space.Pool(), source.All();
      ok, phys := NextFrame();
      if !ok {
        SpentLess(before, pool, all, 0, 1);
        return;
      }
      SpentMeans(before, pool, all, 0);
      ghost var left := space.Pool();
      var r := MapNext(first, virt, i, phys, flags);
      SpentMore(before, pool, before, left, all, 0, 1);
      if r == KernelPaging.Panic {
        MoreNeeded(0, |old(source.handed)| + 1);
        return false, phys;
      }
      WindowGrows(start, before, space.ram, space.pml4e, first, frames, flags, phys, r == KernelPaging.Mapped);
    }

    /** The loop of vmalloc: frames behind `pages` pages from `virt` on, and behind one more. */
    method BackPages(ghost first: nat, virt: nat, pages: nat, flags: nat) returns (ok: bool, ghost frames: seq<nat>)
      requires Separate() && space.Valid() && source.Valid()
      requires virt == first * PAGE_SZ && pages < 0x10_0000 && first + pages < PAGES
      modifies space`ram, space`blocks, space.pageFrames, space.pageFrames.buffer
      modifies source, source.stack, source.stack.buffer
      ensures space.Valid() && source.Valid()
      ensures ok ==> |frames| == pages + 1 && source.handed == old(source.handed) + frames
      ensures ok ==> Window(old(space.ram), space.ram, space.pml4e, first, frames, flags)
      ensures Spent(old(space.ram), old(space.Pool()), old(source.All()), pages + 1)
      ensures !ok ==> OutOfFrames(|old(source.handed)| + pages + 1)
    {
      hide *;
      frames := [];
      var i: nat := 0;
      NoWindow(space.ram, space.pml4e, first, flags);
      StacksValid();
      ghost var pool, all := space.Pool(), source.All();
      while i <= pages
        invariant i <= pages + 1 && space.Valid() && source.Valid()
        invariant |frames| == i && source.handed == old(source.handed) + frames
        invariant Window(old(space.ram), space.ram, space.pml4e, first, frames, flags)
        invariant Spent(old(space.ram), pool, all, i)
      {
        var phys;
        SpentMeans(old(space.ram), pool, all, i);
        ghost var before, left := space.ram, space.Pool();
        ok, phys := BackNext(first, virt, i, flags, old(space.ram), frames);
        SpentMore(old(space.ram), pool, before, left, all, i, 1);
        if !ok {
          SpentLess(old(space.ram), pool, all, i + 1, pages + 1);
          MoreNeeded(|old(source.handed)| + i + 1, |old(source.handed)| + pages + 1);
          return;
        }
        Joined(old(source.handed), frames, phys);
        frames := frames + [phys];
        i := i + 1;
      }
      ok := true;
    }

    lemma NoFrameLeft()
      requires space.Valid() && source.Valid() && source.blocks == [] && source.stack.Contents() == []
      ensures OutOfFrames(|source.handed| + 1)
    {
      NothingElse(source.handed, source.stack.Contents(), source.blocks);
    }

    lemma NotShort(needed: nat)
      requires space.Valid() && source.Valid()
      ensures space.pageFrames.Valid() && source.stack.Valid()
      ensures |space.Pool()| >= 20 && |source.All()| >= needed ==> !OutOfFrames(needed)
    {}

    lemma MoreNeeded(n: nat, m: nat)
      requires space.Valid() && source.Valid() && OutOfFrames(n) && n <= m
      ensures OutOfFrames(m)
    {}

    /** A marker for a request, behind all others. */
    method TakeMarker(bytes: nat, kind: nat, flags: nat) returns (virt: nat)
      requires InOrder() && Contiguous(markers.infos) && bytes / PAGE_SZ < 0x10_0000 && TopPage(markers.infos) < PAGES
      modifies markers.repr
      ensures InOrder() && Contiguous(markers.infos) && fresh(markers.repr - old(markers.repr))
      ensures virt == old(TopPage(markers.infos)) * PAGE_SZ
      ensures TopPage(markers.infos) == old(TopPage(markers.infos)) + PagesOf(bytes)
      ensures space.ram == old(space.ram) && space.Pool() == old(space.Pool())
      ensures source.handed == old(source.handed) && source.All() == old(source.All())
    {
      StacksValid();
      hide PageSpace.Valid, PhysFrames.Valid, MarkerList.Valid, Used, RunsOf, PageSpace.Pool;
      AppendsAtTop(markers.infos, PagesOf(bytes), flags, kind, PreferredMinAddress(kind, flags, heapEnd));
      var marker := markers.AllocMarker(bytes, kind, flags, heapEnd);
      assert markers.infos == old(markers.infos) + [marker];
      virt := marker.base;
    }

    /** The frames and mappings of a vmalloc. */
    method Fill(ghost a: Allocation, virt: nat, pages: nat, flags: nat) returns (ok: bool)
      requires InOrder()
      requires virt == a.page * PAGE_SZ && pages == a.pages < 0x10_0000 && a.page + pages < PAGES
      requires a.backing == Frames(|source.handed|) && flags == FormFlags(a.flags)
      modifies space`ram, space`blocks, space.pageFrames, space.pageFrames.buffer
      modifies source, source.stack, source.stack.buffer
      ensures InOrder() && markers.infos == old(markers.infos)
      ensures ok ==> old(source.handed) <= source.handed && |source.handed| == |old(source.handed)| + pages + 1
      ensures ok ==> forall q: nat :: q < a.page ==>
              Leaf(space.ram, space.pml4e, q) == Leaf(old(space.ram), space.pml4e, q)
      ensures ok && Test(flags, PAGE_FLAG_MAKE) ==> Backed(space.ram, space.pml4e, a, source.handed)
      ensures ok ==>
              Window(old(space.ram), space.ram, space.pml4e, a.page, source.handed[|old(source.handed)|..], flags)
      ensures Spent(old(space.ram), old(space.Pool()), old(source.All()), pages + 1)
      ensures !ok ==> OutOfFrames(|old(source.handed)| + pages + 1)
    {
      hide PageSpace.Valid, PhysFrames.Valid, MarkerList.Valid, Used, RunsOf, PageSpace.Pool, TablesElsewhere, Suffice;
      hide Spent, OutOfFrames, Backed, LeafEntry, Path1, TableAt, Test;
      ghost var frames;
      ok, frames := BackPages(a.page, virt, pages, flags);
      if ok { assert source.handed[|old(source.handed)|..] == frames; }
      if ok && Test(flags, PAGE_FLAG_MAKE) {
        FramesBack(old(space.ram), space.ram, space.pml4e, old(source.handed), frames, a);
      }
    }

    /** The mappings of a vmallocPhys. */
    method MapFixed(ghost a: Allocation, virt: nat, pages: nat, flags: nat, phys: nat) returns (ok: bool)
      requires InOrder() && virt == a.page * PAGE_SZ && 1 <= pages == a.pages < 0x10_0000 && a.page + pages < PAGES
      requires a.backing == Fixed(phys) && flags == FormFlags(a.flags)
      modifies space`ram, space`blocks, space.pageFrames, space.pageFrames.buffer
      ensures InOrder() && markers.infos == old(markers.infos)
      ensures ok ==> forall q: nat :: q < a.page ==>
              Leaf(space.ram, space.pml4e, q) == Leaf(old(space.ram), space.pml4e, q)
      ensures ok && Test(flags, PAGE_FLAG_MAKE) && !Unaligned(phys) ==> Backed(space.ram, space.pml4e, a, [])
      ensures ok ==> if Unaligned(phys) then space.ram == old(space.ram)
                     else RangeMapped(old(space.ram), space.ram, space.pml4e, phys, virt, flags, pages)
      ensures Spent(old(space.ram), old(space.Pool()), old(source.All()), pages + 1)
      ensures !ok ==> OutOfFrames(0)
    {
      hide PageSpace.Valid, PhysFrames.Valid, MarkerList.Valid, Used, RunsOf, PageSpace.Pool, Leaf, Path1, TableAt;
      assert !Unaligned(virt);
      StacksValid();
      ghost var pool, all := space.Pool(), source.All();
      ok := space.MapPages(phys, virt, flags, pages);
      SpentLess(old(space.ram), pool, all, pages, pages + 1);
      if ok && !Unaligned(phys) {
        RangeIsWindow(old(space.ram), space.ram, space.pml4e, phys, virt, flags, pages, a);
      }
    }

    lemma HoldsMeans(allocs: seq<Allocation>)
      requires Holds(allocs)
      ensures InOrder() && space.Valid() && source.Valid() && Contiguous(markers.infos) && markers.infos != []
      ensures Arranged(allocs, source.handed, TopPage(markers.infos))
      ensures AllBacked(space.ram, space.pml4e, allocs, source.handed)
    {}

    lemma HoldsIs(allocs: seq<Allocation>)
      requires InOrder() && Contiguous(markers.infos) && Arranged(allocs, source.handed, TopPage(markers.infos))
      requires AllBacked(space.ram, space.pml4e, allocs, source.handed)
      ensures Holds(allocs) && markers.infos != []
    {}

    lemma OrderMeans()
      requires InOrder()
      ensures space.Valid() && source.Valid()
    {}

    /** Allocates virtual memory with new frames behind it; `ok` is false when the kernel panics. `allocs` are the
        allocations so far, and the ghost result is the list with the new one, which counts if it asked for MAKE. */
    method Vmalloc(bytes: nat, kind: nat, flags: nat, ghost allocs: seq<Allocation>)
      returns (ok: bool, virt: nat, ghost allocs': seq<Allocation>)
      requires Holds(allocs) && bytes / PAGE_SZ < 0x10_0000 && TopPage(markers.infos) + PagesOf(bytes) < PAGES
      modifies markers.repr, space`ram, space`blocks, space.pageFrames, space.pageFrames.buffer
      modifies source, source.stack, source.stack.buffer
      ensures ok ==> Holds(allocs') && virt == old(TopPage(markers.infos)) * PAGE_SZ
      ensures ok ==> markers.infos != [] && TopPage(markers.infos) == old(TopPage(markers.infos)) + PagesOf(bytes)
      ensures PagesFor(bytes, PagesOf(bytes))
      ensures ok ==> old(source.handed) <= source.handed && |source.handed| == |old(source.handed)| + PagesOf(bytes) + 1
      ensures
        var a := Allocation(old(TopPage(markers.infos)), PagesOf(bytes), flags, Frames(|old(source.handed)|));
        allocs' == With(allocs, a, Test(flags, VFLAG_MAKE))
      ensures ok ==> Window(old(space.ram), space.ram, space.pml4e, old(TopPage(markers.infos)),
                            source.handed[|old(source.handed)|..], FormFlags(flags))
      ensures ok ==> fresh(markers.repr - old(markers.repr))
      ensures space.Valid() && source.Valid()
      ensures Spent(old(space.ram), old(space.Pool()), old(source.All()), PagesOf(bytes) + 1)
      ensures !ok ==> OutOfFrames(|old(source.handed)| + PagesOf(bytes) + 1)
    {
      hide *;
      HoldsMeans(allocs);
      StacksValid();
      var pages := PagesOf(bytes);
      PagesOfSmall(bytes);
      ghost var a := Allocation(TopPage(markers.infos), pages, flags, Frames(|source.handed|));
      virt := TakeMarker(bytes, kind, flags);
      FormFlagsMake(flags);
      ok := Fill(a, virt, pages, FormFlags(flags));
      OrderMeans();
      allocs' := With(allocs, a, Test(flags, VFLAG_MAKE));
      if ok {
        NewAllocation(old(space.ram), space.ram, space.pml4e, allocs, old(source.handed), source.handed, a,
                      Test(flags, VFLAG_MAKE));
        HoldsIs(allocs');
      }
    }

    /** Allocates virtual memory for a given physical range. An unaligned physical address gets addresses
        with nothing behind them, which do not count as an allocation. */
    method VmallocPhys(phys: nat, bytes: nat, kind: nat, flags: nat, ghost allocs: seq<Allocation>)
      returns (ok: bool, virt: nat, ghost allocs': seq<Allocation>)
      requires Holds(allocs) && bytes / PAGE_SZ < 0x10_0000 && TopPage(markers.infos) + PagesOf(bytes) < PAGES
      modifies markers.repr, space`ram, space`blocks, space.pageFrames, space.pageFrames.buffer
      ensures ok ==> Holds(allocs') && virt == old(TopPage(markers.infos)) * PAGE_SZ
      ensures ok ==> markers.infos != [] && TopPage(markers.infos) == old(TopPage(markers.infos)) + PagesOf(bytes)
      ensures PagesFor(bytes, PagesOf(bytes))
      ensures ok ==> source.handed == old(source.handed)
      ensures
        var a := Allocation(old(TopPage(markers.infos)), PagesOf(bytes), flags, Fixed(phys));
        allocs' == With(allocs, a, Test(flags, VFLAG_MAKE) && !Unaligned(phys))
      ensures ok ==> if Unaligned(phys) then space.ram == old(space.ram)
        else RangeMapped(old(space.ram), space.ram, space.pml4e, phys, virt, FormFlags(flags), PagesOf(bytes))
      ensures ok ==> fresh(markers.repr - old(markers.repr))
      ensures space.Valid() && source.Valid()
      ensures Spent(old(space.ram), old(space.Pool()), old(source.All()), PagesOf(bytes) + 1)
      ensures !ok ==> OutOfFrames(0)
    {
      hide *;
      HoldsMeans(allocs);
      StacksValid();
      var pages := PagesOf(bytes);
      PagesOfSmall(bytes);
      ghost var a := Allocation(TopPage(markers.infos), pages, flags, Fixed(phys));
      virt := TakeMarker(bytes, kind, flags);
      FormFlagsMake(flags);
      ok := MapFixed(a, virt, pages, FormFlags(flags), phys);
      OrderMeans();
      ghost var counts := Test(flags, VFLAG_MAKE) && !Unaligned(phys);
      allocs' := With(allocs, a, counts);
      if ok {
        NewFixed(old(space.ram), space.ram, space.pml4e, allocs, source.handed, a, counts);
        HoldsIs(allocs');
      }
    }
  }

  // ---- Whole runs ----------------------------------------------------------------------------------------

  datatype Call = Virtual(bytes: nat, kind: nat, flags: nat) | Physical(phys: nat, bytes: nat, kind: nat, flags: nat)

  /** Pages taken and frames used up by the first `n` calls; a vmalloc uses one frame more than it has pages. */
  function PagesTaken(calls: seq<Call>, n: nat): nat
    requires n <= |calls|
  {
    if n == 0 then 0 else PagesTaken(calls, n - 1) + PagesOf(calls[n - 1].bytes)
  }

  function FramesUsed(calls: seq<Call>, n: nat): nat
    requires n <= |calls|
  {
    if n == 0 then 0
    else FramesUsed(calls, n - 1) + if calls[n - 1].Virtual? then PagesOf(calls[n - 1].bytes) + 1 else 0
  }

  /** The bytes of address space a request takes: whole pages, rounded down, and one page below that. */
  function Rounded(bytes: nat): nat { if bytes < 0x1000 then 0x1000 else bytes - bytes % 0x1000 }

  lemma RoundedPages(bytes: nat)
    requires bytes < 0x1000_0000_0000
    ensures PagesOf(bytes) * 0x1000 == Rounded(bytes)
  {}

  lemma Steps(calls: seq<Call>, addrs: seq<nat>)
    requires |addrs| == |calls| && forall i :: 0 <= i < |calls| ==> calls[i].bytes / PAGE_SZ < 0x10_0000
    requires forall i :: 0 <= i < |addrs| ==> addrs[i] == (1 + PagesTaken(calls, i)) * PAGE_SZ
    ensures calls == [] || addrs[0] == 0x1000
    ensures forall i :: 0 <= i < |calls| - 1 ==> addrs[i + 1] == addrs[i] + Rounded(calls[i].bytes)
  {
    forall i | 0 <= i < |calls| - 1
      ensures addrs[i + 1] == addrs[i] + Rounded(calls[i].bytes)
    {
      RoundedPages(calls[i].bytes);
      assert PagesTaken(calls, i + 1) == PagesTaken(calls, i) + PagesOf(calls[i].bytes);
    }
  }

  /** The pages the first `n` calls map, at most. */
  function PagesMapped(calls: seq<Call>, n: nat): nat
    requires n <= |calls|
  {
    PagesTaken(calls, n) + n
  }

  lemma MappedMore(calls: seq<Call>, n: nat)
    requires n < |calls|
    ensures PagesMapped(calls, n + 1) == PagesMapped(calls, n) + (PagesOf(calls[n].bytes) + 1)
  {}

  lemma {:induction false} UseGrows(calls: seq<Call>, n: nat, m: nat)
    requires n <= m <= |calls|
    ensures FramesUsed(calls, n) <= FramesUsed(calls, m) && PagesMapped(calls, n) <= PagesMapped(calls, m)
    decreases m
  {
    if n < m { UseGrows(calls, n, m - 1); }
  }

  /** Where a run stops: frames can only have run out when there were too few for all its calls. */
  lemma Stopped(vm: VirtualMemory, calls: seq<Call>, n: nat, start: Ram, pool: multiset<nat>, all: multiset<nat>)
    requires n <= |calls| && vm.space.Valid() && vm.source.Valid() && vm.Spent(start, pool, all, PagesMapped(calls, n))
    ensures vm.OutOfFrames(FramesUsed(calls, n)) ==> vm.OutOfFrames(FramesUsed(calls, |calls|))
    ensures |all| >= FramesUsed(calls, |calls|) && |pool| >= 20 + 3 * PagesMapped(calls, |calls|) ==>
              !vm.OutOfFrames(FramesUsed(calls, n))
    ensures (forall f :: f in all ==> Alien(start, vm.space.pml4e, pool, f)) ==> vm.TablesElsewhere()
  {
    UseGrows(calls, n, |calls|);
    vm.SpentMeans(start, pool, all, PagesMapped(calls, n));
    hide *;
    vm.NotShort(FramesUsed(calls, n));
    if vm.OutOfFrames(FramesUsed(calls, n)) { vm.MoreNeeded(FramesUsed(calls, n), FramesUsed(calls, |calls|)); }
  }

  /** The allocations made by the first `n` calls, from page 1 on. */
  function AllocationsOf(calls: seq<Call>, n: nat): seq<Allocation>
    requires n <= |calls|
  {
    if n == 0 then [] else
    var c := calls[n - 1];
    var backing := if c.Virtual? then Frames(FramesUsed(calls, n - 1)) else Fixed(c.phys);
    With(AllocationsOf(calls, n - 1), Allocation(1 + PagesTaken(calls, n - 1), PagesOf(c.bytes), c.flags, backing),
         Test(c.flags, VFLAG_MAKE) && (c.Virtual? || !Unaligned(c.phys)))
  }

  lemma {:induction false} PagesTakenGrow(calls: seq<Call>, n: nat, m: nat)
    requires n <= m <= |calls|
    ensures PagesTaken(calls, n) <= PagesTaken(calls, m)
    decreases m
  {
    if n < m { PagesTakenGrow(calls, n, m - 1); }
  }

  /** After the first `n` calls of a run: their allocations hold, and the next page and frame are known. */
  ghost predicate After(vm: VirtualMemory, calls: seq<Call>, n: nat)
    requires n <= |calls|
    reads vm, vm.space, vm.space.pageFrames, vm.space.pageFrames.buffer, vm.markers, vm.markers.repr
    reads vm.source, vm.source.stack, vm.source.stack.buffer
  {
    && vm.Holds(AllocationsOf(calls, n))
    && vm.markers.infos != [] && TopPage(vm.markers.infos) == 1 + PagesTaken(calls, n)
    && |vm.source.handed| == FramesUsed(calls, n)
  }

  lemma NoCallsYet(vm: VirtualMemory, calls: seq<Call>)
    requires vm.Holds([]) && vm.markers.infos == [Info(0, 1, 0, 0)] && vm.source.handed == []
    ensures After(vm, calls, 0) && PagesMapped(calls, 0) == 0 && vm.space.Valid() && vm.source.Valid()
  {}

  method RunCall(vm: VirtualMemory, calls: seq<Call>, n: nat) returns (ok: bool, virt: nat)
    requires n < |calls| && After(vm, calls, n)
    requires calls[n].bytes / PAGE_SZ < 0x10_0000 && 1 + PagesTaken(calls, n + 1) < PAGES
    modifies vm.markers.repr, vm.space`ram, vm.space`blocks, vm.space.pageFrames, vm.space.pageFrames.buffer
    modifies vm.source, vm.source.stack, vm.source.stack.buffer
    ensures ok ==> After(vm, calls, n + 1) && virt == (1 + PagesTaken(calls, n)) * PAGE_SZ
    ensures ok ==> fresh(vm.markers.repr - old(vm.markers.repr))
    ensures vm.space.Valid() && vm.source.Valid()
    ensures vm.Spent(old(vm.space.ram), old(vm.space.Pool()), old(vm.source.All()), PagesOf(calls[n].bytes) + 1)
    ensures !ok ==> vm.OutOfFrames(FramesUsed(calls, n + 1))
  {
    hide *;
    AfterMeans(vm, calls, n);
    CallMakes(calls, n);
    ghost var allocs;
    match calls[n] {
      case Virtual(bytes, kind, flags) =>
        ok, virt, allocs := vm.Vmalloc(bytes, kind, flags, AllocationsOf(calls, n));
      case Physical(phys, bytes, kind, flags) =>
        ok, virt, allocs := vm.VmallocPhys(phys, bytes, kind, flags, AllocationsOf(calls, n));
        if !ok { vm.MoreNeeded(0, FramesUsed(calls, n + 1)); }
    }
    if ok { AfterIs(vm, calls, n + 1); }
  }

  lemma AfterMeans(vm: VirtualMemory, calls: seq<Call>, n: nat)
    requires n <= |calls| && After(vm, calls, n)
    ensures vm.Holds(AllocationsOf(calls, n)) && vm.space.Valid() && vm.source.Valid()
    ensures vm.space.pageFrames.Valid() && vm.source.stack.Valid()
    ensures vm.markers.infos != [] && TopPage(vm.markers.infos) == 1 + PagesTaken(calls, n)
    ensures |vm.source.handed| == FramesUsed(calls, n)
  {}

  lemma AfterIs(vm: VirtualMemory, calls: seq<Call>, n: nat)
    requires n <= |calls| && vm.Holds(AllocationsOf(calls, n)) && |vm.source.handed| == FramesUsed(calls, n)
    requires vm.markers.infos != [] && TopPage(vm.markers.infos) == 1 + PagesTaken(calls, n)
    ensures After(vm, calls, n)
  {}

  /** What one more call adds. */
  lemma CallMakes(calls: seq<Call>, n: nat)
    requires n < |calls|
    ensures PagesTaken(calls, n + 1) == PagesTaken(calls, n) + PagesOf(calls[n].bytes)
    ensures FramesUsed(calls, n + 1)
         == FramesUsed(calls, n) + if calls[n].Virtual? then PagesOf(calls[n].bytes) + 1 else 0
    ensures var c := calls[n];
      var backing := if c.Virtual? then Frames(FramesUsed(calls, n)) else Fixed(c.phys);
      AllocationsOf(calls, n + 1)
      == With(AllocationsOf(calls, n), Allocation(1 + PagesTaken(calls, n), PagesOf(c.bytes), c.flags, backing),
              Test(c.flags, VFLAG_MAKE) && (c.Virtual? || !Unaligned(c.phys)))
  {}

  /** Any sequence of calls on a new address space, up to a panic: each returns the page after the last one's, and
      at the end every allocation made on the way is backed by the frames it got when it was made. There is no panic
      as long as there are the frames that the calls use, and 20 frames for tables besides three for each page. Frames
      that were no tables, nor meant for any, never become some. */
  method RunCalls(vm: VirtualMemory, calls: seq<Call>) returns (ok: bool, addrs: seq<nat>)
    requires vm.Holds([]) && vm.markers.infos == [Info(0, 1, 0, 0)] && vm.source.handed == []
    requires forall i :: 0 <= i < |calls| ==> calls[i].bytes / PAGE_SZ < 0x10_0000
    requires 1 + PagesTaken(calls, |calls|) < PAGES
    modifies vm.markers.repr, vm.space`ram, vm.space`blocks, vm.space.pageFrames, vm.space.pageFrames.buffer
    modifies vm.source, vm.source.stack, vm.source.stack.buffer
    ensures ok ==> After(vm, calls, |calls|) && |addrs| == |calls|
    ensures ok ==> forall i :: 0 <= i < |calls| ==> addrs[i] == (1 + PagesTaken(calls, i)) * PAGE_SZ
    ensures ok ==> calls == [] || addrs[0] == 0x1000
    ensures ok ==> forall i :: 0 <= i < |calls| - 1 ==> addrs[i + 1] == addrs[i] + Rounded(calls[i].bytes)
    ensures vm.space.Valid() && vm.source.Valid() && (!ok ==> vm.OutOfFrames(FramesUsed(calls, |calls|)))
    ensures old(vm.Suffice(FramesUsed(calls, |calls|), PagesMapped(calls, |calls|))) ==> ok
    ensures old(vm.TablesElsewhere()) ==> vm.TablesElsewhere()
  {
    hide *;
    NoCallsYet(vm, calls);
    vm.StacksValid();
    ghost var pool, all := vm.space.Pool(), vm.source.All();
    addrs := [];
    while |addrs| < |calls|
      invariant |addrs| <= |calls| && After(vm, calls, |addrs|) && vm.space.Valid() && vm.source.Valid()
      invariant forall i :: 0 <= i < |addrs| ==> addrs[i] == (1 + PagesTaken(calls, i)) * PAGE_SZ
      invariant fresh(vm.markers.repr - old(vm.markers.repr))
      invariant vm.Spent(old(vm.space.ram), pool, all, PagesMapped(calls, |addrs|))
    {
      PagesTakenGrow(calls, |addrs| + 1, |calls|);
      vm.SpentMeans(old(vm.space.ram), pool, all, PagesMapped(calls, |addrs|));
      ghost var before, left, n := vm.space.ram, vm.space.Pool(), PagesMapped(calls, |addrs|);
      var virt;
      ok, virt := RunCall(vm, calls, |addrs|);
      MappedMore(calls, |addrs|);
      vm.SpentMore(old(vm.space.ram), pool, before, left, all, n, PagesOf(calls[|addrs|].bytes) + 1);
      if !ok {
        Stopped(vm, calls, |addrs| + 1, old(vm.space.ram), pool, all);
        return;
      }
      addrs := addrs + [virt];
    }
    ok := true;
    Stopped(vm, calls, |addrs|, old(vm.space.ram), pool, all);
    Steps(calls, addrs);
  }

  lemma {:induction false} FixedAligned(calls: seq<Call>, n: nat, i: nat)
    requires n <= |calls| && i < |AllocationsOf(calls, n)|
    ensures var b := AllocationsOf(calls, n)[i].backing; b.Fixed? ==> !Unaligned(b.phys)
    decreases n
  {
    if i < |AllocationsOf(calls, n - 1)| { FixedAligned(calls, n - 1, i); }
  }

  /** At any point of a run, every page of every allocation is translated to the frame it was first given, unless
      the request was for UC or WT memory. */
  lemma RunTranslates(vm: VirtualMemory, calls: seq<Call>, n: nat, i: nat, k: nat)
    requires n <= |calls| && After(vm, calls, n) && i < |AllocationsOf(calls, n)|
    requires var a := AllocationsOf(calls, n)[i];
      && k < a.pages && !Test(a.flags, VFLAG_UC) && !(Test(a.flags, VFLAG_WT) && !Test(a.flags, VFLAG_WC))
      && (a.backing.Fixed? ==> a.backing.phys + a.pages * PAGE_SZ <= PHYS_LIMIT)
    ensures var a := AllocationsOf(calls, n)[i];
      VirtToPhysInt(vm.space.ram, vm.space.pml4e, (a.page + k) * PAGE_SZ) == FrameOf(a, vm.source.handed, k)
  {
    hide *;
    var a := AllocationsOf(calls, n)[i];
    FixedAligned(calls, n, i);
    FormFlagsPat(a.flags);
    AllocationStands(vm, calls, n, i);
    FrameUsable(vm, a, k);
    RootSet(vm.space);
    PageTranslates(vm.space.ram, vm.space.pml4e, a, vm.source.handed, k);
  }

  lemma AllocationStands(vm: VirtualMemory, calls: seq<Call>, n: nat, i: nat)
    requires n <= |calls| && After(vm, calls, n) && i < |AllocationsOf(calls, n)|
    ensures var a := AllocationsOf(calls, n)[i];
      && Backed(vm.space.ram, vm.space.pml4e, a, vm.source.handed) && a.page + a.pages <= PAGES
      && (a.backing.Frames? ==> a.backing.first + a.pages < |vm.source.handed|)
    ensures vm.space.Valid() && vm.source.Valid()
  {
    hide PageSpace.Valid, PhysFrames.Valid, MarkerList.Valid, AllocationsOf, Backed;
  }

  lemma PageOfPage(page: nat)
    requires page < PAGES
    ensures PageOf(page * PAGE_SZ) == page
  {}

  lemma RootSet(space: PageSpace)
    requires space.Valid()
    ensures space.pml4e != 0
  {}

  lemma PageTranslates(ram: Ram, root: nat, a: Allocation, handed: seq<nat>, k: nat)
    requires Backed(ram, root, a, handed) && root != 0 && k < a.pages && a.page + a.pages <= PAGES
    requires FrameOf(a, handed, k) % PAGE_SZ == 0 && FrameOf(a, handed, k) < PHYS_LIMIT
    requires !AsksForPat(FormFlags(a.flags))
    ensures VirtToPhysInt(ram, root, (a.page + k) * PAGE_SZ) == FrameOf(a, handed, k)
  {
    assert Leaf(ram, root, a.page + k) == LeafEntry(FrameOf(a, handed, k), FormFlags(a.flags));
    hide *;
    PageOfPage(a.page + k);
    LeafTranslatesPlainly(ram, root, (a.page + k) * PAGE_SZ, FrameOf(a, handed, k), FormFlags(a.flags));
  }

  lemma FrameUsable(vm: VirtualMemory, a: Allocation, k: nat)
    requires vm.source.Valid() && k < a.pages
    requires match a.backing
      case Frames(first) => first + a.pages < |vm.source.handed|
      case Fixed(phys) => !Unaligned(phys) && phys + a.pages * PAGE_SZ <= PHYS_LIMIT
    ensures FrameOf(a, vm.source.handed, k) % PAGE_SZ == 0 && FrameOf(a, vm.source.handed, k) < PHYS_LIMIT
  {
    match a.backing
    case Frames(first) => assert vm.source.handed[first + k] in vm.source.All();
    case Fixed(phys) => KernelPaging.StepInside(phys, k, a.pages); SmallStep(phys, k);
  }

  // ---- What a call of a run has ----------------------------------------------------------------------------

  /** The call asked for mappings, and for an address that can be mapped. */
  predicate Makes(c: Call) { Test(c.flags, VFLAG_MAKE) && (c.Virtual? || !Unaligned(c.phys)) }

  /** The frame behind page `k` of call `i`: of a vmalloc the frames from the one it got first, in order. */
  function CallFrame(calls: seq<Call>, handed: seq<nat>, i: nat, k: nat): nat
    requires i < |calls|
  {
    if calls[i].Physical? then (calls[i].phys + k * 0x1000) % 0x1_0000_0000_0000_0000
    else if FramesUsed(calls, i) + k < |handed| then handed[FramesUsed(calls, i) + k]
    else 0
  }

  lemma {:induction false} AllocationOfCall(calls: seq<Call>, n: nat, i: nat) returns (m: nat)
    requires i < n <= |calls| && Makes(calls[i])
    ensures m < |AllocationsOf(calls, n)|
    ensures AllocationsOf(calls, n)[m] == Allocation(1 + PagesTaken(calls, i), PagesOf(calls[i].bytes), calls[i].flags,
                                                     if calls[i].Virtual? then Frames(FramesUsed(calls, i))
                                                     else Fixed(calls[i].phys))
    decreases n
  {
    CallMakes(calls, n - 1);
    if i < n - 1 { m := AllocationOfCall(calls, n - 1, i); } else { m := |AllocationsOf(calls, n - 1)|; }
  }

  /** At any point of a run every page of every earlier call has the leaf for its frame. */
  lemma CallBacked(vm: VirtualMemory, calls: seq<Call>, n: nat, i: nat, k: nat)
    requires n <= |calls| && After(vm, calls, n) && i < n && Makes(calls[i]) && calls[i].bytes < 0x1000_0000_0000
    requires k * 0x1000 < Rounded(calls[i].bytes)
    ensures Leaf(vm.space.ram, vm.space.pml4e, 1 + PagesTaken(calls, i) + k)
         == LeafEntry(CallFrame(calls, vm.source.handed, i, k), FormFlags(calls[i].flags))
    ensures CallFrame(calls, vm.source.handed, i, k) % PAGE_SZ == 0
    ensures calls[i].Virtual? ==> CallFrame(calls, vm.source.handed, i, k) < PHYS_LIMIT
  {
    hide *;
    var m := AllocationOfCall(calls, n, i);
    AllocationStands(vm, calls, n, m);
    PageInside(calls[i].bytes, k);
    var a := AllocationsOf(calls, n)[m];
    FrameOfCall(calls, i, a, vm.source.handed, k);
    PageBacked(vm.space.ram, vm.space.pml4e, a, vm.source.handed, k);
    CallAligned(vm, calls, n, i, k);
  }

  lemma PageInside(bytes: nat, k: nat)
    requires bytes < 0x1000_0000_0000 && k * 0x1000 < Rounded(bytes)
    ensures k < PagesOf(bytes)
  {
    RoundedPages(bytes);
  }

  lemma FrameOfCall(calls: seq<Call>, i: nat, a: Allocation, handed: seq<nat>, k: nat)
    requires i < |calls|
    requires a.backing == if calls[i].Virtual? then Frames(FramesUsed(calls, i)) else Fixed(calls[i].phys)
    ensures FrameOf(a, handed, k) == CallFrame(calls, handed, i, k)
  {}

  lemma PageBacked(ram: Ram, root: nat, a: Allocation, handed: seq<nat>, k: nat)
    requires Backed(ram, root, a, handed) && k < a.pages
    ensures Leaf(ram, root, a.page + k) == LeafEntry(FrameOf(a, handed, k), FormFlags(a.flags))
  {}

  lemma CallAligned(vm: VirtualMemory, calls: seq<Call>, n: nat, i: nat, k: nat)
    requires i < n <= |calls| && Makes(calls[i]) && vm.source.Valid()
    ensures CallFrame(calls, vm.source.handed, i, k) % PAGE_SZ == 0
    ensures calls[i].Virtual? ==> CallFrame(calls, vm.source.handed, i, k) < PHYS_LIMIT
  {
    if calls[i].Physical? {
      StepAligned(calls[i].phys, k);
    } else if FramesUsed(calls, i) + k < |vm.source.handed| {
      assert vm.source.handed[FramesUsed(calls, i) + k] in vm.source.All();
    }
  }

  /** The rights and the memory type of each such page are those its call asked for: writable and executable for
      VFLAG_WRITE and VFLAG_EXEC, open to users for VFLAG_USER, uncached for VFLAG_UC, and with write-through set for
      VFLAG_UC, VFLAG_WC and VFLAG_WT. */
  lemma CallTypes(vm: VirtualMemory, calls: seq<Call>, n: nat, i: nat, k: nat)
    requires n <= |calls| && After(vm, calls, n) && i < n && Makes(calls[i]) && calls[i].bytes < 0x1000_0000_0000
    requires k * 0x1000 < Rounded(calls[i].bytes)
    ensures var e, flags := Leaf(vm.space.ram, vm.space.pml4e, 1 + PagesTaken(calls, i) + k), calls[i].flags;
      && Present(e) && (CanWrite(e) <==> HasBit(flags, 0x1)) && (HasBit(e, 0x4) <==> HasBit(flags, 0x4))
      && (HasBit(e, 0x10) <==> HasBit(flags, 0x8))
      && (HasBit(e, 0x8) <==> HasBit(flags, 0x8) || HasBit(flags, 0x20) || HasBit(flags, 0x80))
      && (CallFrame(calls, vm.source.handed, i, k) < PHYS_LIMIT ==> (NoExecute(e) <==> !HasBit(flags, 0x2)))
  {
    var frame, flags := CallFrame(calls, vm.source.handed, i, k), FormFlags(calls[i].flags);
    CallBacked(vm, calls, n, i, k);
    FormedBits(calls[i].flags);
    RequestBits(flags);
    hide *;
    LeafTypes(frame, flags);
    LeafEntryAccess(frame, flags);
    if frame < PHYS_LIMIT { LeafEntryPermissions(frame, flags); }
  }

  /** The bits of the page flags by those of the request. */
  lemma FormedBits(flags: nat)
    ensures var pf := FormFlags(flags);
      && (HasBit(pf, 0x1) <==> HasBit(flags, 0x8)) && (HasBit(pf, 0x2) <==> HasBit(flags, 0x80))
      && !HasBit(pf, 0x4) && !HasBit(pf, 0x8) && (HasBit(pf, 0x10) <==> HasBit(flags, 0x20))
      && (HasBit(pf, 0x20) <==> HasBit(flags, 0x1)) && (HasBit(pf, 0x40) <==> HasBit(flags, 0x4))
      && (HasBit(pf, 0x80) <==> HasBit(flags, 0x2))
  {
    hide *;
    var pf := FormFlags(flags);
    RequestBits(pf);
    VirtualBits(flags);
    FormFlagsAll(flags);
  }

  lemma VirtualBits(flags: nat)
    ensures (Test(flags, VFLAG_WRITE) <==> HasBit(flags, 0x1)) && (Test(flags, VFLAG_EXEC) <==> HasBit(flags, 0x2))
    ensures (Test(flags, VFLAG_USER) <==> HasBit(flags, 0x4)) && (Test(flags, VFLAG_UC) <==> HasBit(flags, 0x8))
    ensures (Test(flags, VFLAG_MAKE) <==> HasBit(flags, 0x10)) && (Test(flags, VFLAG_WT) <==> HasBit(flags, 0x20))
    ensures Test(flags, VFLAG_WC) <==> HasBit(flags, 0x80)
  {
    RequestBits(flags);
    hide Test, HasBit;
  }

  lemma FormFlagsAll(flags: nat)
    ensures var pf := FormFlags(flags);
      && (Test(pf, PAGE_FLAG_UC) <==> Test(flags, VFLAG_UC)) && (Test(pf, PAGE_FLAG_WC) <==> Test(flags, VFLAG_WC))
      && !Test(pf, PAGE_FLAG_WB) && !Test(pf, PAGE_FLAG_WP) && (Test(pf, PAGE_FLAG_WT) <==> Test(flags, VFLAG_WT))
      && (Test(pf, PAGE_FLAG_WRITE) <==> Test(flags, VFLAG_WRITE))
      && (Test(pf, PAGE_FLAG_USER) <==> Test(flags, VFLAG_USER))
      && (Test(pf, PAGE_FLAG_EXECUTE) <==> Test(flags, VFLAG_EXEC))
  {
    FormFlagsTest(flags, PAGE_FLAG_UC);
    FormFlagsTest(flags, PAGE_FLAG_WC);
    FormFlagsTest(flags, PAGE_FLAG_WB);
    FormFlagsTest(flags, PAGE_FLAG_WP);
    FormFlagsTest(flags, PAGE_FLAG_WT);
    FormFlagsTest(flags, PAGE_FLAG_WRITE);
    FormFlagsTest(flags, PAGE_FLAG_USER);
    FormFlagsTest(flags, PAGE_FLAG_EXECUTE);
    hide Test, FormFlags;
  }

  /** At any point of a run, two allocations share no page, and two that vmalloc made share no frame. */
  lemma RunIsolated(vm: VirtualMemory, calls: seq<Call>, n: nat, i: nat, j: nat, k: nat, l: nat)
    requires n <= |calls| && After(vm, calls, n) && i < j < |AllocationsOf(calls, n)|
    requires k < AllocationsOf(calls, n)[i].pages && l < AllocationsOf(calls, n)[j].pages
    ensures var a, b, handed := AllocationsOf(calls, n)[i], AllocationsOf(calls, n)[j], vm.source.handed;
      && a.page + k != b.page + l
      && (a.backing.Frames? && b.backing.Frames? ==> FrameOf(a, handed, k) != FrameOf(b, handed, l))
  {
    HandedOnce(vm.source);
    Isolated(AllocationsOf(calls, n), vm.source.handed, TopPage(vm.markers.infos), i, j, k, l);
  }

  /** ... and none of the frames behind an allocation is a page table, when none was set aside for one at first. */
  lemma FramesNoTables(vm: VirtualMemory, calls: seq<Call>, n: nat, i: nat, k: nat, p: Path)
    requires n <= |calls| && After(vm, calls, n) && i < |AllocationsOf(calls, n)| && vm.space.Valid()
    requires vm.source.Valid()
    requires vm.TablesElsewhere() && IsPath(p)
    requires var a := AllocationsOf(calls, n)[i]; a.backing.Frames? && k < a.pages
    ensures TableAt(vm.space.ram, vm.space.pml4e, p) != FrameOf(AllocationsOf(calls, n)[i], vm.source.handed, k)
  {
    AllocationStands(vm, calls, n, i);
    var a := AllocationsOf(calls, n)[i];
    assert vm.source.handed[a.backing.first + k] in vm.source.All();
  }

  lemma HandedOnce(source: PhysFrames)
    requires source.Valid()
    ensures AllOnce(multiset(source.handed))
  {
    forall f | f in multiset(source.handed)
      ensures f in source.All() && multiset(source.handed)[f] <= source.All()[f]
    {}
  }
}
