/** Four-level page tables in physical memory, as a tree of table frames.

    A table is named by the path of indices that leads to it from the root. The tree is well
    formed when no two paths lead to one frame; then a store through one path shows up under
    that path alone, which is what every mapping operation relies on. */
module PageTables {
  import opened Words
  import opened PageBits

  /** Entry `index` of the table at physical address `base`: the word at base + 8 * index. */
  datatype Slot = Slot(base: nat, index: nat)

  /** Physical memory; a word never stored to reads as zero. */
  type Ram = map<Slot, nat>

  function At(ram: Ram, base: nat, index: nat): nat {
    if Slot(base, index) in ram then ram[Slot(base, index)] else 0
  }

  function Put(ram: Ram, base: nat, index: nat, word: nat): Ram { ram[Slot(base, index) := word] }

  /** Aligned bases and nine-bit indices name the words of memory without overlap. */
  lemma SlotsAreWords(b: nat, i: nat, c: nat, j: nat)
    requires b % PAGE_SZ == 0 && c % PAGE_SZ == 0 && i < 512 && j < 512
    requires b + 8 * i == c + 8 * j
    ensures b == c && i == j
  {}

  datatype Path = Root | Sub(up: Path, index: nat)

  function Depth(p: Path): nat { if p.Root? then 0 else 1 + Depth(p.up) }

  predicate Indexed(p: Path) { p.Root? || (p.index < 512 && Indexed(p.up)) }

  /** Paths to tables; entries of tables at depth 3 name data frames. */
  predicate IsPath(p: Path) { Depth(p) <= 3 && Indexed(p) }

  /** The frame of the table at a path, or 0 when an entry on the way names none. */
  function TableAt(ram: Ram, root: nat, p: Path): nat
    decreases p, 0
  {
    if p.Root? then root else TableBase(Entry(ram, root, p.up, p.index))
  }

  /** The entry at an index of the table at a path, 0 when there is no such table. */
  function Entry(ram: Ram, root: nat, p: Path, i: nat): nat
    decreases p, 1
  {
    var t := TableAt(ram, root, p);
    if t == 0 then 0 else At(ram, t, i)
  }

  lemma NoTableBelow(ram: Ram, root: nat, p: Path, i: nat)
    ensures TableAt(ram, root, p) == 0 ==> TableAt(ram, root, Sub(p, i)) == 0
  {}

  /** No table frame is reached by two paths. */
  ghost predicate WellFormed(ram: Ram, root: nat) {
    && IsFrame(root)
    && forall p, q {:trigger Meet(p, q)} ::
      && Meet(p, q) && IsPath(p) && IsPath(q)
      && TableAt(ram, root, p) != 0 && TableAt(ram, root, p) == TableAt(ram, root, q)
      ==> p == q
  }

  /** Always true; names the pairs of paths that the proofs compare. */
  predicate Meet(p: Path, q: Path) { true }

  /** Always true; names the paths that a proof holds against a frame. */
  predicate Outside(p: Path, f: nat) { true }

  /** A frame outside the tree. */
  ghost predicate OffTree(ram: Ram, root: nat, f: nat) {
    forall p {:trigger Outside(p, f)} :: Outside(p, f) && IsPath(p) ==> TableAt(ram, root, p) != f
  }

  /** A zeroed frame outside the tree. */
  ghost predicate Fresh(ram: Ram, root: nat, f: nat) {
    IsFrame(f) && OffTree(ram, root, f) && forall i :: At(ram, f, i) == 0
  }

  /** What may be stored at an entry: any data frame in a last-level table, otherwise the frame
      already there or, where there is none, a fresh one. */
  ghost predicate Storable(ram: Ram, root: nat, p: Path, i: nat, word: nat) {
    || Depth(p) == 3
    || TableBase(word) == TableBase(Entry(ram, root, p, i))
    || (TableBase(Entry(ram, root, p, i)) == 0 && Fresh(ram, root, TableBase(word)))
  }

  lemma {:induction false} TableAfterStore(ram: Ram, root: nat, p: Path, i: nat, word: nat, q: Path)
    requires WellFormed(ram, root) && IsPath(p) && i < 512 && TableAt(ram, root, p) != 0
    requires Storable(ram, root, p, i, word) && IsPath(q)
    ensures TableAt(Put(ram, TableAt(ram, root, p), i, word), root, q)
         == if q == Sub(p, i) then TableBase(word) else TableAt(ram, root, q)
    decreases q
  {
    if q.Sub? {
      TableAfterStore(ram, root, p, i, word, q.up);
      EntryAfterStore(ram, root, p, i, word, q.up, q.index);
    }
  }

  lemma EntryAfterStore(ram: Ram, root: nat, p: Path, i: nat, word: nat, q: Path, j: nat)
    requires WellFormed(ram, root) && IsPath(p) && i < 512 && TableAt(ram, root, p) != 0
    requires Storable(ram, root, p, i, word) && IsPath(q)
    requires TableAt(Put(ram, TableAt(ram, root, p), i, word), root, q)
          == if q == Sub(p, i) then TableBase(word) else TableAt(ram, root, q)
    ensures Entry(Put(ram, TableAt(ram, root, p), i, word), root, q, j)
         == if q == p && j == i then word else Entry(ram, root, q, j)
  {
    assert Meet(p, q);
    assert Outside(p, TableBase(word));
    if q == Sub(p, i) && TableAt(ram, root, q) == 0 && TableBase(word) != 0 {
      assert Fresh(ram, root, TableBase(word));
      assert At(ram, TableBase(word), j) == 0;
    }
  }

  /** A store through one path shows up under that path alone. */
  lemma StoreShowsOnce(ram: Ram, root: nat, p: Path, i: nat, word: nat)
    requires WellFormed(ram, root) && IsPath(p) && i < 512 && TableAt(ram, root, p) != 0
    requires Storable(ram, root, p, i, word)
    ensures var ram' := Put(ram, TableAt(ram, root, p), i, word);
      && (forall q, j :: IsPath(q) ==>
            Entry(ram', root, q, j) == if q == p && j == i then word else Entry(ram, root, q, j))
      && (forall q :: IsPath(q) ==>
            TableAt(ram', root, q) == if q == Sub(p, i) then TableBase(word) else TableAt(ram, root, q))
  {
    var ram' := Put(ram, TableAt(ram, root, p), i, word);
    forall q | IsPath(q)
      ensures TableAt(ram', root, q) == if q == Sub(p, i) then TableBase(word) else TableAt(ram, root, q)
    {
      TableAfterStore(ram, root, p, i, word, q);
    }
    forall q, j | IsPath(q)
      ensures Entry(ram', root, q, j) == if q == p && j == i then word else Entry(ram, root, q, j)
    {
      EntryAfterStore(ram, root, p, i, word, q, j);
    }
  }

  /** The store does not link `f` into the tree. */
  predicate StaysFree(ram: Ram, root: nat, p: Path, i: nat, word: nat, f: nat) {
    Depth(p) == 3 || TableBase(word) == TableBase(Entry(ram, root, p, i)) || f != TableBase(word)
  }

  /** A store keeps the tree well formed and leaves the other fresh frames fresh. */
  lemma StoreKeepsTree(ram: Ram, root: nat, p: Path, i: nat, word: nat)
    requires WellFormed(ram, root) && IsPath(p) && i < 512 && TableAt(ram, root, p) != 0
    requires Storable(ram, root, p, i, word)
    ensures var ram' := Put(ram, TableAt(ram, root, p), i, word);
      && WellFormed(ram', root)
      && forall f :: Fresh(ram, root, f) && StaysFree(ram, root, p, i, word, f) ==> Fresh(ram', root, f)
  {
    StoreShowsOnce(ram, root, p, i, word);
    var ram' := Put(ram, TableAt(ram, root, p), i, word);
    forall x, y | Meet(x, y) && IsPath(x) && IsPath(y) && TableAt(ram', root, x) != 0
           && TableAt(ram', root, x) == TableAt(ram', root, y)
      ensures x == y
    {
      assert Meet(Sub(p, i), y) && Meet(x, Sub(p, i));
      assert Outside(x, TableBase(word)) && Outside(y, TableBase(word));
    }
    forall f | Fresh(ram, root, f) && StaysFree(ram, root, p, i, word, f)
      ensures Fresh(ram', root, f)
    {
      assert Outside(p, f);
      assert forall q :: IsPath(q) ==> Outside(q, f);
      assert forall j :: At(ram', f, j) == At(ram, f, j);
    }
  }

  // ---- The view of one page ---------------------------------------------------------------

  function Path3(page: nat): Path { Sub(Root, Index4(page)) }
  function Path2(page: nat): Path { Sub(Path3(page), Index3(page)) }
  function Path1(page: nat): Path { Sub(Path2(page), Index2(page)) }

  function Entry4(ram: Ram, root: nat, page: nat): nat { Entry(ram, root, Root, Index4(page)) }
  function Entry3(ram: Ram, root: nat, page: nat): nat { Entry(ram, root, Path3(page), Index3(page)) }
  function Entry2(ram: Ram, root: nat, page: nat): nat { Entry(ram, root, Path2(page), Index2(page)) }

  /** The last-level entry of a page: what the tree, seen as a map from pages, holds for it. */
  function Leaf(ram: Ram, root: nat, page: nat): nat { Entry(ram, root, Path1(page), Index1(page)) }

  /** Different pages have different last-level entries. */
  lemma LeavesApart(p: nat, q: nat)
    requires p < PAGES && q < PAGES && Path1(p) == Path1(q) && Index1(p) == Index1(q)
    ensures p == q
  {
    PageFromIndices(p, q);
  }

  /** Every entry above a leaf allows at least what the leaf does; no-execute is set at leaves only. */
  ghost predicate Covered(ram: Ram, root: nat) {
    forall page: nat :: page < PAGES ==> CoversLeaf(ram, root, page)
  }

  ghost predicate CoversLeaf(ram: Ram, root: nat, page: nat) {
    var e4, e3 := Entry4(ram, root, page), Entry3(ram, root, page);
    var e2, e1 := Entry2(ram, root, page), Leaf(ram, root, page);
    && (Present(e1) ==> Present(e4) && Present(e3) && Present(e2))
    && (CanWrite(e1) ==> CanWrite(e4) && CanWrite(e3) && CanWrite(e2))
    && !NoExecute(e4) && !NoExecute(e3) && !NoExecute(e2)
  }

  // The processor grants an access when all four levels do (protection checks of the
  // AMD64 architecture, volume 2, section 5.6).

  predicate Mapped(ram: Ram, root: nat, page: nat) {
    && Present(Entry4(ram, root, page)) && Present(Entry3(ram, root, page))
    && Present(Entry2(ram, root, page)) && Present(Leaf(ram, root, page))
  }

  predicate Writable(ram: Ram, root: nat, page: nat) {
    && CanWrite(Entry4(ram, root, page)) && CanWrite(Entry3(ram, root, page))
    && CanWrite(Entry2(ram, root, page)) && CanWrite(Leaf(ram, root, page))
  }

  predicate Executable(ram: Ram, root: nat, page: nat) {
    && !NoExecute(Entry4(ram, root, page)) && !NoExecute(Entry3(ram, root, page))
    && !NoExecute(Entry2(ram, root, page)) && !NoExecute(Leaf(ram, root, page))
  }

  /** The walk down four tables, giving up with 0 as soon as a level names no table. */
  function Walk(ram: Ram, pml: nat, i4: nat, i3: nat, i2: nat, i1: nat): nat {
    var pdpe := TableBase(At(ram, pml, i4));
    if pdpe == 0 then 0 else
    var pde := TableBase(At(ram, pdpe, i3));
    if pde == 0 then 0 else
    var pte := TableBase(At(ram, pde, i2));
    if pte == 0 then 0 else At(ram, pte, i1)
  }

  function GetPageInfo(ram: Ram, cr3: nat, virt: nat): nat {
    Walk(ram, cr3, PmlEntry(virt), PdpeEntry(virt), PdeEntry(virt), PteEntry(virt))
  }

  function VirtToPhysInt(ram: Ram, pml: nat, virt: nat): nat {
    TableBase(Walk(ram, pml, PmlEntry(virt), PdpeEntry(virt), PdeEntry(virt), PteEntry(virt)))
  }

  lemma WalkIsEntry(ram: Ram, root: nat, i4: nat, i3: nat, i2: nat, i1: nat)
    requires root != 0
    ensures Walk(ram, root, i4, i3, i2, i1) == Entry(ram, root, Sub(Sub(Sub(Root, i4), i3), i2), i1)
  {
    var p3 := Sub(Root, i4);
    var p2 := Sub(p3, i3);
    assert TableAt(ram, root, p3) == TableBase(At(ram, root, i4));
    assert TableAt(ram, root, p2) == TableBase(Entry(ram, root, p3, i3));
    assert TableAt(ram, root, Sub(p2, i2)) == TableBase(Entry(ram, root, p2, i2));
  }

  /** Both walks read the leaf of the page of the address and nothing else: the offset in the page
      and the bits from 48 up play no part, and 0 stands for a missing table as for frame 0. */
  lemma WalksReadTheLeaf(ram: Ram, root: nat, virt: nat)
    requires root != 0
    ensures GetPageInfo(ram, root, virt) == Leaf(ram, root, PageOf(virt))
    ensures VirtToPhysInt(ram, root, virt) == TableBase(Leaf(ram, root, PageOf(virt)))
  {
    EntryMacros(virt);
    WalkIsEntry(ram, root, PmlEntry(virt), PdpeEntry(virt), PdeEntry(virt), PteEntry(virt));
  }

  lemma SameLeaf(before: Ram, after: Ram, root: nat, virt: nat)
    requires root != 0 && Leaf(after, root, PageOf(virt)) == Leaf(before, root, PageOf(virt))
    ensures VirtToPhysInt(after, root, virt) == VirtToPhysInt(before, root, virt)
  {
    WalksReadTheLeaf(after, root, virt);
    WalksReadTheLeaf(before, root, virt);
  }

  /** A mapped address round-trips exactly when its frame fits an entry and PG_PAT, where the
      memory type sets it, is a bit the frame has anyway. */
  lemma LeafTranslates(ram: Ram, root: nat, virt: nat, phys: nat, flags: nat)
    requires root != 0 && phys % PAGE_SZ == 0 && Leaf(ram, root, PageOf(virt)) == LeafEntry(phys, flags)
    ensures VirtToPhysInt(ram, root, virt) == phys <==> phys < PHYS_LIMIT && (AsksForPat(flags) ==> PatBit(phys))
  {
    WalksReadTheLeaf(ram, root, virt);
    LeafEntryNamesPhys(phys, flags);
  }

  lemma LeafTranslatesPlainly(ram: Ram, root: nat, virt: nat, phys: nat, flags: nat)
    requires root != 0 && phys % PAGE_SZ == 0 && phys < PHYS_LIMIT && !AsksForPat(flags)
    requires Leaf(ram, root, PageOf(virt)) == LeafEntry(phys, flags)
    ensures VirtToPhysInt(ram, root, virt) == phys
  {
    LeafTranslates(ram, root, virt, phys, flags);
  }

  /** Under the invariant the leaf alone decides. */
  lemma LeafDecides(ram: Ram, root: nat, page: nat)
    requires Covered(ram, root) && page < PAGES
    ensures Mapped(ram, root, page) <==> Present(Leaf(ram, root, page))
    ensures Writable(ram, root, page) <==> CanWrite(Leaf(ram, root, page))
    ensures Executable(ram, root, page) <==> !NoExecute(Leaf(ram, root, page))
  {
    assert CoversLeaf(ram, root, page);
  }

  // ---- Changes to the entries above the leaves ------------------------------------------------

  /** Entries above the leaves only gained present and write bits; leaves are as before. */
  ghost predicate Widened(ram: Ram, ram': Ram, root: nat) {
    && (forall p, i {:trigger Wider(Entry(ram, root, p, i), Entry(ram', root, p, i))} ::
          IsPath(p) && Depth(p) < 3 ==> Wider(Entry(ram, root, p, i), Entry(ram', root, p, i)))
    && (forall p, i {:trigger Entry(ram', root, p, i)} :: IsPath(p) && Depth(p) == 3 ==>
          Entry(ram', root, p, i) == Entry(ram, root, p, i))
  }

  predicate Wider(e: nat, e': nat) {
    && (Present(e) ==> Present(e'))
    && (CanWrite(e) ==> CanWrite(e'))
    && (NoExecute(e') ==> NoExecute(e))
    && (TableBase(e) != 0 ==> TableBase(e') == TableBase(e))
  }

  ghost predicate SameTables(ram: Ram, ram': Ram, root: nat) {
    forall p :: IsPath(p) ==> TableAt(ram', root, p) == TableAt(ram, root, p)
  }

  lemma WidenedAgain(ram: Ram, ram': Ram, ram'': Ram, root: nat)
    requires Widened(ram, ram', root) && Widened(ram', ram'', root)
    ensures Widened(ram, ram'', root)
  {
    forall p, i | IsPath(p) && Depth(p) < 3
      ensures Wider(Entry(ram, root, p, i), Entry(ram'', root, p, i))
    {
      assert Wider(Entry(ram, root, p, i), Entry(ram', root, p, i));
      assert Wider(Entry(ram', root, p, i), Entry(ram'', root, p, i));
    }
  }

  lemma WidenedKeepsTables(ram: Ram, ram': Ram, root: nat, p: Path)
    requires Widened(ram, ram', root) && IsPath(p) && TableAt(ram, root, p) != 0
    ensures TableAt(ram', root, p) == TableAt(ram, root, p)
  {
    if p.Sub? {
      assert Wider(Entry(ram, root, p.up, p.index), Entry(ram', root, p.up, p.index));
    }
  }

  lemma PathsOfPage(page: nat)
    ensures IsPath(Path3(page)) && IsPath(Path2(page)) && IsPath(Path1(page))
    ensures Depth(Path3(page)) == 1 && Depth(Path2(page)) == 2 && Depth(Path1(page)) == 3
    ensures Path3(page) == Sub(Root, Index4(page)) && Path2(page) == Sub(Path3(page), Index3(page))
    ensures Path1(page) == Sub(Path2(page), Index2(page))
    ensures Index4(page) < 512 && Index3(page) < 512 && Index2(page) < 512 && Index1(page) < 512
  {}

  /** The tables that the walk down to a page goes through. */
  lemma PathsDown(ram: Ram, root: nat, i4: nat, i3: nat)
    requires i4 < 512 && i3 < 512
    ensures IsPath(Root) && Depth(Root) == 0 && TableAt(ram, root, Root) == root
    ensures IsPath(Sub(Root, i4)) && Depth(Sub(Root, i4)) == 1
    ensures IsPath(Sub(Sub(Root, i4), i3)) && Depth(Sub(Sub(Root, i4), i3)) == 2
  {}

  lemma WidenedKeepsLeaves(ram: Ram, ram': Ram, root: nat)
    requires Widened(ram, ram', root)
    ensures forall q: nat :: q < PAGES ==> Leaf(ram', root, q) == Leaf(ram, root, q)
  {}

  lemma WidenedKeepsCovered(ram: Ram, ram': Ram, root: nat)
    requires Widened(ram, ram', root) && Covered(ram, root)
    ensures Covered(ram', root)
  {
    forall page: nat | page < PAGES
      ensures CoversLeaf(ram', root, page)
    {
      PathsOfPage(page);
      assert CoversLeaf(ram, root, page);
      assert Wider(Entry4(ram, root, page), Entry4(ram', root, page));
      assert Wider(Entry3(ram, root, page), Entry3(ram', root, page));
      assert Wider(Entry2(ram, root, page), Entry2(ram', root, page));
    }
  }

  // ---- Storing a leaf ---------------------------------------------------------------------------

  /** Between two states the leaf of one page was set, and no other, if `mapped`; otherwise none. */
  ghost predicate OnlyLeaf(before: Ram, after: Ram, root: nat, mapped: bool, page: nat, leaf: nat) {
    forall q: nat :: q < PAGES ==> Leaf(after, root, q) == if mapped && q == page then leaf else Leaf(before, root, q)
  }

  /** Linking tables widens entries by the frames of the tables, and leaves bits 0 to 11 of every entry alone. */
  ghost predicate Linked(before: Ram, after: Ram, root: nat) {
    && Widened(before, after, root)
    && (forall p, i {:trigger Entry(after, root, p, i)} :: IsPath(p) ==>
          Entry(after, root, p, i) % PAGE_SZ == Entry(before, root, p, i) % PAGE_SZ)
  }

  lemma LinkedMeans(before: Ram, after: Ram, root: nat)
    requires Linked(before, after, root)
    ensures Widened(before, after, root)
  {}

  lemma LinkedAgain(before: Ram, ram: Ram, after: Ram, root: nat)
    requires Linked(before, ram, root) && Linked(ram, after, root)
    ensures Linked(before, after, root)
  {
    WidenedAgain(before, ram, after, root);
    forall p, i | IsPath(p)
      ensures Entry(after, root, p, i) % PAGE_SZ == Entry(before, root, p, i) % PAGE_SZ
    {
      assert Entry(ram, root, p, i) % PAGE_SZ == Entry(before, root, p, i) % PAGE_SZ;
    }
  }

  lemma MissingBefore(before: Ram, ram: Ram, root: nat, p: Path)
    requires Linked(before, ram, root) && IsPath(p)
    ensures TableAt(ram, root, p) == 0 ==> TableAt(before, root, p) == 0
  {
    LinkedMeans(before, ram, root);
    hide Linked, Widened;
    if TableAt(before, root, p) != 0 { WidenedKeepsTables(before, ram, root, p); }
  }

  lemma PathBelow(p: Path, i: nat)
    requires IsPath(p) && Depth(p) < 3 && i < 512
    ensures IsPath(Sub(p, i))
  {}

  lemma LinkedSame(ram: Ram, root: nat)
    ensures Linked(ram, ram, root)
  {}

  /** Entry `i` of the table at path `p` is one of the three that a walk to the page reads before the leaf. */
  predicate OnWay(page: nat, p: Path, i: nat) {
    || (p == Root && i == Index4(page)) || (p == Path3(page) && i == Index3(page))
    || (p == Path2(page) && i == Index2(page))
  }

  /** Above the leaves, `access` was OR-ed into the three entries on the way to the page, and no other has changed. */
  ghost predicate GrantedOnWay(before: Ram, after: Ram, root: nat, page: nat, access: nat) {
    forall p, i {:trigger Entry(after, root, p, i)} :: IsPath(p) && Depth(p) < 3 ==>
      Entry(after, root, p, i)
        == if OnWay(page, p, i) then Or(Entry(before, root, p, i), access) else Entry(before, root, p, i)
  }

  /** The same for bits 0 to 11, when tables may have been linked besides. */
  ghost predicate UpperBits(before: Ram, after: Ram, root: nat, page: nat, access: nat, mapped: bool) {
    forall p, i {:trigger Entry(after, root, p, i)} :: IsPath(p) && Depth(p) < 3 ==>
      Entry(after, root, p, i) % PAGE_SZ
        == (if mapped && OnWay(page, p, i) then Or(Entry(before, root, p, i), access) else Entry(before, root, p, i))
           % PAGE_SZ
  }

  lemma LinkedThenGranted(before: Ram, ram: Ram, after: Ram, root: nat, page: nat, access: nat, mapped: bool)
    requires Linked(before, ram, root) && if mapped then GrantedOnWay(ram, after, root, page, access) else after == ram
    ensures UpperBits(before, after, root, page, access, mapped)
  {
    forall p, i | IsPath(p) && Depth(p) < 3
      ensures Entry(after, root, p, i) % PAGE_SZ
        == (if mapped && OnWay(page, p, i) then Or(Entry(before, root, p, i), access) else Entry(before, root, p, i))
           % PAGE_SZ
    {
      assert Entry(ram, root, p, i) % PAGE_SZ == Entry(before, root, p, i) % PAGE_SZ;
      OrLow(Entry(ram, root, p, i), Entry(before, root, p, i), access);
    }
  }

  /** Making tables first does not change what a leaf store means. */
  lemma WidenedThenLeaf(before: Ram, ram: Ram, after: Ram, root: nat, mapped: bool, page: nat, leaf: nat)
    requires Widened(before, ram, root) && if mapped then OnlyLeaf(ram, after, root, true, page, leaf) else after == ram
    ensures OnlyLeaf(before, after, root, mapped, page, leaf)
    ensures before == ram && (mapped ==> SameTables(ram, after, root)) ==> SameTables(before, after, root)
  {
    WidenedKeepsLeaves(before, ram, root);
  }

  lemma StoreLeaf(ram: Ram, root: nat, page: nat, word: nat)
    requires WellFormed(ram, root) && page < PAGES && TableAt(ram, root, Path1(page)) != 0
    ensures var ram' := Put(ram, TableAt(ram, root, Path1(page)), Index1(page), word);
      && WellFormed(ram', root)
      && (forall f :: Fresh(ram, root, f) ==> Fresh(ram', root, f))
      && (forall q: nat :: q < PAGES ==> Leaf(ram', root, q) == if q == page then word else Leaf(ram, root, q))
      && (forall p, i :: IsPath(p) && Depth(p) < 3 ==> Entry(ram', root, p, i) == Entry(ram, root, p, i))
      && SameTables(ram, ram', root)
  {
    PathsOfPage(page);
    StoreShowsOnce(ram, root, Path1(page), Index1(page), word);
    StoreKeepsTree(ram, root, Path1(page), Index1(page), word);
    var ram' := Put(ram, TableAt(ram, root, Path1(page)), Index1(page), word);
    forall q: nat | q < PAGES
      ensures Leaf(ram', root, q) == if q == page then word else Leaf(ram, root, q)
    {
      PathsOfPage(q);
      if Path1(q) == Path1(page) && Index1(q) == Index1(page) { LeavesApart(q, page); }
    }
  }

  /** The upper entries of a page let through what the leaf `word` grants. */
  ghost predicate UpperGrant(ram: Ram, root: nat, page: nat, word: nat) {
    && Granted(word, Entry4(ram, root, page)) && Granted(word, Entry3(ram, root, page))
    && Granted(word, Entry2(ram, root, page))
  }

  predicate Granted(word: nat, e: nat) { Present(e) && (CanWrite(word) ==> CanWrite(e)) }

  lemma StoreLeafKeepsCovered(ram: Ram, root: nat, page: nat, word: nat)
    requires WellFormed(ram, root) && page < PAGES && TableAt(ram, root, Path1(page)) != 0
    requires Covered(ram, root) && UpperGrant(ram, root, page, word)
    ensures Covered(Put(ram, TableAt(ram, root, Path1(page)), Index1(page), word), root)
  {
    StoreLeaf(ram, root, page, word);
    var ram' := Put(ram, TableAt(ram, root, Path1(page)), Index1(page), word);
    forall q: nat | q < PAGES
      ensures CoversLeaf(ram', root, q)
    {
      PathsOfPage(q);
      assert CoversLeaf(ram, root, q);
    }
  }
}
