/** The stores of mapPage: linking a table, OR-ing access flags into the upper entries and
    writing the leaf. Kernel and bootloader share them. */
module PageWrites {
  import opened Words
  import opened PageBits
  import opened PageTables

  /** `base[i] |= word`. */
  function OrEntry(ram: Ram, base: nat, i: nat, word: nat): Ram { Put(ram, base, i, Or(At(ram, base, i), word)) }

  /** Linking a fresh frame into an entry that names no table. */
  lemma LinkTable(ram: Ram, root: nat, p: Path, i: nat, frame: nat)
    requires WellFormed(ram, root) && IsPath(p) && Depth(p) < 3 && i < 512 && TableAt(ram, root, p) != 0
    requires TableBase(Entry(ram, root, p, i)) == 0 && Fresh(ram, root, frame)
    ensures var ram' := OrEntry(ram, TableAt(ram, root, p), i, frame);
      && WellFormed(ram', root) && Widened(ram, ram', root) && Linked(ram, ram', root)
      && TableBase(At(ram', TableAt(ram, root, p), i)) == TableAt(ram', root, Sub(p, i)) == frame
      && (forall q :: IsPath(q) && q != Sub(p, i) ==> TableAt(ram', root, q) == TableAt(ram, root, q))
      && (forall f :: Fresh(ram, root, f) && f != frame ==> Fresh(ram', root, f))
  {
    var e := Entry(ram, root, p, i);
    FrameIsItsBase(frame);
    FrameBits(frame);
    BaseOfOr(e, frame);
    OrPermissions(e, frame);
    OrFrameLow(e, frame);
    StoreShowsOnce(ram, root, p, i, Or(e, frame));
    StoreKeepsTree(ram, root, p, i, Or(e, frame));
  }

  /** OR-ing flags into an entry above the leaves. */
  lemma GrantEntry(ram: Ram, root: nat, p: Path, i: nat, pgflags: nat)
    requires WellFormed(ram, root) && IsPath(p) && Depth(p) < 3 && i < 512 && TableAt(ram, root, p) != 0
    requires TableBase(pgflags) == 0 && Present(pgflags) && !NoExecute(pgflags)
    ensures var ram' := OrEntry(ram, TableAt(ram, root, p), i, pgflags);
      && WellFormed(ram', root) && Widened(ram, ram', root) && SameTables(ram, ram', root)
      && Granted(pgflags, Entry(ram', root, p, i))
      && (forall q, j {:trigger Entry(ram', root, q, j)} :: IsPath(q) ==>
            Entry(ram', root, q, j)
              == if q == p && j == i then Or(Entry(ram, root, p, i), pgflags) else Entry(ram, root, q, j))
      && (forall f :: Fresh(ram, root, f) ==> Fresh(ram', root, f))
  {
    var e := Entry(ram, root, p, i);
    BaseOfOr(e, pgflags);
    OrPermissions(e, pgflags);
    StoreShowsOnce(ram, root, p, i, Or(e, pgflags));
    StoreKeepsTree(ram, root, p, i, Or(e, pgflags));
  }

  /** Tables found at one level are still there after the levels below. */
  lemma TablesStay(before: Ram, ram: Ram, after: Ram, root: nat, p3: Path, p2: Path)
    requires Linked(before, ram, root) && Linked(ram, after, root) && IsPath(p3) && IsPath(p2)
    requires TableAt(ram, root, p3) != 0 && TableAt(ram, root, p2) != 0
    ensures Linked(before, after, root)
    ensures TableAt(after, root, p3) == TableAt(ram, root, p3) && TableAt(after, root, p2) == TableAt(ram, root, p2)
  {
    LinkedAgain(before, ram, after, root);
    WidenedKeepsTables(ram, after, root, p3);
    WidenedKeepsTables(ram, after, root, p2);
  }

  /** The access flags at the three upper levels of a page. */
  method GrantAll(ram: Ram, root: nat, ghost page: nat, i4: nat, i3: nat, i2: nat, pdpe: nat, pde: nat, pgflags: nat)
    returns (ram': Ram)
    requires WellFormed(ram, root) && i4 == Index4(page) && i3 == Index3(page) && i2 == Index2(page)
    requires TableBase(pgflags) == 0 && Present(pgflags) && !NoExecute(pgflags)
    requires pdpe == TableAt(ram, root, Sub(Root, i4)) != 0
    requires pde == TableAt(ram, root, Sub(Sub(Root, i4), i3)) != 0
    ensures WellFormed(ram', root) && Widened(ram, ram', root) && SameTables(ram, ram', root)
    ensures Granted(pgflags, Entry(ram', root, Root, i4))
    ensures Granted(pgflags, Entry(ram', root, Sub(Root, i4), i3))
    ensures Granted(pgflags, Entry(ram', root, Sub(Sub(Root, i4), i3), i2))
    ensures GrantedOnWay(ram, ram', root, page, pgflags)
    ensures forall f :: Fresh(ram, root, f) ==> Fresh(ram', root, f)
  {
    ghost var p3 := Sub(Root, i4);
    ghost var p2 := Sub(p3, i3);
    assert IsPath(Root) && IsPath(p3) && IsPath(p2);
    GrantEntry(ram, root, Root, i4, pgflags);
    var ram1 := OrEntry(ram, root, i4, pgflags);
    GrantEntry(ram1, root, p3, i3, pgflags);
    var ram2 := OrEntry(ram1, pdpe, i3, pgflags);
    GrantEntry(ram2, root, p2, i2, pgflags);
    ram' := OrEntry(ram2, pde, i2, pgflags);
    WidenedAgain(ram, ram1, ram2, root);
    WidenedAgain(ram, ram2, ram', root);
    assert Wider(Entry(ram1, root, Root, i4), Entry(ram2, root, Root, i4));
    assert Wider(Entry(ram2, root, Root, i4), Entry(ram', root, Root, i4));
    assert Wider(Entry(ram2, root, p3, i3), Entry(ram', root, p3, i3));
  }

  lemma LeafKeepsUpper(before: Ram, ram: Ram, root: nat, page: nat, leaf: nat, access: nat)
    requires WellFormed(ram, root) && page < PAGES && TableAt(ram, root, Path1(page)) != 0
    requires GrantedOnWay(before, ram, root, page, access)
    ensures GrantedOnWay(before, Put(ram, TableAt(ram, root, Path1(page)), Index1(page), leaf), root, page, access)
  {
    PathsOfPage(page);
    StoreShowsOnce(ram, root, Path1(page), Index1(page), leaf);
  }

  /** mapPage from the flags on: the access flags at three levels, then the leaf. */
  method WriteEntries(ram: Ram, root: nat, ghost page: nat, i4: nat, i3: nat, i2: nat, i1: nat,
                      pdpe: nat, pde: nat, pte: nat, pgflags: nat, leaf: nat)
    returns (ram': Ram)
    requires WellFormed(ram, root) && page < PAGES
    requires i4 == Index4(page) && i3 == Index3(page) && i2 == Index2(page) && i1 == Index1(page)
    requires pdpe == TableAt(ram, root, Path3(page)) != 0
    requires pde == TableAt(ram, root, Path2(page)) != 0
    requires pte == TableAt(ram, root, Path1(page)) != 0
    requires TableBase(pgflags) == 0 && Present(pgflags) && !NoExecute(pgflags)
    requires CanWrite(leaf) ==> CanWrite(pgflags)
    ensures WellFormed(ram', root) && SameTables(ram, ram', root)
    ensures OnlyLeaf(ram, ram', root, true, page, leaf) && GrantedOnWay(ram, ram', root, page, pgflags)
    ensures Covered(ram, root) ==> Covered(ram', root)
    ensures forall f :: Fresh(ram, root, f) ==> Fresh(ram', root, f)
  {
    PathsOfPage(page);
    var granted := GrantAll(ram, root, page, i4, i3, i2, pdpe, pde, pgflags);
    WidenedKeepsLeaves(ram, granted, root);
    StoreLeaf(granted, root, page, leaf);
    if Covered(ram, root) {
      WidenedKeepsCovered(ram, granted, root);
      StoreLeafKeepsCovered(granted, root, page, leaf);
    }
    ram' := Put(granted, pte, i1, leaf);
    LeafKeepsUpper(ram, granted, root, page, leaf, pgflags);
  }
}
