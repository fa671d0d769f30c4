/** Page-table entries and virtual addresses of four-level x86_64 paging: the index, base and
    flag macros of paging.h. Entries and addresses are 64-bit words. */
module PageBits {
  import opened Words

  const PAGE_SZ: nat := 0x1000
  const PHYS_LIMIT: nat := 0x10_0000_0000_0000 // BASE_MASK keeps bits 12 to 51
  const PAGES: nat := 0x10_0000_0000 // 2^36 pages are told apart by a walk

  const PG_PRESENT: nat := 0x1
  const PG_WRITE: nat := 0x2
  const PG_USER: nat := 0x4
  const PG_PAT: nat := 0x1000 // bit 12, inside BASE_MASK
  const PG_NX: nat := 0x8000_0000_0000_0000
  const PG_UC: nat := 0x1018
  const PG_WC: nat := 0x8
  const PG_WB: nat := 0x1000
  const PG_WP: nat := 0
  const PG_WT: nat := 0x1008

  const PAGE_FLAG_UC: nat := 0x1
  const PAGE_FLAG_WC: nat := 0x2
  const PAGE_FLAG_WB: nat := 0x4
  const PAGE_FLAG_WP: nat := 0x8
  const PAGE_FLAG_WT: nat := 0x10
  const PAGE_FLAG_WRITE: nat := 0x20
  const PAGE_FLAG_USER: nat := 0x40
  const PAGE_FLAG_EXECUTE: nat := 0x80
  const PAGE_FLAG_MAKE: nat := 0x100

  /** `entry & BASE_MASK`: bits 12 to 51. */
  function TableBase(entry: nat): nat { FrameNo(entry) * PAGE_SZ }

  function FrameNo(entry: nat): nat { entry % PHYS_LIMIT / PAGE_SZ }

  function Kalign(addr: nat): nat { addr - addr % PAGE_SZ }

  lemma KalignMeans(addr: nat)
    ensures Kalign(addr) % 0x1000 == 0 && Kalign(addr) <= addr < Kalign(addr) + 0x1000
  {}

  predicate Unaligned(addr: nat) { addr % PAGE_SZ != 0 }

  /** An aligned, nonzero frame that an entry can name. */
  predicate IsFrame(f: nat) { f != 0 && f % PAGE_SZ == 0 && f < PHYS_LIMIT }

  // The index macros; `& SELECT_MASK` keeps nine bits.
  function PmlEntry(v: nat): nat { v / 0x80_0000_0000 % 512 }
  function PdpeEntry(v: nat): nat { v / 0x4000_0000 % 512 }
  function PdeEntry(v: nat): nat { v / 0x20_0000 % 512 }
  function PteEntry(v: nat): nat { v / 0x1000 % 512 }

  /** The number of the page a walk finds for `v`: bits 12 to 47. */
  function PageOf(v: nat): nat { v / PAGE_SZ % PAGES }

  predicate Present(e: nat) { e % 2 == 1 }
  predicate CanWrite(e: nat) { e / PG_WRITE % 2 == 1 }
  predicate NoExecute(e: nat) { e / PG_NX % 2 == 1 }
  predicate PatBit(e: nat) { e / PG_PAT % 2 == 1 }

  // ---- What mapPage puts into entries -------------------------------------------------

  /** `if(on){e |= g;}` */
  function OrIf(e: nat, on: bool, g: nat): nat { if on then Or(e, g) else e }

  /** The flags OR-ed into all four levels. */
  function AccessFlags(flags: nat): nat { OrIf(PG_PRESENT, Test(flags, PAGE_FLAG_WRITE), PG_WRITE) }

  /** `(flags & 0x1F) == 0`. */
  predicate NoType(flags: nat) {
    && !Test(flags, PAGE_FLAG_UC) && !Test(flags, PAGE_FLAG_WC) && !Test(flags, PAGE_FLAG_WB)
    && !Test(flags, PAGE_FLAG_WP) && !Test(flags, PAGE_FLAG_WT)
  }

  /** The memory-type bits; the first request flag in the order UC, WC, WB, WP, WT wins. */
  function CacheBits(flags: nat): nat {
    if NoType(flags) then 0
    else if Test(flags, PAGE_FLAG_UC) then PG_UC
    else if Test(flags, PAGE_FLAG_WC) then PG_WC
    else if Test(flags, PAGE_FLAG_WB) then PG_WB
    else if Test(flags, PAGE_FLAG_WP) then PG_WP
    else if Test(flags, PAGE_FLAG_WT) then PG_WT
    else 0
  }

  /** The flags of the leaf alone: user, no-execute and the memory type on top of the access flags. */
  function LeafFlags(flags: nat): nat {
    var user := OrIf(AccessFlags(flags), Test(flags, PAGE_FLAG_USER), PG_USER);
    var nx := OrIf(user, !Test(flags, PAGE_FLAG_EXECUTE), PG_NX);
    Or(nx, CacheBits(flags))
  }

  function LeafEntry(phys: nat, flags: nat): nat { Or(LeafFlags(flags), phys) }

  /** The request ends in UC, WB or WT, the types that set PG_PAT. */
  predicate AsksForPat(flags: nat) {
    || Test(flags, PAGE_FLAG_UC)
    || (!Test(flags, PAGE_FLAG_WC)
        && (Test(flags, PAGE_FLAG_WB) || (!Test(flags, PAGE_FLAG_WP) && Test(flags, PAGE_FLAG_WT))))
  }

  // ---- Facts ----------------------------------------------------------------------------

  /** Where entries are cut up. */
  lemma FieldEdges()
    ensures IsPow2(PAGE_SZ) && IsPow2(PHYS_LIMIT) && IsPow2(PG_NX)
  {
    assert IsPow2(16) && IsPow2(128);
    IsPow2Product(16, 16, 0x100);
    IsPow2Product(16, 0x100, PAGE_SZ);
    IsPow2Product(PAGE_SZ, PAGE_SZ, 0x100_0000);
    IsPow2Product(0x100_0000, 0x100_0000, 0x1_0000_0000_0000);
    IsPow2Product(16, 0x1_0000_0000_0000, PHYS_LIMIT);
    IsPow2Product(16, PHYS_LIMIT, 0x100_0000_0000_0000);
    IsPow2Product(128, 0x100_0000_0000_0000, PG_NX);
  }

  lemma OrAtEdge(p: nat, a: nat, b: nat, qa: nat, ra: nat, qb: nat, rb: nat)
    requires p == PAGE_SZ || p == PHYS_LIMIT || p == PG_NX
    requires a == p * qa + ra && b == p * qb + rb && ra < p && rb < p
    ensures Or(ra, rb) < p && Or(a, b) == p * Or(qa, qb) + Or(ra, rb)
  {
    FieldEdges();
    OrSplits(a, b, p, qa, ra, qb, rb);
  }

  lemma TableBaseBounds(e: nat)
    ensures TableBase(e) % PAGE_SZ == 0 && TableBase(e) < PHYS_LIMIT
  {}

  lemma FrameIsItsBase(f: nat)
    requires f % PAGE_SZ == 0 && f < PHYS_LIMIT
    ensures TableBase(f) == f
  {}

  /** The frame number of a `|` is the `|` of the frame numbers. */
  lemma FrameOfOr(e: nat, g: nat)
    ensures FrameNo(Or(e, g)) == Or(FrameNo(e), FrameNo(g))
  {
    LowOfOr(e, g);
    FrameOfLowOr(e % PHYS_LIMIT, g % PHYS_LIMIT);
  }

  lemma LowOfOr(e: nat, g: nat)
    ensures Or(e, g) % PHYS_LIMIT == Or(e % PHYS_LIMIT, g % PHYS_LIMIT)
  {
    OrAtEdge(PHYS_LIMIT, e, g, e / PHYS_LIMIT, e % PHYS_LIMIT, g / PHYS_LIMIT, g % PHYS_LIMIT);
    hide *;
    DivUnique(Or(e, g), PHYS_LIMIT, Or(e / PHYS_LIMIT, g / PHYS_LIMIT), Or(e % PHYS_LIMIT, g % PHYS_LIMIT));
  }

  /** Bits 0 to 11 of a `|` come from those bits alone. */
  lemma OrLow(a: nat, b: nat, g: nat)
    requires a % PAGE_SZ == b % PAGE_SZ
    ensures Or(a, g) % PAGE_SZ == Or(b, g) % PAGE_SZ
  {
    OrLowIs(a, g);
    OrLowIs(b, g);
  }

  lemma OrLowIs(a: nat, g: nat)
    ensures Or(a, g) % PAGE_SZ == Or(a % PAGE_SZ, g % PAGE_SZ)
  {
    OrAtEdge(PAGE_SZ, a, g, a / PAGE_SZ, a % PAGE_SZ, g / PAGE_SZ, g % PAGE_SZ);
    hide *;
    DivUnique(Or(a, g), PAGE_SZ, Or(a / PAGE_SZ, g / PAGE_SZ), Or(a % PAGE_SZ, g % PAGE_SZ));
  }

  lemma OrFrameLow(a: nat, f: nat)
    requires f % PAGE_SZ == 0
    ensures Or(a, f) % PAGE_SZ == a % PAGE_SZ
  {
    OrLowIs(a, f);
    OrZero(a % PAGE_SZ);
  }

  lemma FrameOfLowOr(e: nat, g: nat)
    ensures Or(e, g) / PAGE_SZ == Or(e / PAGE_SZ, g / PAGE_SZ)
  {
    OrAtEdge(PAGE_SZ, e, g, e / PAGE_SZ, e % PAGE_SZ, g / PAGE_SZ, g % PAGE_SZ);
    hide *;
    DivUnique(Or(e, g), PAGE_SZ, Or(e / PAGE_SZ, g / PAGE_SZ), Or(e % PAGE_SZ, g % PAGE_SZ));
  }

  /** Flags outside BASE_MASK leave the frame of an entry alone, and a frame OR-ed into an
      entry that names none becomes the frame of the entry. */
  lemma BaseOfOr(e: nat, g: nat)
    ensures TableBase(g) == 0 ==> TableBase(Or(e, g)) == TableBase(e)
    ensures TableBase(e) == 0 ==> TableBase(Or(e, g)) == TableBase(g)
  {
    FrameOfOr(e, g);
  }

  /** Each permission bit of a `|` is the disjunction of the two bits. */
  lemma OrPermissions(e: nat, g: nat)
    ensures Present(Or(e, g)) <==> Present(e) || Present(g)
    ensures CanWrite(Or(e, g)) <==> CanWrite(e) || CanWrite(g)
    ensures NoExecute(Or(e, g)) <==> NoExecute(e) || NoExecute(g)
  {
    OrLowBits(e, g);
    OrTopBit(e, g);
  }

  lemma OrLowBits(e: nat, g: nat)
    ensures Or(e, g) % 2 == 1 <==> e % 2 == 1 || g % 2 == 1
    ensures Or(e, g) / 2 % 2 == 1 <==> e / 2 % 2 == 1 || g / 2 % 2 == 1
  {}

  lemma OrTopBit(e: nat, g: nat)
    ensures NoExecute(Or(e, g)) <==> NoExecute(e) || NoExecute(g)
  {
    TopOfOr(e, g);
    OrHalf(e / PG_NX, g / PG_NX);
  }

  lemma TopOfOr(e: nat, g: nat)
    ensures Or(e, g) / PG_NX == Or(e / PG_NX, g / PG_NX)
  {
    OrAtEdge(PG_NX, e, g, e / PG_NX, e % PG_NX, g / PG_NX, g % PG_NX);
    hide *;
    DivUnique(Or(e, g), PG_NX, Or(e / PG_NX, g / PG_NX), Or(e % PG_NX, g % PG_NX));
  }

  /** Frames carry none of the permission bits. */
  lemma FrameBits(f: nat)
    requires f % PAGE_SZ == 0 && f < PHYS_LIMIT
    ensures !Present(f) && !CanWrite(f) && !NoExecute(f)
  {}

  lemma AccessFlagsBits(flags: nat)
    ensures TableBase(AccessFlags(flags)) == 0
    ensures Present(AccessFlags(flags)) && !NoExecute(AccessFlags(flags))
    ensures CanWrite(AccessFlags(flags)) <==> Test(flags, PAGE_FLAG_WRITE)
  {}

  lemma CacheBitsBits(flags: nat)
    ensures !Present(CacheBits(flags)) && !CanWrite(CacheBits(flags)) && !NoExecute(CacheBits(flags))
    ensures TableBase(CacheBits(flags)) == if AsksForPat(flags) then PG_PAT else 0
  {}

  lemma LeafFlagsBits(flags: nat)
    ensures Present(LeafFlags(flags))
    ensures CanWrite(LeafFlags(flags)) <==> Test(flags, PAGE_FLAG_WRITE)
    ensures NoExecute(LeafFlags(flags)) <==> !Test(flags, PAGE_FLAG_EXECUTE)
    ensures TableBase(LeafFlags(flags)) == if AsksForPat(flags) then PG_PAT else 0
  {
    var user := OrIf(AccessFlags(flags), Test(flags, PAGE_FLAG_USER), PG_USER);
    var nx := OrIf(user, !Test(flags, PAGE_FLAG_EXECUTE), PG_NX);
    AccessFlagsBits(flags);
    OrIfBits(AccessFlags(flags), Test(flags, PAGE_FLAG_USER), PG_USER);
    OrIfBits(user, !Test(flags, PAGE_FLAG_EXECUTE), PG_NX);
    CacheBitsBits(flags);
    OrIfBits(nx, true, CacheBits(flags));
  }

  lemma OrIfBits(e: nat, on: bool, g: nat)
    requires TableBase(e) == 0
    ensures Present(OrIf(e, on, g)) <==> Present(e) || (on && Present(g))
    ensures CanWrite(OrIf(e, on, g)) <==> CanWrite(e) || (on && CanWrite(g))
    ensures NoExecute(OrIf(e, on, g)) <==> NoExecute(e) || (on && NoExecute(g))
    ensures TableBase(OrIf(e, on, g)) == if on then TableBase(g) else 0
  {
    OrPermissions(e, g);
    BaseOfOr(e, g);
  }

  lemma LeafEntryAccess(phys: nat, flags: nat)
    requires phys % PAGE_SZ == 0
    ensures Present(LeafEntry(phys, flags))
    ensures CanWrite(LeafEntry(phys, flags)) <==> Test(flags, PAGE_FLAG_WRITE)
  {
    LeafFlagsBits(flags);
    OrPermissions(LeafFlags(flags), phys);
  }

  /** The leaf for an aligned physical address grants exactly what was asked for. */
  lemma LeafEntryPermissions(phys: nat, flags: nat)
    requires phys % PAGE_SZ == 0 && phys < PHYS_LIMIT
    ensures Present(LeafEntry(phys, flags))
    ensures CanWrite(LeafEntry(phys, flags)) <==> Test(flags, PAGE_FLAG_WRITE)
    ensures NoExecute(LeafEntry(phys, flags)) <==> !Test(flags, PAGE_FLAG_EXECUTE)
  {
    LeafFlagsBits(flags);
    FrameBits(phys);
    OrPermissions(LeafFlags(flags), phys);
  }

  lemma OrOne(n: nat)
    ensures Or(1, n) == if n % 2 == 1 then n else n + 1
  {}

  /** Where the physical address survives: PG_PAT is bit 12, so UC, WB and WT move an address
      whose bit 12 is clear, and addresses of 2^52 and above lose their high bits. */
  lemma LeafEntryNamesPhys(phys: nat, flags: nat)
    requires phys % PAGE_SZ == 0
    ensures TableBase(LeafEntry(phys, flags)) == phys
            <==> phys < PHYS_LIMIT && (AsksForPat(flags) ==> PatBit(phys))
  {
    LeafFlagsBits(flags);
    TableBaseBounds(LeafEntry(phys, flags));
    if phys < PHYS_LIMIT {
      FrameIsItsBase(phys);
      FrameOfOr(LeafFlags(flags), phys);
      OrOne(FrameNo(phys));
    }
  }

  // ---- The leaf, bit by bit -------------------------------------------------------------

  /** Bit `d`, a power of two, of a word. */
  predicate HasBit(a: nat, d: nat)
    requires d > 0
  {
    a / d % 2 == 1
  }

  lemma {:induction false} TestMeans(a: nat, d: nat)
    requires IsPow2(d)
    ensures Test(a, d) <==> HasBit(a, d)
    decreases d
  {
    if d > 1 {
      TestMeans(a / 2, d / 2);
      DivTwice(a, 2, d / 2, d);
    }
  }

  /** The request flags by their bits. */
  lemma RequestBits(flags: nat)
    ensures Test(flags, PAGE_FLAG_UC) <==> HasBit(flags, 0x1)
    ensures Test(flags, PAGE_FLAG_WC) <==> HasBit(flags, 0x2)
    ensures Test(flags, PAGE_FLAG_WB) <==> HasBit(flags, 0x4)
    ensures Test(flags, PAGE_FLAG_WP) <==> HasBit(flags, 0x8)
    ensures Test(flags, PAGE_FLAG_WT) <==> HasBit(flags, 0x10)
    ensures Test(flags, PAGE_FLAG_WRITE) <==> HasBit(flags, 0x20)
    ensures Test(flags, PAGE_FLAG_USER) <==> HasBit(flags, 0x40)
    ensures Test(flags, PAGE_FLAG_EXECUTE) <==> HasBit(flags, 0x80)
    ensures Test(flags, PAGE_FLAG_MAKE) <==> HasBit(flags, 0x100)
  {
    assert IsPow2(0x8) && IsPow2(0x80) && IsPow2(0x100);
    TestMeans(flags, 0x100);
    TestMeans(flags, 0x1);
    TestMeans(flags, 0x2);
    TestMeans(flags, 0x4);
    TestMeans(flags, 0x8);
    TestMeans(flags, 0x10);
    TestMeans(flags, 0x20);
    TestMeans(flags, 0x40);
    TestMeans(flags, 0x80);
  }

  /** The requests that end in UC, WB or WT, by their bits. */
  predicate WantsPat(flags: nat) {
    HasBit(flags, 0x1)
    || (!HasBit(flags, 0x2) && (HasBit(flags, 0x4) || (!HasBit(flags, 0x8) && HasBit(flags, 0x10))))
  }

  /** The requests that end in UC, WC or WT. */
  predicate WantsThrough(flags: nat) {
    HasBit(flags, 0x1) || HasBit(flags, 0x2) || (HasBit(flags, 0x10) && !HasBit(flags, 0x4) && !HasBit(flags, 0x8))
  }

  /** What the processor is told about a page, bits 0 to 11 of its leaf: present, write, user, and the memory type in
      bits 3 and 4. UC wins over WC, WC over WB, WB over WP and WP over WT. */
  function AccessWord(flags: nat): (w: nat)
    ensures w < 0x20
  {
    1
    + (if HasBit(flags, 0x20) then 2 else 0)
    + (if HasBit(flags, 0x40) then 4 else 0)
    + (if WantsThrough(flags) then 8 else 0)
    + (if HasBit(flags, 0x1) then 0x10 else 0)
  }

  /** The bits above `p` and those below do not meet in a `|`. */
  lemma OrApart(p: nat, low: nat, high: nat)
    requires IsPow2(p) && low < p && high % p == 0
    ensures Or(low, high) == low + high && Or(high, low) == low + high
  {
    hide *;
    var q := high / p;
    OrZero(low);
    OrZero(q);
    DivIs(high, p, q, 0);
    OrSplits(low, high, p, 0, low, q, 0);
    OrSplits(high, low, p, q, 0, 0, low);
  }

  lemma OrZero(a: nat)
    ensures Or(a, 0) == a && Or(0, a) == a
  {}

  /** The flags of all four levels: present, and write when asked for. */
  lemma AccessIs(flags: nat)
    ensures AccessFlags(flags) == if HasBit(flags, 0x20) then 3 else 1
  {
    RequestBits(flags);
    assert Or(1, 2) == 3;
    hide HasBit, Test;
  }

  /** The flags of the leaf before the memory type: access, user and no-execute. */
  lemma RightsWord(flags: nat)
    ensures var user := OrIf(AccessFlags(flags), Test(flags, PAGE_FLAG_USER), PG_USER);
      OrIf(user, !Test(flags, PAGE_FLAG_EXECUTE), PG_NX)
      == 1 + (if HasBit(flags, 0x20) then 2 else 0) + (if HasBit(flags, 0x40) then 4 else 0)
         + (if HasBit(flags, 0x80) then 0 else PG_NX)
  {
    RequestBits(flags);
    assert Or(1, 2) == 3;
    assert IsPow2(4) && IsPow2(8) && PG_NX % 8 == 0;
    var access := AccessFlags(flags);
    assert access == if HasBit(flags, 0x20) then 3 else 1;
    hide Or, HasBit, Test, IsPow2;
    OrApart(4, access, PG_USER);
    var user := OrIf(access, Test(flags, PAGE_FLAG_USER), PG_USER);
    assert user == access + if HasBit(flags, 0x40) then 4 else 0;
    OrApart(8, user, PG_NX);
  }

  /** The memory type lies between the rights and no-execute. */
  lemma TypeWord(flags: nat)
    ensures CacheBits(flags) == (if WantsPat(flags) then 0x1000 else 0)
      + (if WantsThrough(flags) then 8 else 0)
      + (if HasBit(flags, 0x1) then 0x10 else 0)
  {
    RequestBits(flags);
    hide HasBit, Test;
  }

  /** A word of rights, with no-execute at the top, and one that lies in between. */
  lemma OrBetween(low: nat, nx: bool, mid: nat)
    requires low < 8 && mid % 8 == 0 && mid < 0x2000
    ensures Or(low + (if nx then PG_NX else 0), mid) == low + mid + if nx then PG_NX else 0
  {
    var top := if nx then PG_NX else 0;
    assert IsPow2(8) && IsPow2(0x400);
    OrSplits(low + top, mid, 8, top / 8, low, mid / 8, 0);
    OrApart(0x400, mid / 8, top / 8);
    assert Or(low, 0) == low;
    hide *;
    assert 8 * (top / 8) == top && 8 * (mid / 8) == mid;
  }

  lemma LeafFlagsWord(flags: nat)
    ensures LeafFlags(flags)
      == AccessWord(flags) + (if WantsPat(flags) then 0x1000 else 0) + if HasBit(flags, 0x80) then 0 else PG_NX
  {
    RightsWord(flags);
    TypeWord(flags);
    var low := 1 + (if HasBit(flags, 0x20) then 2 else 0) + if HasBit(flags, 0x40) then 4 else 0;
    OrBetween(low, !HasBit(flags, 0x80), CacheBits(flags));
    hide HasBit, CacheBits, Or, WantsPat, Test, AccessFlags;
  }

  /** A frame OR-ed into flags: bit 12 is the only one they can share. */
  lemma OrFrame(low: nat, pat: bool, nx: bool, phys: nat)
    requires low < PAGE_SZ && phys % PAGE_SZ == 0 && phys < PHYS_LIMIT
    ensures Or(low + (if pat then 0x1000 else 0) + (if nx then PG_NX else 0), phys)
      == low + (if pat && !HasBit(phys, 0x1000) then phys + 0x1000 else phys) + if nx then PG_NX else 0
  {
    hide *;
    var f: nat, top, bit := phys / 0x1000, if nx then 0x8_0000_0000_0000 else 0, if pat then 1 else 0;
    FieldEdges();
    FrameParts(phys, f);
    OrZero(low);
    OrSplits(low + 0x1000 * (bit + top), phys, 0x1000, bit + top, low, f, 0);
    OrFrameNumber(bit, top, f);
    FrameWord(low, bit, top, f, pat && f % 2 == 0);
  }

  lemma FrameParts(phys: nat, f: nat)
    requires phys % PAGE_SZ == 0 && phys < PHYS_LIMIT && f == phys / 0x1000
    ensures phys == 0x1000 * f && f < 0x100_0000_0000 && (HasBit(phys, 0x1000) <==> f % 2 == 1)
    ensures PAGE_SZ == 0x1000 && PG_NX == 0x1000 * 0x8_0000_0000_0000
  {}

  lemma FrameWord(low: nat, bit: nat, top: nat, f: nat, moved: bool)
    ensures 0x1000 * (top + if moved then f + 1 else f) + low
         == low + (if moved then 0x1000 * f + 0x1000 else 0x1000 * f) + 0x1000 * top
  {}

  lemma OrFrameNumber(bit: nat, top: nat, f: nat)
    requires bit <= 1 && f < 0x100_0000_0000 && (top == 0 || top == 0x8_0000_0000_0000)
    ensures Or(bit + top, f) == top + if bit == 1 && f % 2 == 0 then f + 1 else f
  {
    FrameEdge();
    assert IsPow2(2);
    OrSplits(bit + top, f, 2, top / 2, bit, f / 2, f % 2);
    OrApart(0x100_0000_0000, f / 2, top / 2);
    assert Or(bit, f % 2) == if bit == 1 || f % 2 == 1 then 1 else 0;
    hide *;
    DivIs(f, 2, f / 2, f % 2);
  }

  lemma FrameEdge()
    ensures IsPow2(0x100_0000_0000)
  {
    FieldEdges();
    assert IsPow2(0x10);
    IsPow2Product(0x10, PAGE_SZ, 0x1_0000);
    IsPow2Product(PAGE_SZ, PAGE_SZ, 0x100_0000);
    IsPow2Product(0x1_0000, 0x100_0000, 0x100_0000_0000);
  }

  /** The whole leaf for an aligned address that an entry can hold. */
  lemma LeafWord(phys: nat, flags: nat)
    requires phys % PAGE_SZ == 0 && phys < PHYS_LIMIT
    ensures LeafEntry(phys, flags)
      == AccessWord(flags) + (if WantsPat(flags) && !HasBit(phys, 0x1000) then phys + 0x1000 else phys)
         + if HasBit(flags, 0x80) then 0 else 0x8000_0000_0000_0000
  {
    LeafFlagsWord(flags);
    OrFrame(AccessWord(flags), WantsPat(flags), !HasBit(flags, 0x80), phys);
    hide LeafFlags, HasBit, Or, WantsPat, AccessWord;
  }

  /** The leaf that the request for the local APIC gets: uncached, writable, not executable, and its frame moved. */
  lemma LapicLeaf(phys: nat, flags: nat)
    requires phys == 0xFEE0_0000 && flags == 0x121
    ensures LeafEntry(phys, flags) == 0x8000_0000_FEE0_101B
  {
    hide *;
    LapicBits(phys, flags);
    LeafWord(phys, flags);
  }

  lemma LapicBits(phys: nat, flags: nat)
    requires phys == 0xFEE0_0000 && flags == 0x121
    ensures AccessWord(flags) == 0x1B && WantsPat(flags) && !HasBit(flags, 0x80) && !HasBit(phys, 0x1000)
    ensures phys % PAGE_SZ == 0 && phys < PHYS_LIMIT
  {}

  /** Bits 0 to 11 of a leaf do not depend on the address. */
  lemma LeafLow(phys: nat, flags: nat)
    requires phys % PAGE_SZ == 0
    ensures LeafEntry(phys, flags) % PAGE_SZ == AccessWord(flags)
  {
    LeafFlagsLow(flags);
    var e := LeafFlags(flags);
    OrAtEdge(PAGE_SZ, e, phys, e / PAGE_SZ, e % PAGE_SZ, phys / PAGE_SZ, 0);
    OrZero(e % PAGE_SZ);
    assert LeafEntry(phys, flags) == Or(e, phys);
    hide *;
    DivUnique(Or(e, phys), PAGE_SZ, Or(e / PAGE_SZ, phys / PAGE_SZ), e % PAGE_SZ);
  }

  lemma LeafFlagsLow(flags: nat)
    ensures LeafFlags(flags) % PAGE_SZ == AccessWord(flags)
  {
    LeafFlagsWord(flags);
    hide LeafFlags, AccessWord, WantsPat, WantsThrough, HasBit;
  }

  /** What a leaf says about memory type and user access: caching is off exactly for UC, writes go through exactly for
      UC, WC, and WT without WB and WP, and users may access the page exactly when that was asked for. */
  lemma LeafTypes(phys: nat, flags: nat)
    requires phys % PAGE_SZ == 0
    ensures var e := LeafEntry(phys, flags);
      && (HasBit(e, 0x10) <==> HasBit(flags, 0x1))
      && (HasBit(e, 0x8) <==>
            || HasBit(flags, 0x1) || HasBit(flags, 0x2)
            || (HasBit(flags, 0x10) && !HasBit(flags, 0x4) && !HasBit(flags, 0x8)))
      && (HasBit(e, 0x4) <==> HasBit(flags, 0x40))
  {
    var e := LeafEntry(phys, flags);
    LeafLow(phys, flags);
    assert PAGE_SZ == 0x1000;
    hide LeafEntry;
    LowBit(e, 0x4, 0x400);
    LowBit(e, 0x8, 0x200);
    LowBit(e, 0x10, 0x100);
    AccessBits(flags);
  }

  lemma LowBit(e: nat, d: nat, rest: nat)
    requires d > 0 && rest > 0 && rest % 2 == 0 && d * rest == 0x1000
    ensures HasBit(e, d) <==> HasBit(e % 0x1000, d)
  {
    DivTwice(e, d, rest, 0x1000);
    DivTwice(e / d, 2, rest / 2, rest);
  }

  lemma AccessBits(flags: nat)
    ensures HasBit(AccessWord(flags), 0x10) <==> HasBit(flags, 0x1)
    ensures HasBit(AccessWord(flags), 0x8) <==> WantsThrough(flags)
    ensures HasBit(AccessWord(flags), 0x4) <==> HasBit(flags, 0x40)
  {
    FiveBits(HasBit(flags, 0x20), HasBit(flags, 0x40), WantsThrough(flags), HasBit(flags, 0x1), AccessWord(flags));
  }

  lemma FiveBits(w: bool, u: bool, t: bool, c: bool, e: nat)
    requires e == 1 + (if w then 2 else 0) + (if u then 4 else 0) + (if t then 8 else 0) + (if c then 0x10 else 0)
    ensures (HasBit(e, 0x10) <==> c) && (HasBit(e, 0x8) <==> t) && (HasBit(e, 0x4) <==> u)
  {}

  // The indices of a page number, one per level.
  function Index4(page: nat): nat { page / 0x800_0000 % 512 }
  function Index3(page: nat): nat { page / 0x4_0000 % 512 }
  function Index2(page: nat): nat { page / 512 % 512 }
  function Index1(page: nat): nat { page % 512 }

  lemma DigitsOf(page: nat)
    requires page < PAGES
    ensures page == ((Index4(page) * 512 + Index3(page)) * 512 + Index2(page)) * 512 + Index1(page)
  {
    var q := page / 512;
    var r := q / 512;
    assert r == page / 0x4_0000 && r / 512 == page / 0x800_0000;
  }

  /** A page number is told by its four indices. */
  lemma PageFromIndices(p: nat, q: nat)
    requires p < PAGES && q < PAGES
    requires Index4(p) == Index4(q) && Index3(p) == Index3(q) && Index2(p) == Index2(q) && Index1(p) == Index1(q)
    ensures p == q
  {
    DigitsOf(p);
    DigitsOf(q);
  }

  /** The index macros read the indices of the page of the address. */
  lemma EntryMacros(v: nat)
    ensures PmlEntry(v) == Index4(PageOf(v)) && PdpeEntry(v) == Index3(PageOf(v))
    ensures PdeEntry(v) == Index2(PageOf(v)) && PteEntry(v) == Index1(PageOf(v))
  {
    var p := v / PAGE_SZ;
    assert p / 512 == v / 0x20_0000;
    assert p / 0x4_0000 == v / 0x4000_0000;
    assert p / 0x800_0000 == v / 0x80_0000_0000;
    LowDigit(p, 0x800_0000, 1);
    LowDigit(p, 0x4_0000, 512);
    LowDigit(p, 512, 0x4_0000);
    LowDigit(p, 1, 0x800_0000);
  }

  lemma LowDigit(p: nat, unit: nat, above: nat)
    requires unit > 0 && above > 0 && unit * (512 * above) == PAGES
    ensures p / unit % 512 == p % PAGES / unit % 512
  {
    DivTwice(p, unit, 512 * above, PAGES);
    DivTwice(p / unit, 512, above, 512 * above);
  }

  // ---- Ranges of pages ----------------------------------------------------------------------

  /** How many pages after the page of `virt` the page `q` comes, going round at 2^36. */
  function PagesAfter(virt: nat, q: nat): nat { (q - PageOf(virt)) % PAGES }

  /** `k` pages after an aligned address, in 64-bit arithmetic. */
  function PageStep(addr: nat, k: nat): nat { (addr + k * PAGE_SZ) % U64 }

  lemma StepLandsOn(virt: nat, k: nat, q: nat)
    requires virt % PAGE_SZ == 0 && k < PAGES && q < PAGES
    ensures PageOf(PageStep(virt, k)) == q <==> PagesAfter(virt, q) == k
  {
    PageOfWrapped(virt + k * PAGE_SZ);
    PageOfSum(virt, k);
    GoRound(PageOf(virt), k, q);
  }

  lemma PageOfSum(virt: nat, k: nat)
    requires virt % PAGE_SZ == 0
    ensures PageOf(virt + k * PAGE_SZ) == (PageOf(virt) + k) % PAGES
  {
    assert (virt + k * PAGE_SZ) / PAGE_SZ == virt / PAGE_SZ + k;
  }

  lemma GoRound(a: nat, k: nat, q: nat)
    requires a < PAGES && k < PAGES && q < PAGES
    ensures (a + k) % PAGES == q <==> (q - a) % PAGES == k
  {}

  lemma PageOfWrapped(a: nat)
    ensures PageOf(a % U64) == PageOf(a)
  {
    DivTwice(a, PAGE_SZ, 0x10_0000_0000_0000, U64);
    DivTwice(a / PAGE_SZ, PAGES, 0x1_0000, 0x10_0000_0000_0000);
  }

  lemma SmallStep(addr: nat, k: nat)
    requires addr + k * PAGE_SZ < U64
    ensures PageStep(addr, k) == addr + k * PAGE_SZ
  {}

  lemma StepAligned(addr: nat, k: nat)
    requires addr % PAGE_SZ == 0
    ensures PageStep(addr, k) % PAGE_SZ == 0
  {}

  /** The 32-bit product `b * PAGE_SZ` starts over after 2^20 pages. */
  lemma ProductWraps(b: nat)
    ensures b * PAGE_SZ % U32 == b % 0x10_0000 * PAGE_SZ
  {}

  /** One turn, for a page that comes `k` pages after the start of the range. */
  lemma RangeTurn(k: nat, b: nat, made: bool, mapped: bool, target: nat, start: nat, before: nat, after: nat)
    requires k == b % 0x10_0000 ==> mapped == made
    requires before == if k < b && k < 0x10_0000 && made then target else start
    requires after == if mapped && k == b % 0x10_0000 then target else before
    ensures after == if k < b + 1 && k < 0x10_0000 && made then target else start
  {}
}
