/** loadELF: the PT_LOAD segments of an ELF file, loaded and mapped one after the other. */
module ElfLoader {
  import opened Words
  import opened PageBits
  import opened PageTables
  import opened BootPaging

  const PT_LOAD: nat := 1
  const PF_X: nat := 1
  const PF_W: nat := 2
  const ELF_CLASS64: nat := 2
  const HEADER_SIZE: nat := 64
  const PHDR_SIZE: nat := 56

  datatype Phdr = Phdr(kind: nat, flags: nat, offset: nat, vaddr: nat, filesz: nat, memsz: nat)

  datatype Header = Header(magic: seq<nat>, class_: nat, phoff: nat, phnum: nat, entry: nat)

  // ---- The magic -------------------------------------------------------------------------------------

  const ELF_MAGIC: seq<nat> := [0x7F, 0x45, 0x4C, 0x46] // DEL, 'E', 'L', 'F'

  /** The first `j` bytes are those of the ELF magic, and then comes an 'F'. */
  predicate TakenAt(magic: seq<nat>, j: nat)
    requires |magic| == 4 && j < 4
  {
    magic[j] == 0x46 && forall i :: 0 <= i < j ==> magic[i] == ELF_MAGIC[i]
  }

  predicate MagicTaken(magic: seq<nat>)
    requires |magic| == 4
  {
    TakenAt(magic, 0) || TakenAt(magic, 1) || TakenAt(magic, 2) || TakenAt(magic, 3)
  }

  predicate Accepted(h: Header)
    requires |h.magic| == 4
  {
    MagicTaken(h.magic) && h.class_ == ELF_CLASS64
  }

  lemma AcceptedMeans(h: Header)
    requires |h.magic| == 4
    ensures Accepted(h) <==>
      && h.class_ == 2
      && (h.magic == [0x7F, 0x45, 0x4C, 0x46] || h.magic[0] == 0x46 || h.magic[..2] == [0x7F, 0x46]
          || h.magic[..3] == [0x7F, 0x45, 0x46])
  {
    MagicAccepts(h.magic);
    hide MagicTaken;
  }

  /** Compares up to the first 'F' of the file's own four bytes. */
  method CheckMagic(magic: seq<nat>) returns (ok: bool)
    requires |magic| == 4
    ensures ok <==> MagicTaken(magic)
  {
    var i := 0;
    while magic[i] != 0x46
      invariant 0 <= i < 4 && forall j :: 0 <= j < i ==> magic[j] == ELF_MAGIC[j] && magic[j] != 0x46
      decreases 4 - i
    {
      if ELF_MAGIC[i] != magic[i] { return false; }
      i := i + 1;
    }
    assert TakenAt(magic, i);
    return true;
  }

  /** The test accepts the ELF magic, and besides it what starts with 'F' after a shorter prefix of it. */
  lemma MagicAccepts(magic: seq<nat>)
    requires |magic| == 4
    ensures MagicTaken(magic)
      <==> magic == ELF_MAGIC || magic[0] == 0x46 || magic[..2] == [0x7F, 0x46] || magic[..3] == [0x7F, 0x45, 0x46]
  {
    PrefixesEqual(magic, [0x7F, 0x46], 2);
    PrefixesEqual(magic, [0x7F, 0x45, 0x46], 3);
    PrefixesEqual(magic, ELF_MAGIC, 4);
    assert magic[..4] == magic && ELF_MAGIC[..4] == ELF_MAGIC;
    assert [0x7F, 0x46][..2] == [0x7F, 0x46] && [0x7F, 0x45, 0x46][..3] == [0x7F, 0x45, 0x46];
    assert TakenAt(magic, 1) <==> magic[0] == 0x7F && magic[1] == 0x46;
    assert TakenAt(magic, 2) <==> magic[0] == 0x7F && magic[1] == 0x45 && magic[2] == 0x46;
    assert TakenAt(magic, 3) <==> magic[0] == 0x7F && magic[1] == 0x45 && magic[2] == 0x4C && magic[3] == 0x46;
  }

  lemma PrefixesEqual(a: seq<nat>, b: seq<nat>, n: nat)
    requires n <= |a| && n <= |b|
    ensures a[..n] == b[..n] <==> forall i :: 0 <= i < n ==> a[i] == b[i]
  {
    if a[..n] == b[..n] {
      forall i | 0 <= i < n
        ensures a[i] == b[i]
      {
        assert a[i] == a[..n][i] == b[..n][i] == b[i];
      }
    }
  }

  // ---- Memory ----------------------------------------------------------------------------------------

  /** Physical memory by the byte. */
  type Bytes = nat -> nat

  function Fill(mem: Bytes, at: nat, content: seq<nat>): Bytes {
    (k: nat) => if at <= k < at + |content| then content[k - at] else mem(k)
  }

  function Clear(mem: Bytes, at: nat, n: nat): Bytes { (k: nat) => if at <= k < at + n then 0 else mem(k) }

  /** How many bytes a read of `n` at `from` gets: fewer at the end of the file. */
  function ReadLength(data: seq<nat>, from: nat, n: nat): nat {
    if from >= |data| then 0 else if from + n <= |data| then n else |data| - from
  }

  /** Which bytes those are. */
  function Slice(data: seq<nat>, from: nat, n: nat): (r: seq<nat>)
    ensures |r| == ReadLength(data, from, n) <= n
    ensures forall k :: 0 <= k < |r| ==> from + k < |data| && r[k] == data[from + k]
  {
    if from >= |data| then [] else if from + n <= |data| then data[from..from + n] else data[from..]
  }

  /** allocMem with alignment: the block starts at the next page boundary after the allocation. */
  function LoadAddress(alloc: nat): nat { Kalign(alloc) + PAGE_SZ }

  /** allocMem clears `sz` bytes from the aligned start, where `sz` already counts the page added for
      alignment: the last byte it clears always lies past the allocation, by at most a page. */
  lemma ClearLeavesAllocation(alloc: nat, memsz: nat)
    ensures var sz := memsz + PAGE_SZ; alloc + sz < LoadAddress(alloc) + sz <= alloc + sz + PAGE_SZ
    ensures LoadAddress(alloc) % PAGE_SZ == 0 && LoadAddress(alloc) + memsz <= alloc + memsz + PAGE_SZ
  {}

  // ---- The file --------------------------------------------------------------------------------------

  /** A file with a position, seen as its header and the program headers that follow each other from `phoff`. */
  class ElfFile {
    const header: Header
    const phdrs: seq<Phdr>
    const data: seq<nat>
    var pos: nat

    constructor (h: Header, table: seq<Phdr>, bytes: seq<nat>)
      ensures header == h && phdrs == table && data == bytes
    {
      header := h;
      phdrs := table;
      data := bytes;
      pos := 0;
    }

    /** The program header a read at `at` finds; elsewhere than at a table entry it finds no segment. */
    function PhdrAt(at: nat): Phdr {
      if at >= header.phoff && (at - header.phoff) % PHDR_SIZE == 0 && (at - header.phoff) / PHDR_SIZE < |phdrs|
      then phdrs[(at - header.phoff) / PHDR_SIZE] else Phdr(0, 0, 0, 0, 0, 0)
    }

    /** The header a read at `at` finds; it is at the start of the file. */
    function HeaderAt(at: nat): Header { if at == 0 then header else Header([0, 0, 0, 0], 0, 0, 0, 0) }

    method ReadHeader() returns (h: Header)
      modifies this
      ensures h == HeaderAt(old(pos)) && pos == old(pos) + HEADER_SIZE
    {
      h := HeaderAt(pos);
      pos := pos + HEADER_SIZE;
    }

    method ReadPhdr() returns (p: Phdr)
      modifies this
      ensures p == PhdrAt(old(pos)) && pos == old(pos) + PHDR_SIZE
    {
      p := PhdrAt(pos);
      pos := pos + PHDR_SIZE;
    }

    /** Reads up to `n` bytes from the file position to `dest`, fewer at the end of the file. */
    method ReadTo(mem: Bytes, dest: nat, n: nat) returns (mem': Bytes)
      modifies this
      ensures mem' == Fill(mem, dest, Slice(data, old(pos), n))
      ensures pos == old(pos) + ReadLength(data, old(pos), n)
      ensures forall a: nat :: dest <= a < dest + n && old(pos) + (a - dest) < |data| ==>
              mem'(a) == data[old(pos) + (a - dest)]
      ensures forall a: nat :: a < dest || a >= dest + n || old(pos) + (a - dest) >= |data| ==> mem'(a) == mem(a)
    {
      mem' := Fill(mem, dest, Slice(data, pos, n));
      pos := pos + |Slice(data, pos, n)|;
    }
  }

  // ---- Segments --------------------------------------------------------------------------------------

  /** The loadable segments among the first `n` program headers, in order. */
  function Segments(phdrs: seq<Phdr>, n: nat): seq<Phdr>
    requires n <= |phdrs|
  {
    if n == 0 then []
    else if phdrs[n - 1].kind == PT_LOAD then Segments(phdrs, n - 1) + [phdrs[n - 1]]
    else Segments(phdrs, n - 1)
  }

  /** They are the headers of type 1, each where the ones before it leave off. */
  lemma {:induction false} SegmentsAre(phdrs: seq<Phdr>, n: nat, i: nat)
    requires i < n <= |phdrs|
    ensures Segments(phdrs, i) <= Segments(phdrs, n)
    ensures phdrs[i].kind == 1 ==>
              |Segments(phdrs, i)| < |Segments(phdrs, n)| && Segments(phdrs, n)[|Segments(phdrs, i)|] == phdrs[i]
    ensures forall s :: s in Segments(phdrs, n) ==> s.kind == 1
    decreases n
  {
    if i < n - 1 {
      SegmentsAre(phdrs, n - 1, i);
    } else {
      OnlyLoadable(phdrs, i);
    }
  }

  lemma {:induction false} OnlyLoadable(phdrs: seq<Phdr>, n: nat)
    requires n <= |phdrs|
    ensures forall s :: s in Segments(phdrs, n) ==> s.kind == 1
  {
    if n > 0 { OnlyLoadable(phdrs, n - 1); }
  }

  /** How far the address of a segment is into its page. */
  function Skew(seg: Phdr): nat { seg.vaddr % PAGE_SZ }

  /** In ascending order without a shared page, all within 2^48 bytes. */
  ghost predicate LaidOut(segs: seq<Phdr>) {
    forall i, j :: 0 <= i < j < |segs| ==> Follows(segs[i], segs[j])
  }

  predicate Follows(seg: Phdr, next: Phdr) {
    && seg.vaddr + seg.memsz <= Kalign(next.vaddr)
    && Kalign(next.vaddr) + next.memsz + PAGE_SZ <= Kalign(seg.vaddr) + PAGES * PAGE_SZ
  }

  /** The pages asked for when a segment is mapped, one more than it is long, in 32 bits. */
  function PagesAsked(seg: Phdr): (n: nat)
    ensures n < U32
  {
    (seg.memsz / PAGE_SZ + 1) % U32
  }

  /** The pages that get mapped: 0 is taken for 1, and the offsets reach 2^20 pages. */
  function PagesMapped(seg: Phdr): nat {
    var n := PagesAsked(seg);
    if n == 0 then 1 else if n < 0x10_0000 then n else 0x10_0000
  }

  /** Page `q` is one of those mapped for a segment. */
  predicate Reaches(seg: Phdr, q: nat) { PagesAfter(Kalign(seg.vaddr), q) < PagesMapped(seg) }

  function SegmentLeaf(seg: Phdr, phys: nat): nat { BootLeaf(phys, Test(seg.flags, PF_W), Test(seg.flags, PF_X)) }

  /** What mapping a segment loaded at `load` stores for page `q`. */
  function PageLeaf(seg: Phdr, load: nat, q: nat): nat {
    SegmentLeaf(seg, PageStep(load, PagesAfter(Kalign(seg.vaddr), q)))
  }

  /** The tables after the segments have been mapped one after the other: every page is as the last segment that
      reaches it left it. */
  ghost function ImageLeaf(start: Ram, root: nat, segs: seq<Phdr>, loads: seq<nat>, q: nat): nat
    requires |loads| == |segs|
  {
    if segs == [] then Leaf(start, root, q)
    else
      var i := |segs| - 1;
      if Reaches(segs[i], q) then PageLeaf(segs[i], loads[i], q)
      else ImageLeaf(start, root, segs[..i], loads[..i], q)
  }

  ghost predicate ImageMapped(start: Ram, ram: Ram, root: nat, segs: seq<Phdr>, loads: seq<nat>) {
    |loads| == |segs| && forall q: nat :: q < PAGES ==> Leaf(ram, root, q) == ImageLeaf(start, root, segs, loads, q)
  }

  /** What mapPages does for a segment. */
  ghost predicate SegmentMapped(before: Ram, after: Ram, root: nat, seg: Phdr, load: nat) {
    var n := PagesAsked(seg);
    BootRange(before, after, root, load, seg.vaddr, if n == 0 then 1 else n, Test(seg.flags, PF_W),
              Test(seg.flags, PF_X))
  }

  /** Mapping one more segment. */
  lemma SegmentLoaded(start: Ram, before: Ram, after: Ram, root: nat, segs: seq<Phdr>, loads: seq<nat>, seg: Phdr,
                      load: nat)
    requires ImageMapped(start, before, root, segs, loads) && load % PAGE_SZ == 0
    requires SegmentMapped(before, after, root, seg, load)
    ensures ImageMapped(start, after, root, segs + [seg], loads + [load])
  {
    var segs', loads' := segs + [seg], loads + [load];
    assert segs'[..|segs|] == segs && loads'[..|segs|] == loads;
    forall q: nat | q < PAGES
      ensures Leaf(after, root, q) == ImageLeaf(start, root, segs', loads', q)
    {
      assert Leaf(before, root, q) == ImageLeaf(start, root, segs, loads, q);
    }
  }

  /** A page shows the last segment that reaches it, and is as it was when none does. */
  lemma {:induction false} LastShows(start: Ram, root: nat, segs: seq<Phdr>, loads: seq<nat>, i: int, q: nat)
    requires |loads| == |segs| && -1 <= i < |segs| && (i >= 0 ==> Reaches(segs[i], q))
    requires forall j :: i < j < |segs| ==> !Reaches(segs[j], q)
    ensures ImageLeaf(start, root, segs, loads, q)
            == if i >= 0 then PageLeaf(segs[i], loads[i], q) else Leaf(start, root, q)
    decreases |segs|
  {
    if i < |segs| - 1 { LastShows(start, root, segs[..|segs| - 1], loads[..|segs| - 1], i, q); }
  }

  /** Page `k` from the start of a segment is mapped for it and holds one of its addresses. */
  predicate OwnPage(seg: Phdr, k: nat) { k * PAGE_SZ < seg.memsz + Skew(seg) && k < PagesMapped(seg) }

  /** Every page of a segment leads to the memory it was loaded to, with the segment's own flags. */
  ghost predicate Loaded(ram: Ram, root: nat, seg: Phdr, load: nat) {
    forall k: nat :: OwnPage(seg, k) ==> PageLoaded(ram, root, seg, load, k)
  }

  ghost predicate PageLoaded(ram: Ram, root: nat, seg: Phdr, load: nat, k: nat) {
    Leaf(ram, root, PageOf(PageStep(Kalign(seg.vaddr), k))) == SegmentLeaf(seg, PageStep(load, k))
  }

  ghost predicate Image(ram: Ram, root: nat, segs: seq<Phdr>, loads: seq<nat>) {
    |loads| == |segs| && forall i :: 0 <= i < |segs| ==> Loaded(ram, root, segs[i], loads[i])
  }

  /** Segments in ascending order are all there in the end: the extra page of each lies past the ones before. */
  lemma EarlierKept(start: Ram, ram: Ram, root: nat, segs: seq<Phdr>, loads: seq<nat>)
    requires ImageMapped(start, ram, root, segs, loads) && LaidOut(segs)
    ensures Image(ram, root, segs, loads)
  {
    forall i: nat, k: nat | i < |segs| && OwnPage(segs[i], k)
      ensures PageLoaded(ram, root, segs[i], loads[i], k)
    {
      OwnPageShows(start, root, segs, loads, i, k);
    }
  }

  lemma OwnPageShows(start: Ram, root: nat, segs: seq<Phdr>, loads: seq<nat>, i: nat, k: nat)
    requires |loads| == |segs| && LaidOut(segs) && i < |segs| && OwnPage(segs[i], k)
    ensures var q := PageOf(PageStep(Kalign(segs[i].vaddr), k));
      q < PAGES && ImageLeaf(start, root, segs, loads, q) == SegmentLeaf(segs[i], PageStep(loads[i], k))
  {
    var seg := segs[i];
    var q := PageOf(PageStep(Kalign(seg.vaddr), k));
    PageOfKalign(seg.vaddr);
    StepLandsOn(Kalign(seg.vaddr), k, q);
    forall j | i < j < |segs|
      ensures !Reaches(segs[j], q)
    {
      LaterElsewhere(seg, segs[j], k);
    }
    LastShows(start, root, segs, loads, i, q);
  }

  lemma LaterElsewhere(seg: Phdr, next: Phdr, k: nat)
    requires Follows(seg, next) && OwnPage(seg, k)
    ensures !Reaches(next, PageOf(PageStep(Kalign(seg.vaddr), k)))
  {
    var v, w, n := Kalign(seg.vaddr), Kalign(next.vaddr), next.memsz / PAGE_SZ + 1;
    PageOfKalign(seg.vaddr);
    PageOfKalign(next.vaddr);
    PagesFew(next, n);
    assert v + k * PAGE_SZ < w && w + n * PAGE_SZ <= v + PAGES * PAGE_SZ;
    var reach := PagesMapped(next);
    assert Reaches(next, PageOf(PageStep(v, k))) <==> PagesAfter(w, PageOf(PageStep(v, k))) < reach;
    hide *;
    OutOfReach(v, k, w, n);
  }

  lemma PagesFew(seg: Phdr, n: nat)
    requires n == seg.memsz / PAGE_SZ + 1
    ensures PagesMapped(seg) <= n && n * PAGE_SZ <= seg.memsz + PAGE_SZ
  {}

  lemma OutOfReach(v: nat, k: nat, w: nat, n: nat)
    requires v % PAGE_SZ == 0 && w % PAGE_SZ == 0
    requires v + k * PAGE_SZ < w && w + n * PAGE_SZ <= v + PAGES * PAGE_SZ
    ensures PagesAfter(w, PageOf(PageStep(v, k))) >= n
  {
    PageOfWrapped(v + k * PAGE_SZ);
    PageOfSum(v, k);
    var a, b := v / PAGE_SZ, w / PAGE_SZ;
    Behind(a + k, b, n);
    assert (a % PAGES + k) % PAGES == (a + k) % PAGES;
  }

  lemma Behind(a: nat, b: nat, n: nat)
    requires a < b && b + n <= a + PAGES
    ensures (a % PAGES - b % PAGES) % PAGES >= n
  {}

  // ---- Contents --------------------------------------------------------------------------------------

  /** Byte `o` of a segment: the byte of the file that far behind the segment's offset, and 0 past what the file has for
      it. */
  function SegmentByte(data: seq<nat>, seg: Phdr, o: nat): nat {
    if o < seg.filesz && seg.offset + o < |data| then data[seg.offset + o] else 0
  }

  /** Address `a` is written when a segment is loaded: cleared, or read into. */
  predicate Written(data: seq<nat>, seg: Phdr, load: nat, a: nat) { load <= a < load + WrittenSize(data, seg) }

  function WrittenSize(data: seq<nat>, seg: Phdr): nat {
    var read := ReadLength(data, seg.offset, seg.filesz);
    if read < seg.memsz + PAGE_SZ then seg.memsz + PAGE_SZ else read
  }

  /** Loading a segment writes to frame `f`. */
  predicate Hits(data: seq<nat>, seg: Phdr, load: nat, f: nat) { !Apart(load, WrittenSize(data, seg), f, PAGE_SZ) }

  lemma HitsMeans(data: seq<nat>, seg: Phdr, load: nat, f: nat)
    ensures Hits(data, seg, load, f) <==> exists a :: f <= a < f + PAGE_SZ && Written(data, seg, load, a)
  {
    var a := if load < f then f else load;
    if Hits(data, seg, load, f) { assert f <= a < f + PAGE_SZ && Written(data, seg, load, a); }
  }

  /** Byte `a` belongs to a table; all other bytes are in `mem`. */
  ghost predicate InTable(given: set<nat>, a: nat) { exists f :: f in given && f <= a < f + PAGE_SZ }

  /** No segment from number `i` on is written to address `a`. */
  ghost predicate Spared(data: seq<nat>, segs: seq<Phdr>, loads: seq<nat>, i: nat, a: nat)
    requires |loads| == |segs|
  {
    forall j :: i <= j < |segs| ==> !Written(data, segs[j], loads[j], a)
  }

  /** Every byte of every segment is in memory, where loading a later one did not reach it and no table has taken it. */
  ghost predicate Contents(mem: Bytes, given: set<nat>, data: seq<nat>, segs: seq<Phdr>, loads: seq<nat>) {
    && |loads| == |segs|
    && (forall i: nat, a: nat ::
          i < |segs| && InSegment(segs[i], loads[i], a) && Spared(data, segs, loads, i + 1, a) && !InTable(given, a)
          ==> mem(a) == SegmentByte(data, segs[i], a - loads[i]))
  }

  lemma ContentsMoreTables(mem: Bytes, given: set<nat>, given': set<nat>, data: seq<nat>, segs: seq<Phdr>,
                           loads: seq<nat>)
    requires Contents(mem, given, data, segs, loads) && given <= given'
    ensures Contents(mem, given', data, segs, loads)
  {
    forall a: nat | InTable(given, a)
      ensures InTable(given', a)
    {}
  }

  predicate InSegment(seg: Phdr, load: nat, a: nat) { load <= a < load + seg.memsz }

  /** Memory after loading one segment: cleared, then read into unless the file has nothing for it. */
  function LoadBytes(mem: Bytes, data: seq<nat>, seg: Phdr, load: nat): Bytes {
    var cleared := Clear(mem, load, seg.memsz + PAGE_SZ);
    if seg.filesz == 0 then cleared else Fill(cleared, load, Slice(data, seg.offset, seg.filesz))
  }

  lemma LoadedByte(mem: Bytes, data: seq<nat>, seg: Phdr, load: nat, a: nat)
    ensures InSegment(seg, load, a) || Written(data, seg, load, a) ==>
              LoadBytes(mem, data, seg, load)(a) == SegmentByte(data, seg, a - load)
    ensures !Written(data, seg, load, a) ==> LoadBytes(mem, data, seg, load)(a) == mem(a)
  {}

  lemma ContentsGrow(mem: Bytes, given: set<nat>, data: seq<nat>, segs: seq<Phdr>, loads: seq<nat>, seg: Phdr,
                     load: nat)
    requires Contents(mem, given, data, segs, loads)
    ensures Contents(LoadBytes(mem, data, seg, load), given, data, segs + [seg], loads + [load])
  {
    var segs', loads' := segs + [seg], loads + [load];
    assert segs'[|segs|] == seg && loads'[|segs|] == load;
    forall i: nat, a: nat | i < |segs'| && InSegment(segs'[i], loads'[i], a) && Spared(data, segs', loads', i + 1, a)
                            && !InTable(given, a)
      ensures LoadBytes(mem, data, seg, load)(a) == SegmentByte(data, segs'[i], a - loads'[i])
    {
      LoadedByte(mem, data, seg, load, a);
      if i < |segs| {
        assert segs'[i] == segs[i] && loads'[i] == loads[i];
        assert forall j :: 0 <= j < |segs| ==> segs'[j] == segs[j] && loads'[j] == loads[j];
        assert Spared(data, segs, loads, i + 1, a);
      }
    }
  }

  /** A segment in the file is not longer than in memory. */
  predicate FileFits(seg: Phdr) { seg.filesz <= seg.memsz }

  /** Two segments whose allocations, a page longer than the segments, do not overlap: loading the later one writes
      to the earlier one exactly when it was allocated below it and the page that is cleared past its end comes as far
      as the first page of the earlier one. */
  lemma ClearMeets(data: seq<nat>, seg: Phdr, alloc: nat, next: Phdr, nextAlloc: nat)
    requires FileFits(next) && Apart(alloc, seg.memsz + PAGE_SZ, nextAlloc, next.memsz + PAGE_SZ)
    ensures (exists a :: InSegment(seg, LoadAddress(alloc), a) && Written(data, next, LoadAddress(nextAlloc), a))
      <==> seg.memsz > 0 && Overruns(alloc, nextAlloc, next.memsz)
  {
    var load, to := LoadAddress(alloc), LoadAddress(nextAlloc);
    if seg.memsz > 0 && Overruns(alloc, nextAlloc, next.memsz) {
      assert InSegment(seg, load, load) && Written(data, next, to, load);
    }
  }

  /** An allocation of `memsz` bytes and a page below `alloc` whose clearing reaches the load address of that one. */
  predicate Overruns(alloc: nat, nextAlloc: nat, memsz: nat) {
    nextAlloc < alloc && Kalign(alloc) < Kalign(nextAlloc) + memsz + PAGE_SZ
  }

  /** Two disjoint answers of allocPool with which the first byte of the segment loaded first is lost. */
  lemma EarlierByteLost(mem: Bytes, data: seq<nat>, next: Phdr)
    requires next.memsz == 0x10 && FileFits(next)
    ensures Apart(0x501010, 0x1000 + PAGE_SZ, 0x500000, next.memsz + PAGE_SZ)
    ensures LoadAddress(0x501010) == 0x502000 && LoadBytes(mem, data, next, LoadAddress(0x500000))(0x502000) == 0
  {}

  /** The allocations do not overlap, and clearing the later one stays clear of the earlier segment. */
  predicate Harmless(seg: Phdr, alloc: nat, next: Phdr, nextAlloc: nat) {
    && FileFits(next) && Apart(alloc, seg.memsz + PAGE_SZ, nextAlloc, next.memsz + PAGE_SZ)
    && !Overruns(alloc, nextAlloc, next.memsz)
  }

  /** Under that condition on the answers of allocPool, those for tables included, every segment is complete at the
      end. */
  lemma ContentsComplete(mem: Bytes, bump: BumpAllocator, data: seq<nat>, segs: seq<Phdr>, allocs: seq<nat>, i: nat,
                         a: nat)
    requires |segs| <= |allocs| && Contents(mem, bump.given, data, segs, LoadAddresses(allocs, |segs|)) && i < |segs|
    requires forall j :: i < j < |segs| ==> Harmless(segs[i], allocs[i], segs[j], allocs[j])
    requires bump.Valid() && ApartFromTables(bump.taken, segs[i], allocs[i])
    requires InSegment(segs[i], LoadAddress(allocs[i]), a)
    ensures var seg, o := segs[i], a - LoadAddress(allocs[i]);
      mem(a) == if o < seg.filesz && seg.offset + o < |data| then data[seg.offset + o] else 0
  {
    var loads := LoadAddresses(allocs, |segs|);
    LoadAddressesAt(allocs, |segs|, i);
    forall j | i < j < |segs|
      ensures !Written(data, segs[j], loads[j], a)
    {
      LoadAddressesAt(allocs, |segs|, j);
      ClearMeets(data, segs[i], allocs[i], segs[j], allocs[j]);
    }
    assert Spared(data, segs, loads, i + 1, a);
    NotInTable(bump, segs[i], allocs[i], a);
  }

  // ---- Segments and tables ---------------------------------------------------------------------------

  /** The allocations for tables, `taken`, do not overlap the one for a segment. */
  ghost predicate ApartFromTables(taken: set<nat>, seg: Phdr, alloc: nat) {
    forall p :: p in taken ==> Apart(p, POOL_SZ, alloc, seg.memsz + PAGE_SZ)
  }

  lemma FrameOfChunk(bump: BumpAllocator, f: nat) returns (p: nat)
    requires bump.Valid() && f in bump.given
    ensures p in bump.taken && InChunk(p, f) && p < f && f + PAGE_SZ <= p + POOL_SZ
  {
    assert FromChunks(bump.taken, f);
    p :| p in bump.taken && InChunk(p, f);
  }

  lemma NotInTable(bump: BumpAllocator, seg: Phdr, alloc: nat, a: nat)
    requires bump.Valid() && ApartFromTables(bump.taken, seg, alloc) && InSegment(seg, LoadAddress(alloc), a)
    ensures !InTable(bump.given, a)
  {
    forall f | f in bump.given
      ensures !(f <= a < f + PAGE_SZ)
    {
      var p := FrameOfChunk(bump, f);
      assert Apart(p, POOL_SZ, alloc, seg.memsz + PAGE_SZ);
    }
  }

  /** A segment whose allocation overlaps none of those for tables: clearing its memory wipes a table exactly when it
      was allocated below one of them and the page that is cleared past its end comes as far as the first table in
      it. */
  lemma ClearMeetsTables(bump: BumpAllocator, data: seq<nat>, seg: Phdr, alloc: nat)
    requires bump.Valid() && bump.bumpPtr > 0 && FileFits(seg) && ApartFromTables(bump.taken, seg, alloc)
    ensures (exists f :: f in bump.given && Hits(data, seg, LoadAddress(alloc), f))
      <==> exists p :: p in bump.taken && Overruns(p, alloc, seg.memsz)
  {
    if f :| f in bump.given && Hits(data, seg, LoadAddress(alloc), f) {
      var p := FrameOfChunk(bump, f);
      assert Apart(p, POOL_SZ, alloc, seg.memsz + PAGE_SZ);
      assert Overruns(p, alloc, seg.memsz);
    }
    if p :| p in bump.taken && Overruns(p, alloc, seg.memsz) {
      assert FirstUsed(bump.given, p) && Apart(p, POOL_SZ, alloc, seg.memsz + PAGE_SZ);
      assert FirstFrame(p) in bump.given && Hits(data, seg, LoadAddress(alloc), FirstFrame(p));
    }
  }

  /** Two disjoint answers of allocPool with which the first two entries of the top table are lost, so that none of the
      first 2^28 pages is mapped any more. */
  lemma TableWiped(mem: Bytes, data: seq<nat>, seg: Phdr, a: nat)
    requires seg.memsz == 0x10 && FileFits(seg) && 0x502000 <= a < 0x502010
    ensures Apart(0x501010, POOL_SZ, 0x500000, seg.memsz + PAGE_SZ) && FirstFrame(0x501010) == 0x502000
    ensures Hits(data, seg, LoadAddress(0x500000), 0x502000)
    ensures LoadBytes(mem, data, seg, LoadAddress(0x500000))(a) == 0
  {}

  lemma FirstEntriesGone(ram: Ram, root: nat, page: nat)
    requires At(ram, root, 0) == 0 && At(ram, root, 1) == 0 && page < 0x1000_0000
    ensures !Mapped(ram, root, page)
  {
    assert Index4(page) == 0 || Index4(page) == 1;
  }

  /** Where the answers of allocPool put the first `n` segments, as far as there are answers. */
  function LoadAddresses(allocs: seq<nat>, n: nat): seq<nat> {
    if n == 0 || n > |allocs| then [] else LoadAddresses(allocs, n - 1) + [LoadAddress(allocs[n - 1])]
  }

  lemma {:induction false} LoadAddressesAt(allocs: seq<nat>, n: nat, i: nat)
    requires i < n <= |allocs|
    ensures |LoadAddresses(allocs, n)| == n && LoadAddresses(allocs, n)[i] == LoadAddress(allocs[i])
    decreases n
  {
    if n > 1 { LoadAddressesAt(allocs, n - 1, if i < n - 1 then i else 0); }
  }

  // ---- loadELF ---------------------------------------------------------------------------------------

  /** Clears the memory of a segment and reads into it, with the file position restored. */
  method ReadSegment(file: ElfFile, mem: Bytes, prog: Phdr, load: nat) returns (mem': Bytes)
    modifies file
    ensures file.pos == old(file.pos) && mem' == LoadBytes(mem, file.data, prog, load)
  {
    mem' := Clear(mem, load, prog.memsz + PAGE_SZ);
    if prog.filesz != 0 {
      var save := file.pos;
      file.pos := prog.offset;
      mem' := file.ReadTo(mem', load, prog.filesz);
      file.pos := save;
    }
  }

  /** What becomes of the loader: it ends, memory runs out, or loading a segment would write to a page table; what the
      source does from there on is not followed. */
  datatype Outcome = Done | NoMemory | TableHit

  /** The image after the first program headers: filled and loaded where allocPool said, and mapped. */
  ghost predicate Progress(start: Ram, boot: BootSpace, mem: Bytes, data: seq<nat>, segs: seq<Phdr>, loads: seq<nat>,
                           allocs: seq<nat>)
    reads boot, boot.bump
  {
    && ImageMapped(start, boot.ram, boot.pml, segs, loads) && Contents(mem, boot.bump.given, data, segs, loads)
    && loads == LoadAddresses(allocs, |segs|) && |segs| <= |allocs|
  }

  /** Loading `seg` next would write to a table. */
  predicate Blocked(bump: BumpAllocator, data: seq<nat>, seg: Phdr, alloc: nat)
    reads bump
  {
    exists f :: f in bump.given && Hits(data, seg, LoadAddress(alloc), f)
  }

  /** The part of the loop for one PT_LOAD header: the memory at allocPool's next answer is filled, then mapped one page
      over its end. */
  method LoadSegment(file: ElfFile, boot: BootSpace, mem: Bytes, prog: Phdr, allocs: seq<nat>, used: nat,
                     ghost start: Ram, ghost segs: seq<Phdr>, ghost loads: seq<nat>)
    returns (outcome: Outcome, mem': Bytes, ghost load: nat)
    requires boot.Valid() && used == |segs| < |allocs|
    requires Progress(start, boot, mem, file.data, segs, loads, allocs)
    modifies file, boot`ram, boot.bump
    ensures boot.Valid() && file.pos == old(file.pos)
    ensures outcome == Done ==> Progress(start, boot, mem', file.data, segs + [prog], loads + [load], allocs)
    ensures outcome == NoMemory ==> boot.bump.Exhausted()
    ensures outcome == TableHit ==> Blocked(boot.bump, file.data, prog, allocs[used])
    ensures outcome == TableHit ==> Progress(start, boot, mem', file.data, segs, loads, allocs)
  {
    hide *;
    var at := LoadAddress(allocs[used]);
    load := at;
    ProgressMeans(start, boot, mem, file.data, segs, loads, allocs);
    if Blocked(boot.bump, file.data, prog, allocs[used]) { return TableHit, mem, at; }
    mem' := ReadSegment(file, mem, prog, at);
    var ok := boot.MapPages(at, prog.vaddr, PagesAsked(prog), Test(prog.flags, PF_W), Test(prog.flags, PF_X));
    outcome := if ok then Done else NoMemory;
    if ok {
      MappedIs(old(boot.ram), boot.ram, boot.pml, prog, at);
      ProgressGrows(start, old(boot.ram), old(boot.bump.given), boot, mem, file.data, segs, loads, allocs, prog);
    }
  }

  lemma ProgressGrows(start: Ram, before: Ram, given: set<nat>, boot: BootSpace, mem: Bytes, data: seq<nat>,
                      segs: seq<Phdr>, loads: seq<nat>, allocs: seq<nat>, prog: Phdr)
    requires ImageMapped(start, before, boot.pml, segs, loads) && Contents(mem, given, data, segs, loads)
    requires loads == LoadAddresses(allocs, |segs|) && |segs| < |allocs| && given <= boot.bump.given
    requires SegmentMapped(before, boot.ram, boot.pml, prog, LoadAddress(allocs[|segs|]))
    ensures var load := LoadAddress(allocs[|segs|]);
      Progress(start, boot, LoadBytes(mem, data, prog, load), data, segs + [prog], loads + [load], allocs)
  {
    hide *;
    var load := LoadAddress(allocs[|segs|]);
    LoadAddressesMore(allocs, |segs|);
    ContentsGrow(mem, given, data, segs, loads, prog, load);
    ContentsMoreTables(LoadBytes(mem, data, prog, load), given, boot.bump.given, data, segs + [prog], loads + [load]);
    SegmentLoaded(start, before, boot.ram, boot.pml, segs, loads, prog, load);
    ProgressIs(start, boot, LoadBytes(mem, data, prog, load), data, segs + [prog], loads + [load], allocs);
  }

  lemma ProgressMeans(start: Ram, boot: BootSpace, mem: Bytes, data: seq<nat>, segs: seq<Phdr>, loads: seq<nat>,
                      allocs: seq<nat>)
    requires Progress(start, boot, mem, data, segs, loads, allocs)
    ensures ImageMapped(start, boot.ram, boot.pml, segs, loads) && Contents(mem, boot.bump.given, data, segs, loads)
    ensures loads == LoadAddresses(allocs, |segs|)
  {}

  lemma ProgressIs(start: Ram, boot: BootSpace, mem: Bytes, data: seq<nat>, segs: seq<Phdr>, loads: seq<nat>,
                   allocs: seq<nat>)
    requires ImageMapped(start, boot.ram, boot.pml, segs, loads) && Contents(mem, boot.bump.given, data, segs, loads)
    requires loads == LoadAddresses(allocs, |segs|) && |segs| <= |allocs|
    ensures Progress(start, boot, mem, data, segs, loads, allocs)
  {}

  lemma LoadAddressesMore(allocs: seq<nat>, n: nat)
    requires n < |allocs|
    ensures LoadAddresses(allocs, n + 1) == LoadAddresses(allocs, n) + [LoadAddress(allocs[n])]
    ensures LoadAddress(allocs[n]) % PAGE_SZ == 0
  {
    ClearLeavesAllocation(allocs[n], 0);
  }

  lemma MappedIs(before: Ram, after: Ram, root: nat, seg: Phdr, load: nat)
    requires var n := PagesAsked(seg);
      BootRange(before, after, root, load, seg.vaddr, if n == 0 then 1 else n, Test(seg.flags, PF_W),
                Test(seg.flags, PF_X))
    ensures SegmentMapped(before, after, root, seg, load)
  {}

  /** The loop over the program headers. `allocs` are the answers of allocPool; the ghost results list the
      segments loaded and where they went. */
  method LoadSegments(file: ElfFile, boot: BootSpace, mem: Bytes, allocs: seq<nat>)
    returns (outcome: Outcome, mem': Bytes, ghost segs: seq<Phdr>, ghost loads: seq<nat>)
    requires boot.Valid() && file.header.phnum <= |file.phdrs| && file.pos == file.header.phoff
    modifies file, boot`ram, boot.bump
    ensures boot.Valid()
    ensures Ended(outcome, old(boot.ram), boot, file, mem', segs, loads, allocs)
  {
    mem', segs, loads := mem, [], [];
    var i: nat, used: nat := 0, 0;
    NothingLoaded(file, boot, mem, allocs);
    hide *;
    while i < file.header.phnum
      invariant i <= file.header.phnum <= |file.phdrs| && boot.Valid()
      invariant file.pos == PhdrPos(file, i)
      invariant segs == Segments(file.phdrs, i) && used == |segs|
      invariant Progress(old(boot.ram), boot, mem', file.data, segs, loads, allocs)
    {
      NextPhdr(file, i);
      var prog := file.ReadPhdr();
      if prog.kind == PT_LOAD {
        if used >= |allocs| {
          EndsEarly(NoMemory, old(boot.ram), boot, file, mem', segs, loads, allocs, prog);
          return NoMemory, mem', segs, loads;
        }
        ghost var load;
        outcome, mem', load := LoadSegment(file, boot, mem', prog, allocs, used, old(boot.ram), segs, loads);
        if outcome != Done {
          EndsEarly(outcome, old(boot.ram), boot, file, mem', segs, loads, allocs, prog);
          return;
        }
        segs, loads := segs + [prog], loads + [load];
        used := used + 1;
      }
      i := i + 1;
    }
    outcome := Done;
    EndsLate(old(boot.ram), boot, file, mem', segs, loads, allocs);
  }

  /** How the loop ends. Done: every segment of the file is loaded. Out of memory: so says one of the two sources of it.
      At a table: all segments before are loaded, and the next one would write to a table. */
  ghost predicate Ended(outcome: Outcome, start: Ram, boot: BootSpace, file: ElfFile, mem: Bytes, segs: seq<Phdr>,
                        loads: seq<nat>, allocs: seq<nat>)
    requires file.header.phnum <= |file.phdrs|
    reads boot, boot.bump
  {
    var all := Segments(file.phdrs, file.header.phnum);
    match outcome
    case Done => segs == all && Progress(start, boot, mem, file.data, segs, loads, allocs)
    case NoMemory =>
      && |segs| < |all| && segs == all[..|segs|]
      && if |segs| < |allocs| then boot.bump.Exhausted() else Progress(start, boot, mem, file.data, segs, loads, allocs)
    case TableHit =>
      && |segs| < |all| && |segs| < |allocs| && segs == all[..|segs|]
      && Blocked(boot.bump, file.data, all[|segs|], allocs[|segs|])
      && Progress(start, boot, mem, file.data, segs, loads, allocs)
  }

  /** With answers of allocPool that do not overlap and a file that is no longer than its memory, the loader stops at a
      table only when clearing the next segment runs into an allocation for tables from below. */
  lemma StopsAtOverrun(start: Ram, boot: BootSpace, file: ElfFile, mem: Bytes, segs: seq<Phdr>, loads: seq<nat>,
                       allocs: seq<nat>)
    requires file.header.phnum <= |file.phdrs| && boot.Valid()
    requires Ended(TableHit, start, boot, file, mem, segs, loads, allocs)
    requires forall i: nat :: i < |allocs| && i < |Segments(file.phdrs, file.header.phnum)| ==>
               var seg := Segments(file.phdrs, file.header.phnum)[i];
               FileFits(seg) && ApartFromTables(boot.bump.taken, seg, allocs[i])
    ensures exists p ::
              p in boot.bump.answers
              && Overruns(p, allocs[|segs|], Segments(file.phdrs, file.header.phnum)[|segs|].memsz)
  {
    var seg := Segments(file.phdrs, file.header.phnum)[|segs|];
    ClearMeetsTables(boot.bump, file.data, seg, allocs[|segs|]);
    var p :| p in boot.bump.taken && Overruns(p, allocs[|segs|], seg.memsz);
    assert p in boot.bump.answers;
  }

  function PhdrPos(file: ElfFile, i: nat): nat { file.header.phoff + PHDR_SIZE * i }

  lemma NothingLoaded(file: ElfFile, boot: BootSpace, mem: Bytes, allocs: seq<nat>)
    requires file.header.phnum <= |file.phdrs|
    ensures PhdrPos(file, 0) == file.header.phoff && Segments(file.phdrs, 0) == []
    ensures Progress(boot.ram, boot, mem, file.data, [], [], allocs)
  {}

  lemma NextPhdr(file: ElfFile, i: nat)
    requires i < file.header.phnum <= |file.phdrs|
    ensures file.PhdrAt(PhdrPos(file, i)) == file.phdrs[i] && PhdrPos(file, i) + PHDR_SIZE == PhdrPos(file, i + 1)
    ensures Segments(file.phdrs, i + 1)
      == if file.phdrs[i].kind == PT_LOAD then Segments(file.phdrs, i) + [file.phdrs[i]] else Segments(file.phdrs, i)
    ensures Segments(file.phdrs, i + 1) <= Segments(file.phdrs, file.header.phnum)
  {
    SegmentsMore(file.phdrs, i + 1, file.header.phnum);
  }

  lemma EndsEarly(outcome: Outcome, start: Ram, boot: BootSpace, file: ElfFile, mem: Bytes, segs: seq<Phdr>,
                  loads: seq<nat>, allocs: seq<nat>, prog: Phdr)
    requires file.header.phnum <= |file.phdrs| && segs + [prog] <= Segments(file.phdrs, file.header.phnum)
    requires outcome == NoMemory ==>
      if |segs| < |allocs| then boot.bump.Exhausted() else Progress(start, boot, mem, file.data, segs, loads, allocs)
    requires outcome == TableHit ==> |segs| < |allocs| && Blocked(boot.bump, file.data, prog, allocs[|segs|])
    requires outcome == TableHit ==> Progress(start, boot, mem, file.data, segs, loads, allocs)
    requires outcome != Done
    ensures Ended(outcome, start, boot, file, mem, segs, loads, allocs)
  {
    var all := Segments(file.phdrs, file.header.phnum);
    assert all[..|segs| + 1] == segs + [prog] && all[..|segs|] == segs && all[|segs|] == prog;
  }

  lemma EndsLate(start: Ram, boot: BootSpace, file: ElfFile, mem: Bytes, segs: seq<Phdr>, loads: seq<nat>,
                 allocs: seq<nat>)
    requires file.header.phnum <= |file.phdrs| && segs == Segments(file.phdrs, file.header.phnum)
    requires Progress(start, boot, mem, file.data, segs, loads, allocs)
    ensures Ended(Done, start, boot, file, mem, segs, loads, allocs)
  {}

  /** Loads the image and returns its entry point, 0 for a file that is not taken for a 64-bit ELF file. */
  method LoadElf(file: ElfFile, boot: BootSpace, mem: Bytes, allocs: seq<nat>)
    returns (outcome: Outcome, entry: nat, mem': Bytes, ghost segs: seq<Phdr>, ghost loads: seq<nat>)
    requires boot.Valid() && |file.header.magic| == 4 && file.header.phnum <= |file.phdrs|
    modifies file, boot`ram, boot.bump
    ensures boot.Valid()
    ensures Accepted(file.header) ==> Ended(outcome, old(boot.ram), boot, file, mem', segs, loads, allocs)
    ensures Accepted(file.header) ==> entry == file.header.entry
    ensures !Accepted(file.header) ==> outcome == Done && entry == 0 && mem' == mem && boot.ram == old(boot.ram)
  {
    file.pos := 0;
    mem', segs, loads := mem, [], [];
    var header := file.ReadHeader();
    var known := CheckMagic(header.magic);
    if !known || header.class_ != ELF_CLASS64 { return Done, 0, mem, [], []; }
    file.pos := header.phoff;
    outcome, mem', segs, loads := LoadSegments(file, boot, mem, allocs);
    entry := header.entry;
  }

  lemma {:induction false} SegmentsMore(phdrs: seq<Phdr>, n: nat, m: nat)
    requires n <= m <= |phdrs|
    ensures Segments(phdrs, n) <= Segments(phdrs, m)
    decreases m
  {
    if n < m { SegmentsMore(phdrs, n, m - 1); }
  }

  /** The address of byte `o` of a segment. */
  function AddressOf(seg: Phdr, o: nat): nat { (seg.vaddr + o) % U64 }

  /** Every address of a loaded segment on a page mapped for it leads into its memory, with the permissions of its own
      segment, although every segment was mapped one page over its end: to its own byte when the segment starts on a
      page boundary, and otherwise as far past it as the start is past the boundary. */
  lemma ImageTranslates(ram: Ram, root: nat, segs: seq<Phdr>, loads: seq<nat>, i: nat, o: nat)
    requires Image(ram, root, segs, loads) && Covered(ram, root) && root != 0
    requires i < |segs| && o < segs[i].memsz && OwnPage(segs[i], (o + Skew(segs[i])) / PAGE_SZ)
    requires loads[i] % PAGE_SZ == 0 && loads[i] + o + Skew(segs[i]) < PHYS_LIMIT
    ensures var v := AddressOf(segs[i], o);
      && Mapped(ram, root, PageOf(v))
      && VirtToPhysInt(ram, root, v) + v % PAGE_SZ == loads[i] + o + Skew(segs[i])
      && (Writable(ram, root, PageOf(v)) <==> HasBit(segs[i].flags, 2))
      && (Executable(ram, root, PageOf(v)) <==> HasBit(segs[i].flags, 1))
  {
    SegmentRights(segs[i].flags);
    var seg := segs[i];
    var d := o + Skew(seg);
    var k := d / PAGE_SZ;
    AddressLeaf(ram, root, seg, loads[i], o);
    InLoad(loads[i], d);
    hide *;
    LeafShows(ram, root, AddressOf(seg, o), loads[i] + k * PAGE_SZ, Test(seg.flags, PF_W), Test(seg.flags, PF_X));
  }

  lemma InLoad(load: nat, d: nat)
    requires load % PAGE_SZ == 0 && load + d < PHYS_LIMIT
    ensures (load + d / PAGE_SZ * PAGE_SZ) % PAGE_SZ == 0 && load + d / PAGE_SZ * PAGE_SZ < PHYS_LIMIT
    ensures load + d / PAGE_SZ * PAGE_SZ + d % PAGE_SZ == load + d
  {}

  /** A segment is seen byte for byte at its addresses exactly when it starts on a page boundary. */
  lemma AlignedIsSeen(ram: Ram, root: nat, segs: seq<Phdr>, loads: seq<nat>, i: nat)
    requires Image(ram, root, segs, loads) && Covered(ram, root) && root != 0
    requires i < |segs| && 0 < segs[i].memsz <= U32 && loads[i] % PAGE_SZ == 0
    requires loads[i] + segs[i].memsz + PAGE_SZ <= PHYS_LIMIT
    ensures (forall o: nat :: o < segs[i].memsz ==> Seen(ram, root, segs[i], loads[i], o)) <==>
            segs[i].vaddr % PAGE_SZ == 0
  {
    var seg := segs[i];
    if Skew(seg) == 0 {
      forall o: nat | o < seg.memsz
        ensures Seen(ram, root, seg, loads[i], o)
      {
        OwnPageOf(seg, o);
        ImageTranslates(ram, root, segs, loads, i, o);
      }
    } else {
      OwnPageOf(seg, 0);
      ImageTranslates(ram, root, segs, loads, i, 0);
      assert !Seen(ram, root, seg, loads[i], 0);
    }
  }

  /** The pages mapped for a segment hold all of it exactly up to 4 GiB. */
  lemma PagesCover(seg: Phdr)
    ensures seg.memsz <= PagesMapped(seg) * PAGE_SZ <==> seg.memsz <= U32
    ensures seg.memsz < U32 ==> seg.memsz < PagesMapped(seg) * PAGE_SZ <= seg.memsz + PAGE_SZ
  {}

  lemma OwnPageOf(seg: Phdr, o: nat)
    requires o < seg.memsz <= U32 && (o == 0 || Skew(seg) == 0)
    ensures OwnPage(seg, (o + Skew(seg)) / PAGE_SZ)
  {
    PagesCover(seg);
  }

  predicate Seen(ram: Ram, root: nat, seg: Phdr, load: nat, o: nat) {
    VirtToPhysInt(ram, root, AddressOf(seg, o)) + AddressOf(seg, o) % PAGE_SZ == load + o
  }

  lemma AddressLeaf(ram: Ram, root: nat, seg: Phdr, load: nat, o: nat)
    requires Loaded(ram, root, seg, load) && OwnPage(seg, (o + Skew(seg)) / PAGE_SZ)
    requires load + o + Skew(seg) < PHYS_LIMIT
    ensures Leaf(ram, root, PageOf(AddressOf(seg, o))) == SegmentLeaf(seg, load + (o + Skew(seg)) / PAGE_SZ * PAGE_SZ)
    ensures AddressOf(seg, o) % PAGE_SZ == (o + Skew(seg)) % PAGE_SZ
  {
    var d := o + Skew(seg);
    assert PageLoaded(ram, root, seg, load, d / PAGE_SZ);
    assert Kalign(seg.vaddr) + d == seg.vaddr + o;
    PageOfKalign(seg.vaddr);
    SameStep(Kalign(seg.vaddr), d);
    SmallStep(load, d / PAGE_SZ);
  }

  lemma SegmentRights(flags: nat)
    ensures (Test(flags, PF_W) <==> HasBit(flags, 2)) && (Test(flags, PF_X) <==> HasBit(flags, 1))
  {
    RequestBits(flags);
    hide Test, HasBit;
  }

  lemma LeafShows(ram: Ram, root: nat, v: nat, phys: nat, write: bool, execute: bool)
    requires Covered(ram, root) && root != 0 && phys % PAGE_SZ == 0 && phys < PHYS_LIMIT
    requires Leaf(ram, root, PageOf(v)) == BootLeaf(phys, write, execute)
    ensures Mapped(ram, root, PageOf(v)) && VirtToPhysInt(ram, root, v) == phys
    ensures (Writable(ram, root, PageOf(v)) <==> write) && (Executable(ram, root, PageOf(v)) <==> execute)
  {
    BootLeafBits(phys, write, execute);
    LeafDecides(ram, root, PageOf(v));
    WalksReadTheLeaf(ram, root, v);
  }

  lemma SameStep(v: nat, o: nat)
    requires v % PAGE_SZ == 0
    ensures PageOf((v + o) % U64) == PageOf(PageStep(v, o / PAGE_SZ)) && (v + o) % U64 % PAGE_SZ == o % PAGE_SZ
  {
    var q, r := o / PAGE_SZ, o % PAGE_SZ;
    var s := v + q * PAGE_SZ;
    assert PageStep(v, q) == s % U64;
    hide PageStep, PageOf;
    DivIs(o, PAGE_SZ, q, r);
    DivUnique(s, PAGE_SZ, v / PAGE_SZ + q, 0);
    assert v + o == s + r;
    PageOfWrapped(s + r);
    PageOfWrapped(s);
    OffsetInPage(s, r);
  }

  lemma OffsetInPage(s: nat, d: nat)
    requires s % PAGE_SZ == 0 && d < PAGE_SZ
    ensures PageOf(s + d) == PageOf(s) && (s + d) % U64 % PAGE_SZ == d
  {
    DivUnique(s + d, PAGE_SZ, s / PAGE_SZ, d);
    DivTwice(s + d, PAGE_SZ, U64 / PAGE_SZ, U64);
  }
}
