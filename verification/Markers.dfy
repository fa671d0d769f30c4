/** The list of virtual-memory markers of a task and allocMarker. */
module Markers {
  import opened Words
  import opened PageBits

  const VTYPE_HEAP: nat := 1
  const VFLAG_KERNEL: nat := 0x40
  const MIN_ADDR_LOW: nat := 0x10_0000

  datatype Info = Info(base: nat, pages: nat, flags: nat, kind: nat)

  /** VMARKER_END: the product is taken in 32 bits, the sum in 64. */
  function End(m: Info): nat { (m.base + m.pages * PAGE_SZ % U32) % U64 }

  /** The page count of a request: 32 bits of it, and at least one. */
  function PagesOf(bytes: nat): nat {
    var pages := bytes / PAGE_SZ % U32;
    if pages == 0 then 1 else pages
  }

  /** The bytes that `n` pages hold for a request: as many whole pages as fit into it, and one page below that. */
  predicate PagesFor(bytes: nat, n: nat) {
    if bytes < 0x1000 then n == 1 else n * 0x1000 <= bytes < (n + 1) * 0x1000
  }

  /** The division rounds down, and 32 bits hold the count of every request below 2^44 bytes. */
  lemma PagesExact(bytes: nat)
    requires bytes < 0x1000_0000_0000
    ensures PagesFor(bytes, PagesOf(bytes))
  {}

  function PreferredMinAddress(kind: nat, flags: nat, heapEnd: nat): nat {
    if Test(flags, VFLAG_KERNEL) && kind == VTYPE_HEAP then heapEnd else MIN_ADDR_LOW
  }

  /** Kernel heap memory (type 1 with flag 0x40) is looked for behind the heap, all other from 1 MiB on. */
  lemma MinAddressIs(kind: nat, flags: nat, heapEnd: nat)
    ensures PreferredMinAddress(kind, flags, heapEnd) == if kind == 1 && HasBit(flags, 0x40) then heapEnd else 0x10_0000
  {
    RequestBits(flags);
  }

  /** The hole after marker `i` is taken: a marker above `minAddr` followed by one that is not. */
  predicate IsGap(ms: seq<Info>, i: nat, minAddr: nat, sz: nat) {
    && i + 1 < |ms|
    && ms[i + 1].base <= minAddr < ms[i].base
    && (ms[i + 1].base - End(ms[i])) % U64 >= sz
  }

  /** The first gap from marker `i` on, or |ms| without one. */
  function FirstGap(ms: seq<Info>, i: nat, minAddr: nat, sz: nat): nat
    requires i <= |ms|
    decreases |ms| - i
  {
    if i == |ms| || IsGap(ms, i, minAddr, sz) then i else FirstGap(ms, i + 1, minAddr, sz)
  }

  lemma {:induction false} FirstGapInRange(ms: seq<Info>, i: nat, minAddr: nat, sz: nat)
    requires i <= |ms|
    ensures i <= FirstGap(ms, i, minAddr, sz) <= |ms|
    ensures FirstGap(ms, i, minAddr, sz) < |ms| ==> IsGap(ms, FirstGap(ms, i, minAddr, sz), minAddr, sz)
    decreases |ms| - i
  {
    if i < |ms| && !IsGap(ms, i, minAddr, sz) { FirstGapInRange(ms, i + 1, minAddr, sz); }
  }

  /** Where the new marker goes. */
  function Position(ms: seq<Info>, pages: nat, minAddr: nat): nat {
    var g := FirstGap(ms, 0, minAddr, pages * PAGE_SZ % U32);
    if g >= |ms| then |ms| else g + 1
  }

  /** The new marker: right after the last one, or a page after the one before the gap. */
  function NewMarker(ms: seq<Info>, pages: nat, flags: nat, kind: nat, minAddr: nat): Info
    requires ms != []
  {
    var at := Position(ms, pages, minAddr);
    var base :=
      if at == |ms| then End(ms[|ms| - 1])
      else if 0 < at <= |ms| then (End(ms[at - 1]) + PAGE_SZ) % U64
      else 0;
    Info(base, pages, flags, kind)
  }

  /** In a list with ascending bases the gap test never succeeds: it wants the later marker to be the lower
      one. So every marker is appended. */
  lemma AscendingAppends(ms: seq<Info>, pages: nat, minAddr: nat)
    requires forall i :: 0 <= i < |ms| - 1 ==> ms[i].base <= ms[i + 1].base
    ensures Position(ms, pages, minAddr) == |ms|
  {
    FirstGapInRange(ms, 0, minAddr, pages * PAGE_SZ % U32);
  }

  class Marker {
    var info: Info
    var next: Marker?

    constructor (i: Info, n: Marker?)
      ensures info == i && next == n
    {
      info, next := i, n;
    }
  }

  class MarkerList {
    const head: Marker
    ghost var nodes: seq<Marker>
    ghost var infos: seq<Info>
    ghost var repr: set<object>

    ghost predicate Valid()
      reads this, repr
    {
      && this in repr && (forall n :: n in nodes ==> n in repr)
      && |nodes| == |infos| > 0 && nodes[0] == head
      && (forall i :: 0 <= i < |nodes| ==> nodes[i].info == infos[i])
      && (forall i {:trigger nodes[i].next} :: 0 <= i < |nodes| - 1 ==> nodes[i].next == nodes[i + 1])
      && nodes[|nodes| - 1].next == null
      && (forall i, j :: 0 <= i < j < |nodes| ==> nodes[i] != nodes[j])
    }

    /** createFakeTask: one marker over page 0. */
    constructor ()
      ensures Valid() && infos == [Info(0, 1, 0, 0)] && fresh(repr)
    {
      var first := new Marker(Info(0, 1, 0, 0), null);
      head := first;
      nodes := [first];
      infos := [first.info];
      repr := {this, first};
    }

    /** The search loop: the marker before the first gap, or none, and the last marker looked at. */
    method FindSpot(sz: nat, minAddr: nat) returns (cur: Marker?, end: Marker, ghost i: nat)
      requires Valid()
      ensures i < |nodes| && end == nodes[i] && (cur == null || cur == end)
      ensures FirstGap(infos, 0, minAddr, sz) == if cur == null then |infos| else i
      ensures cur == null ==> i == |nodes| - 1
    {
      cur, end, i := head, head, 0;
      while cur != null
        invariant i < |nodes| && end == nodes[i] && (cur == null || cur == end) && (cur == null ==> i == |nodes| - 1)
        invariant FirstGap(infos, 0, minAddr, sz) == FirstGap(infos, if cur == null then |infos| else i, minAddr, sz)
        decreases |nodes| - i, cur
      {
        var n := cur.next;
        if n == null {
          cur := null;
          break;
        }
        if n.info.base <= minAddr < cur.info.base && (n.info.base - End(cur.info)) % U64 >= sz { break; }
        cur, end := n, n;
        i := i + 1;
      }
    }

    /** Links a new node behind node `i`. */
    method InsertAfter(at: Marker, ghost i: nat, info: Info)
      requires Valid() && i < |nodes| && at == nodes[i]
      modifies this, at
      ensures Valid() && fresh(repr - old(repr))
      ensures infos == old(infos)[..i + 1] + [info] + old(infos)[i + 1..]
    {
      var node := new Marker(info, at.next);
      at.next := node;
      repr := repr + {node};
      ghost var was := nodes;
      nodes := nodes[..i + 1] + [node] + nodes[i + 1..];
      forall j {:trigger nodes[j].next} | 0 <= j < |nodes| - 1
        ensures nodes[j].next == nodes[j + 1]
      {
        if j < i {
          assert nodes[j] == was[j] && old(was[j].next) == was[j + 1];
        } else if j == i + 1 {
          assert old(was[i].next) == was[i + 1];
        } else if j > i + 1 {
          assert nodes[j] == was[j - 1] && old(was[j - 1].next) == was[j];
        }
      }
      infos := infos[..i + 1] + [info] + infos[i + 1..];
    }

    method AllocMarker(bytes: nat, kind: nat, flags: nat, heapEnd: nat) returns (marker: Info)
      requires Valid()
      modifies repr
      ensures Valid() && fresh(repr - old(repr))
      ensures var minAddr := PreferredMinAddress(kind, flags, heapEnd);
        var at := Position(old(infos), PagesOf(bytes), minAddr);
        && marker == NewMarker(old(infos), PagesOf(bytes), flags, kind, minAddr)
        && at <= |old(infos)| && infos == old(infos)[..at] + [marker] + old(infos)[at..]
    {
      var pages := PagesOf(bytes);
      var sz := pages * PAGE_SZ % U32;
      var minAddr := PreferredMinAddress(kind, flags, heapEnd);
      FirstGapInRange(infos, 0, minAddr, sz);
      var cur, end, i := FindSpot(sz, minAddr);
      var base;
      if cur == null {
        base := End(end.info);
      } else {
        base := (End(cur.info) + PAGE_SZ) % U64;
      }
      marker := Info(base, pages, flags, kind);
      assert i + 1 == Position(infos, pages, minAddr);
      assert marker == NewMarker(infos, pages, flags, kind, minAddr);
      InsertAfter(end, i, marker);
    }
  }
}
