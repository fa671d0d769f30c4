/** The slab allocator: caches of equal objects cut from slabs, with 64-bit shifts and as many bitmap words as there
    are buffers for. */
module Slab {
  import opened BuddyMap
  import opened BuddyWords
  import opened PhysOrder
  import opened Words

  const MAX_REFERENCES: nat := 0xFFFF // `references` has 16 bits

  class KSlab {
    const virt: nat
    const size: nat
    const bufferCount: nat
    var references: nat
    var bitmap: seq<seq<bool>>
    var next: KSlab?
    var prev: KSlab?
    ghost var bits: seq<bool>

    /** `references` is the number of set bits among the first `bufferCount`, and fits its field. */
    ghost predicate Valid()
      reads this
    {
      Holds(Order(bufferCount, references, bitmap), bits) && bufferCount <= MAX_REFERENCES
    }

    /** carveSlab. */
    constructor (objSize: nat, addr: nat, slabsz: nat)
      requires objSize > 0 && slabsz / objSize <= MAX_REFERENCES
      ensures Valid() && bits == seq(bufferCount, _ => false) && next == null && prev == null
      ensures virt == addr && size == slabsz && bufferCount == slabsz / objSize
    {
      virt, size, next, prev := addr, slabsz, null, null;
      var n := slabsz / objSize;
      bufferCount, references := n, 0;
      bitmap := seq((n + 63) / 64, _ => seq(64, _ => false));
      bits := seq(n, _ => false);
      CountNone(n);
    }

    /** allocateBuffer: the first free buffer. It fails only on a full slab: with room left, a free bit is found. */
    method AllocateBuffer(objSize: nat) returns (ok: bool, ptr: nat, ghost n: nat)
      requires Valid()
      modifies this`references, this`bitmap, this`bits
      ensures Valid() && (ok <==> old(references) < bufferCount)
      ensures !ok ==> Full(old(bits)) && bits == old(bits) && ptr == 0
      ensures ok ==> n < |bits| && !old(bits)[n] && (forall j :: 0 <= j < n ==> old(bits)[j])
      ensures ok ==> bits == old(bits)[n := true] && ptr == virt + n * objSize && references == old(references) + 1
    {
      CountAll(bits);
      ok, ptr, n := false, 0, 0;
      if bufferCount == references { return; }
      var found, i, b;
      found, i, b := FindFree();
      if !found { return; }
      ok, n := true, i * 64 + b;
      ptr := (i * 64 + b) * objSize + virt;
      BitChanged(Order(bufferCount, references, bitmap), bits, i, b, true);
      bitmap := bitmap[i := bitmap[i][b := true]];
      references := references + 1;
      bits := bits[n := true];
    }

    /** The search loop: unless the slab is full it never comes out without a free bit. */
    method FindFree() returns (found: bool, i: nat, b: nat)
      requires Valid()
      ensures found <==> references < bufferCount
      ensures found ==> b < 64 && i * 64 + b < |bits| && !bits[i * 64 + b]
      ensures found ==> forall j :: 0 <= j < i * 64 + b ==> bits[j]
    {
      CountAll(bits);
      ghost var s := bits;
      assert Holds(Order(bufferCount, references, bitmap), s) && bufferCount == |s|;
      assert references < bufferCount <==> !Full(s);
      hide *;
      found, i, b := false, 0, 0;
      var checked: nat := 0;
      while checked < bufferCount
        invariant checked <= bufferCount && !found && b <= 64 && b % 64 == checked % 64
        invariant forall j :: 0 <= j < checked ==> s[j]
        decreases bufferCount - checked
      {
        BitAt(Order(bufferCount, references, bitmap), s, checked, b);
        i := checked / 64;
        checked := checked + 1;
        if b == 64 { b := 0; }
        if bitmap[i][b] {
          b := b + 1;
          continue;
        }
        found := true;
        break;
      }
      NotFull(s, checked, found);
    }
  }

  type Size = n: nat | n > 0 witness 1

  class KCache {
    const objSize: Size
    var slabs: KSlab?
    ghost var list: seq<KSlab>

    ghost predicate Chained(i: nat)
      requires i < |list|
      reads this, list
    {
      && list[i].Valid() && list[i].bufferCount == list[i].size / objSize
      && list[i].next == (if i + 1 < |list| then list[i + 1] else null)
      && list[i].prev == if i > 0 then list[i - 1] else null
    }

    predicate SlabsApart(s: KSlab, t: KSlab) { s != t && Apart(s.virt, s.size, t.virt, t.size) }

    ghost predicate Valid()
      reads this, list
    {
      && slabs == (if list == [] then null else list[0])
      && (forall i :: 0 <= i < |list| ==> Chained(i))
      && (forall i, j :: 0 <= i < j < |list| ==> SlabsApart(list[i], list[j]))
    }

    /** Buffer `n` of a slab has been given out. */
    ghost predicate Taken(s: KSlab, n: nat)
      reads this, list
    {
      s in list && n < |s.bits| && s.bits[n]
    }

    function AddrOf(s: KSlab, n: nat): nat { s.virt + n * objSize }

    /** The slab part of fillCacheDetails. */
    constructor (size: Size)
      ensures Valid() && list == [] && objSize == size
    {
      objSize, slabs, list := size, null, [];
    }

    /** Any two objects that were given out are apart, and each lies inside its slab. */
    lemma ObjectsApart(s: KSlab, n: nat, t: KSlab, m: nat)
      requires Valid() && Taken(s, n) && Taken(t, m)
      ensures s.virt <= AddrOf(s, n) && AddrOf(s, n) + objSize <= s.virt + s.size
      ensures (s == t && n == m) || Apart(AddrOf(s, n), objSize, AddrOf(t, m), objSize)
    {
      var a := Listed(s);
      var b := Listed(t);
      InSlab(n, s.size);
      InSlab(m, t.size);
      if s == t {
        if n != m { SlotsApart(n, m); }
      } else {
        assert SlabsApart(list[if a < b then a else b], list[if a < b then b else a]);
      }
    }

    lemma Listed(s: KSlab) returns (i: nat)
      requires Valid() && s in list
      ensures i < |list| && list[i] == s && |s.bits| == s.size / objSize
    {
      i :| i < |list| && list[i] == s;
      assert Chained(i);
    }

    lemma InSlab(n: nat, size: nat)
      requires n < size / objSize
      ensures n * objSize + objSize <= size
    {
      Times(n + 1, size / objSize);
    }

    lemma SlotsApart(n: nat, m: nat)
      requires n != m
      ensures n * objSize + objSize <= m * objSize || m * objSize + objSize <= n * objSize
    {
      if n < m { Times(n + 1, m); } else { Times(m + 1, n); }
    }

    lemma Times(a: nat, b: nat)
      requires a <= b
      ensures a * objSize <= b * objSize && (a > 0 ==> a * objSize == (a - 1) * objSize + objSize)
    {}

    /** What newSlab gets: memory for ten objects, apart from all slabs. */
    ghost predicate Fits(virt: nat, size: nat)
      reads this, list
    {
      size == ActualSize(10 * objSize) && forall s :: s in list ==> Apart(virt, size, s.virt, s.size)
    }

    /** Slab `i` is the first of the chain that has a free buffer. */
    ghost predicate FirstWithRoom(i: nat)
      reads this, list
    {
      i < |list| && !Full(list[i].bits) && forall j :: 0 <= j < i ==> Full(list[j].bits)
    }

    /** kcacheAlloc; `virt` and `size` are what newSlab got, when it got anything. The object is the first free one of
        the first slab that has one, and a new slab goes to the front only when none has. All objects that were given
        out still are. It fails exactly on full slabs, when there is no memory or an object is too large for a new
        slab. */
    method KcacheAlloc(gotMemory: bool, virt: nat, size: nat)
      returns (ok: bool, ptr: nat, ghost slab: KSlab?, ghost n: nat)
      requires Valid() && (gotMemory ==> Fits(virt, size))
      modifies this, list
      ensures Valid() && fresh(set s | s in list && s !in old(list)) && forall s :: s in old(list) ==> s in list
      ensures ok ==> slab != null && Taken(slab, n) && ptr == AddrOf(slab, n)
      ensures ok && slab in old(list) ==> !old(Taken(slab, n))
      ensures forall s, m {:trigger Taken(s, m)} :: s in old(list) && !(ok && s == slab && m == n) ==>
              Taken(s, m) == old(Taken(s, m))
      ensures !ok ==> (forall s :: s in old(list) ==> Full(s.bits)) && (!gotMemory || objSize > 0x8_0000)
      ensures !ok ==> ptr == 0
      ensures forall i: nat :: old(FirstWithRoom(i)) ==> ok && slab == old(list)[i] && list == old(list)
      ensures ok && slab in old(list) ==> forall m :: 0 <= m < n ==> old(Taken(slab, m))
      ensures (forall i: nat :: !old(FirstWithRoom(i))) ==>
        if !gotMemory then !ok && list == old(list)
        else
          && list != [] && list[1..] == old(list) && list[0].virt == virt && list[0].size == size
          && (ok <==> objSize <= 0x8_0000) && (ok ==> slab == list[0] && n == 0 && ptr == virt)
    {
      var chosen;
      ghost var at;
      chosen, at := Choose();
      if chosen == null {
        if !gotMemory { return false, 0, null, 0; }
        ok, ptr, slab := FromNewSlab(virt, size);
        return ok, ptr, slab, 0;
      }
      slab := chosen;
      ok, ptr, n := Take(chosen);
    }

    /** The rest of kcacheAlloc when no slab has a free buffer and newSlab got memory. */
    method FromNewSlab(virt: nat, size: nat) returns (ok: bool, ptr: nat, ghost slab: KSlab)
      requires Valid() && Fits(virt, size)
      modifies this, list
      ensures Valid() && fresh(slab) && list == [slab] + old(list) && slab.virt == virt && slab.size == size
      ensures forall s :: s in old(list) ==> s.bits == old(s.bits)
      ensures (ok <==> objSize <= 0x8_0000) && (if ok then ptr == AddrOf(slab, 0) == virt else ptr == 0)
      ensures forall m :: 0 <= m < |slab.bits| ==> (slab.bits[m] <==> ok && m == 0)
      ensures ok ==> |slab.bits| > 0
    {
      NewSlabFits(objSize);
      var chosen := new KSlab(objSize, virt, size);
      AddSlab(chosen);
      slab := chosen;
      ghost var n;
      ok, ptr, n := Take(chosen);
    }

    /** The first slab with a free buffer, down the chain. */
    method Choose() returns (chosen: KSlab?, ghost i: nat)
      requires Valid()
      ensures chosen == null ==> forall s :: s in list ==> Full(s.bits)
      ensures chosen != null ==> FirstWithRoom(i) && chosen == list[i] && chosen.references < chosen.bufferCount
    {
      chosen := slabs;
      i := 0;
      while chosen != null
        invariant i <= |list| && chosen == if i < |list| then list[i] else null
        invariant forall j :: 0 <= j < i ==> Full(list[j].bits)
        decreases |list| - i
      {
        assert Chained(i);
        CountAll(chosen.bits);
        if chosen.bufferCount > chosen.references { break; }
        chosen, i := chosen.next, i + 1;
      }
    }

    /** A new slab goes to the front of the chain. */
    method AddSlab(slab: KSlab)
      requires Valid() && slab.Valid() && slab !in list && slab.bufferCount == slab.size / objSize
      requires forall s :: s in list ==> SlabsApart(slab, s)
      requires slab.prev == null
      modifies this`slabs, this`list, slab`next, list`prev
      ensures Valid() && list == [slab] + old(list)
    {
      slab.next := slabs;
      slabs := slab;
      if slab.next != null { slab.next.prev := slab; }
      list := [slab] + list;
      forall i: nat | i < |list|
        ensures Chained(i)
      {
        if i > 0 { assert old(Chained(i - 1)); }
      }
    }

    /** allocateBuffer on a slab of this cache. */
    method Take(chosen: KSlab) returns (ok: bool, ptr: nat, ghost n: nat)
      requires Valid() && chosen in list
      modifies chosen`references, chosen`bitmap, chosen`bits
      ensures Valid() && (ok <==> old(chosen.references) < chosen.bufferCount)
      ensures ok ==> ptr == AddrOf(chosen, n) && n < |old(chosen.bits)| && !old(chosen.bits)[n]
      ensures ok ==> forall m :: 0 <= m < n ==> old(chosen.bits)[m]
      ensures chosen.bits == if ok then old(chosen.bits)[n := true] else old(chosen.bits)
      ensures !ok ==> Full(chosen.bits) && ptr == 0
    {
      ghost var i := Listed(chosen);
      assert Chained(i);
      ok, ptr, n := chosen.AllocateBuffer(objSize);
      forall i: nat | i < |list|
        ensures Chained(i)
      {
        assert old(Chained(i));
      }
    }
  }

  /** A slab made for ten objects holds one exactly when an object is at most 512 KiB, and never so many that
      `references` wraps. */
  lemma NewSlabFits(objSize: nat)
    requires objSize > 0
    ensures ActualSize(10 * objSize) / objSize > 0 <==> objSize <= 0x8_0000
    ensures ActualSize(10 * objSize) / objSize <= MAX_REFERENCES
  {
    OrderTable(10 * objSize);
    assert Pow2(2) == 4 && Pow2(3) == 8 && Pow2(4) == 16 && Pow2(5) == 32 && Pow2(6) == 64;
    assert Pow2(7) == 128 && Pow2(8) == 256 && Pow2(9) == 512 && Pow2(10) == 1024;
    var size := ActualSize(10 * objSize);
    assert size <= 0x4000 * objSize;
    assert objSize <= size <==> objSize <= 0x8_0000;
    Quotient(size, objSize);
  }

  lemma Quotient(size: nat, objSize: nat)
    requires objSize > 0
    ensures size / objSize > 0 <==> objSize <= size
    ensures size <= 0x4000 * objSize ==> size / objSize <= 0x4000
  {
    QuotientIs(size, objSize, size / objSize, size % objSize);
  }

  lemma QuotientIs(size: nat, objSize: nat, q: nat, r: nat)
    requires size == objSize * q + r && r < objSize
    ensures q > 0 <==> objSize <= size
    ensures size <= 0x4000 * objSize ==> q <= 0x4000
  {
    MulGrows(objSize, q);
    MulGrows(objSize, q - 0x4000);
    assert objSize * (q - 0x4000) == objSize * q - 0x4000 * objSize;
  }

  /** A search that has passed only set bits and found no clear one has shown the map full. */
  lemma NotFull(s: seq<bool>, n: nat, found: bool)
    requires if found then 0 < n <= |s| && !s[n - 1] else n == |s| && forall j :: 0 <= j < n ==> s[j]
    ensures found <==> !Full(s)
  {}

  /** The bit that a search at block `n` looks at, where `b` may be one past the end of a word. */
  lemma BitAt(o: Order, s: seq<bool>, n: nat, b: nat)
    requires Holds(o, s) && n < |s| && b <= 64 && b % 64 == n % 64
    ensures var bit := if b == 64 then 0 else b;
      && bit < 64 && n / 64 * 64 + bit == n && (bit + 1) % 64 == (n + 1) % 64
      && n / 64 < |o.entry| && |o.entry[n / 64]| == 64 && o.entry[n / 64][bit] == s[n]
  {
    assert n / 64 < |o.entry| && WordIs(o.entry[n / 64], s, n / 64);
  }
}
