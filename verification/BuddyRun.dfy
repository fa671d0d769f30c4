/** Whole runs of the buddy allocator on one region: what any sequence of calls hands out, keeps and gives back. */
module BuddyRun {
  import opened Buddy
  import opened BuddyMap
  import opened BuddyWords
  import opened PageBits
  import opened PhysOrder
  import opened Words

  // ---- What the calls mean -----------------------------------------------------------------------------------

  /** Minimum blocks `lo` up to `hi`, as some caller was given them. */
  datatype Extent = Extent(lo: nat, hi: nat)

  /** A call of allocRegion, of freeNPhys for the whole of a block that is still in use, or of allocPhysAddress. */
  datatype Call = Allocate(order: nat) | Release(i: nat) | Hold(addr: nat, bytes: nat)

  /** Which minimum blocks are marked, and the blocks in use, oldest first. */
  datatype State = State(marked: seq<bool>, live: seq<Extent>)

  /** A call on a region of `blocks` minimum blocks from `base` on. */
  predicate Inside(call: Call, base: nat, blocks: nat) {
    match call
    case Allocate(order) => order < MAXORDER
    case Release(_) => true
    case Hold(addr, bytes) => base <= addr && (addr - base) / ORDER_MIN_BLOCK_SIZE + BlocksFor(bytes) <= blocks
  }

  /** No minimum block of block `n` of order `k` is marked. */
  predicate BlockFree(s: seq<bool>, k: nat, n: nat) {
    forall x :: Pow2(k) * n <= x < Pow2(k) * (n + 1) && x < |s| ==> !s[x]
  }

  /** The first free block of order `k` from block `from` on; the number of its blocks when there is none. */
  function LowestFree(s: seq<bool>, k: nat, from: nat): nat
    decreases Up(|s|, k) - from
  {
    if from >= Up(|s|, k) || BlockFree(s, k, from) then from else LowestFree(s, k, from + 1)
  }

  function BlockExtent(k: nat, n: nat): Extent { Extent(Pow2(k) * n, Pow2(k) * (n + 1)) }

  function Next(st: State, base: nat, call: Call): State {
    match call
    case Allocate(order) =>
      var n := LowestFree(st.marked, order, 0);
      var e := BlockExtent(order, n);
      if n < Up(|st.marked|, order) then State(SetRange(st.marked, e.lo, e.hi), st.live + [e]) else st
    case Release(i) =>
      if i >= |st.live| then st
      else State(ClearRange(st.marked, st.live[i].lo, st.live[i].hi), st.live[..i] + st.live[i + 1..])
    case Hold(addr, bytes) =>
      if addr < base then st
      else
        var a := (addr - base) / ORDER_MIN_BLOCK_SIZE;
        State(SetRange(st.marked, a, a + BlocksFor(bytes)), st.live)
  }

  /** What a call returns. */
  function Answer(st: State, base: nat, call: Call): nat {
    match call
    case Allocate(order) =>
      var n := LowestFree(st.marked, order, 0);
      if n < Up(|st.marked|, order) then base + Pow2(order) * n * ORDER_MIN_BLOCK_SIZE else MEMORY_ALLOCATION_FAILED
    case _ => 0
  }

  function StateAfter(start: State, base: nat, calls: seq<Call>): State {
    if calls == [] then start
    else Next(StateAfter(start, base, calls[..|calls| - 1]), base, calls[|calls| - 1])
  }

  function Answers(start: State, base: nat, calls: seq<Call>): seq<nat> {
    if calls == [] then []
    else
      var before := calls[..|calls| - 1];
      Answers(start, base, before) + [Answer(StateAfter(start, base, before), base, calls[|calls| - 1])]
  }

  // ---- One call ------------------------------------------------------------------------------------------------

  predicate Taken(s: seq<bool>, e: Extent) { e.lo < e.hi <= |s| && forall x :: e.lo <= x < e.hi ==> s[x] }

  predicate Clear(s: seq<bool>, e: Extent) { e.lo < e.hi <= |s| && forall x :: e.lo <= x < e.hi ==> !s[x] }

  predicate ExtentsApart(a: Extent, b: Extent) { a.hi <= b.lo || b.hi <= a.lo }

  /** All blocks in use are marked, no two of them overlap, and none is too long for freeNPhys. */
  ghost predicate Sound(st: State) {
    && (forall i :: 0 <= i < |st.live| ==> Taken(st.marked, st.live[i]) && st.live[i].hi - st.live[i].lo <= PIECES)
    && (forall i, j :: 0 <= i < j < |st.live| ==> ExtentsApart(st.live[i], st.live[j]))
  }

  predicate InUse(live: seq<Extent>, x: nat) { exists i :: 0 <= i < |live| && live[i].lo <= x < live[i].hi }

  /** A minimum block that is marked and that no caller was given: allocation passes it by and nothing releases it. */
  predicate Reserved(st: State, x: nat) { x < |st.marked| && st.marked[x] && !InUse(st.live, x) }

  /** The call reserves minimum block `x`. */
  predicate HeldBy(call: Call, base: nat, x: nat) {
    call.Hold? && base <= call.addr
    && (var a := (call.addr - base) / ORDER_MIN_BLOCK_SIZE; a <= x < a + BlocksFor(call.bytes))
  }

  lemma {:induction false} LowestFreeMeans(s: seq<bool>, k: nat, from: nat)
    requires from <= Up(|s|, k)
    ensures var n := LowestFree(s, k, from);
      && from <= n <= Up(|s|, k) && (n < Up(|s|, k) ==> BlockFree(s, k, n))
      && forall p: nat :: from <= p < n ==> !BlockFree(s, k, p)
    decreases Up(|s|, k) - from
  {
    if from < Up(|s|, k) && !BlockFree(s, k, from) { LowestFreeMeans(s, k, from + 1); }
  }

  /** An allocation succeeds exactly when the region has a block of the order without an allocated part. It then hands
      out the lowest one, which has the size and the alignment of the order, and the address says which. */
  lemma AllocationMeans(st: State, base: nat, k: nat)
    requires k < MAXORDER && base % PAGE_SZ == 0
    ensures var t, ptr := Next(st, base, Allocate(k)), Answer(st, base, Allocate(k));
      if exists n: nat :: n < Up(|st.marked|, k) && BlockFree(st.marked, k, n) then
        && |t.live| == |st.live| + 1 && t.live[..|st.live|] == st.live
        && ptr != MEMORY_ALLOCATION_FAILED && ptr == base + t.live[|st.live|].lo * ORDER_MIN_BLOCK_SIZE
        && HandedOut(st.marked, t, t.live[|st.live|], k)
      else t == st && ptr == MEMORY_ALLOCATION_FAILED
  {
    hide *;
    LowestFreeMeans(st.marked, k, 0);
    var n := LowestFree(st.marked, k, 0);
    if n < Up(|st.marked|, k) {
      Allocated(st, base, k, n);
      assert BlockFree(st.marked, k, n);
    } else {
      NotAllocated(st, base, k);
    }
  }

  lemma Allocated(st: State, base: nat, k: nat, n: nat)
    requires k < MAXORDER && base % PAGE_SZ == 0 && n == LowestFree(st.marked, k, 0) < Up(|st.marked|, k)
    requires BlockFree(st.marked, k, n) && forall p: nat :: 0 <= p < n ==> !BlockFree(st.marked, k, p)
    ensures var t, ptr, e := Next(st, base, Allocate(k)), Answer(st, base, Allocate(k)), BlockExtent(k, n);
      && t.live == st.live + [e] && ptr != MEMORY_ALLOCATION_FAILED && ptr == base + e.lo * ORDER_MIN_BLOCK_SIZE
      && HandedOut(st.marked, t, e, k)
  {
    hide *;
    FreeExtent(st.marked, k, n);
    NextAllocated(st, base, k, n);
    AddressAligned(base, Pow2(k) * n, Answer(st, base, Allocate(k)));
  }

  lemma NextAllocated(st: State, base: nat, k: nat, n: nat)
    requires n == LowestFree(st.marked, k, 0) < Up(|st.marked|, k)
    requires Clear(st.marked, BlockExtent(k, n)) && BlockExtent(k, n).hi - BlockExtent(k, n).lo == Pow2(k)
    requires forall p: nat :: 0 <= p < n ==> !BlockFree(st.marked, k, p)
    ensures var t, e := Next(st, base, Allocate(k)), BlockExtent(k, n);
      && t.live == st.live + [e] && HandedOut(st.marked, t, e, k)
      && Answer(st, base, Allocate(k)) == base + Pow2(k) * n * ORDER_MIN_BLOCK_SIZE && e.lo == Pow2(k) * n
  {
    hide Clear, BlockFree, LowestFree, Up, Pow2;
  }

  lemma NotAllocated(st: State, base: nat, k: nat)
    requires LowestFree(st.marked, k, 0) >= Up(|st.marked|, k)
    ensures Next(st, base, Allocate(k)) == st && Answer(st, base, Allocate(k)) == MEMORY_ALLOCATION_FAILED
  {}

  /** Block `e` was free, is the lowest of its order that was, and is all that was marked. */
  ghost predicate HandedOut(s: seq<bool>, t: State, e: Extent, k: nat) {
    && Clear(s, e) && e.hi - e.lo == Pow2(k) && t.marked == SetRange(s, e.lo, e.hi)
    && exists n: nat :: e == BlockExtent(k, n) && forall p: nat :: p < n ==> !BlockFree(s, k, p)
  }

  lemma FreeExtent(s: seq<bool>, k: nat, n: nat)
    requires n < Up(|s|, k) && BlockFree(s, k, n) && k < MAXORDER
    ensures Clear(s, BlockExtent(k, n)) && BlockExtent(k, n).hi - BlockExtent(k, n).lo == Pow2(k) <= PIECES
  {
    UpRange(|s|, k, Up(|s|, k));
    BlockSize(k, n);
    MulMonotone(Pow2(k), n + 1, Up(|s|, k));
  }

  lemma MulMonotone(a: nat, b: nat, c: nat)
    requires b <= c
    ensures a * b <= a * c
  {}

  lemma BlockSize(k: nat, n: nat)
    requires k < MAXORDER
    ensures Pow2(k) * (n + 1) - Pow2(k) * n == Pow2(k) && 0 < Pow2(k) <= PIECES
  {
    assert Pow2(k) * (n + 1) == Pow2(k) * n + Pow2(k);
    PowGrows(k, MAXORDER);
    assert Pow2(MAXORDER) == 32 * Pow2(5) && Pow2(5) == 32;
  }

  lemma {:induction false} PowGrows(k: nat, j: nat)
    requires k <= j
    ensures 0 < Pow2(k) <= Pow2(j)
    decreases j
  {
    if k < j { PowGrows(k, j - 1); } else if k > 0 { PowGrows(k - 1, k - 1); }
  }

  /** Every call keeps blocks in use marked and apart, and changes what is reserved only if it reserves: what it holds
      and no caller has becomes reserved. */
  lemma NextKeeps(st: State, base: nat, call: Call)
    requires Sound(st) && (call.Allocate? ==> call.order < MAXORDER)
    ensures Sound(Next(st, base, call)) && |Next(st, base, call).marked| == |st.marked|
    ensures forall x: nat :: x < |st.marked| ==>
              (Reserved(Next(st, base, call), x) <==> Reserved(st, x) || (HeldBy(call, base, x) && !InUse(st.live, x)))
  {
    match call
    case Allocate(k) =>
      var n := LowestFree(st.marked, k, 0);
      LowestFreeMeans(st.marked, k, 0);
      if n < Up(|st.marked|, k) {
        FreeExtent(st.marked, k, n);
        AllocateKeeps(st, BlockExtent(k, n));
      }
    case Release(i) => if i < |st.live| { ReleaseKeeps(st, i); }
    case Hold(addr, bytes) =>
      if base <= addr { HoldKeeps(st, (addr - base) / ORDER_MIN_BLOCK_SIZE, BlocksFor(bytes)); }
  }

  lemma AllocateKeeps(st: State, e: Extent)
    requires Sound(st) && Clear(st.marked, e) && e.hi - e.lo <= PIECES
    ensures var t := State(SetRange(st.marked, e.lo, e.hi), st.live + [e]);
      Sound(t) && forall x: nat :: x < |st.marked| ==> (Reserved(t, x) <==> Reserved(st, x))
  {
    var t := State(SetRange(st.marked, e.lo, e.hi), st.live + [e]);
    forall i: nat | i < |st.live|
      ensures Taken(t.marked, st.live[i]) && ExtentsApart(st.live[i], e)
    {
      TakenStays(st.marked, st.live[i], e);
    }
    forall x: nat | x < |st.marked|
      ensures Reserved(t, x) <==> Reserved(st, x)
    {
      InUseMore(st.live, e, x);
    }
  }

  lemma InUseMore(live: seq<Extent>, e: Extent, x: nat)
    ensures InUse(live + [e], x) <==> InUse(live, x) || e.lo <= x < e.hi
  {
    assert (live + [e])[|live|] == e;
    if InUse(live, x) {
      var i :| 0 <= i < |live| && live[i].lo <= x < live[i].hi;
      assert (live + [e])[i] == live[i];
    }
  }

  lemma TakenStays(s: seq<bool>, a: Extent, e: Extent)
    requires Taken(s, a) && Clear(s, e)
    ensures Taken(SetRange(s, e.lo, e.hi), a) && ExtentsApart(a, e)
  {
    var x := if e.lo >= a.lo then e.lo else a.lo;
    assert x < a.hi ==> s[x];
    assert x < e.hi ==> !s[x];
  }

  lemma ReleaseKeeps(st: State, f: nat)
    requires Sound(st) && f < |st.live|
    ensures var t := State(ClearRange(st.marked, st.live[f].lo, st.live[f].hi), st.live[..f] + st.live[f + 1..]);
      Sound(t) && forall x: nat :: x < |st.marked| ==> (Reserved(t, x) <==> Reserved(st, x))
  {
    var rest := st.live[..f] + st.live[f + 1..];
    var t := State(ClearRange(st.marked, st.live[f].lo, st.live[f].hi), rest);
    forall i: nat | i < |rest|
      ensures rest[i] == st.live[if i < f then i else i + 1]
    {}
    assert forall i :: 0 <= i < |st.live| ==> Taken(st.marked, st.live[i]);
    forall x: nat | x < |st.marked|
      ensures Reserved(t, x) <==> Reserved(st, x)
    {
      InUseLess(st.live, f, x);
    }
  }

  lemma InUseLess(live: seq<Extent>, f: nat, x: nat)
    requires f < |live|
    ensures InUse(live, x) <==> InUse(live[..f] + live[f + 1..], x) || live[f].lo <= x < live[f].hi
  {
    var rest := live[..f] + live[f + 1..];
    if InUse(live, x) {
      var i :| 0 <= i < |live| && live[i].lo <= x < live[i].hi;
      if i != f { assert rest[if i < f then i else i - 1] == live[i]; }
    }
    if InUse(rest, x) {
      var i :| 0 <= i < |rest| && rest[i].lo <= x < rest[i].hi;
      assert rest[i] == live[if i < f then i else i + 1];
    }
  }

  lemma HoldKeeps(st: State, a: nat, n: nat)
    requires Sound(st)
    ensures var t := State(SetRange(st.marked, a, a + n), st.live);
      && Sound(t)
      && forall x: nat :: x < |st.marked| ==>
           (Reserved(t, x) <==> Reserved(st, x) || (a <= x < a + n && !InUse(st.live, x)))
  {
    assert forall i :: 0 <= i < |st.live| ==> Taken(st.marked, st.live[i]);
  }

  // ---- Whole runs ------------------------------------------------------------------------------------------------

  ghost predicate AllInside(calls: seq<Call>, base: nat, blocks: nat) {
    forall i :: 0 <= i < |calls| ==> Inside(calls[i], base, blocks)
  }

  /** One of the calls held minimum block `x` while no caller had it. */
  ghost predicate ReservedBy(start: State, base: nat, calls: seq<Call>, x: nat) {
    exists i: nat :: i < |calls| && HeldBy(calls[i], base, x) && !InUse(StateAfter(start, base, calls[..i]).live, x)
  }

  /** After any calls the blocks in use are marked and disjoint, and a minimum block is marked exactly when it is in
      use, was reserved at the start, or was held by a call while no caller had it. Nothing else is lost. */
  lemma {:induction false} RunAccounts(start: State, base: nat, calls: seq<Call>, x: nat)
    requires Sound(start) && AllInside(calls, base, |start.marked|) && x < |start.marked|
    ensures var st := StateAfter(start, base, calls);
      && Sound(st) && |st.marked| == |start.marked|
      && (Reserved(st, x) <==> Reserved(start, x) || ReservedBy(start, base, calls, x))
      && (st.marked[x] <==> InUse(st.live, x) || Reserved(start, x) || ReservedBy(start, base, calls, x))
    decreases |calls|
  {
    if calls != [] {
      var init, call := calls[..|calls| - 1], calls[|calls| - 1];
      RunAccounts(start, base, init, x);
      NextKeeps(StateAfter(start, base, init), base, call);
      ReservedByMore(start, base, init, call, x);
      assert calls == init + [call];
    }
    InUseMarked(StateAfter(start, base, calls), x);
  }

  lemma InUseMarked(st: State, x: nat)
    requires Sound(st)
    ensures InUse(st.live, x) ==> x < |st.marked| && st.marked[x]
  {
    if InUse(st.live, x) {
      var i :| 0 <= i < |st.live| && st.live[i].lo <= x < st.live[i].hi;
      assert Taken(st.marked, st.live[i]);
    }
  }

  lemma ReservedByMore(start: State, base: nat, init: seq<Call>, call: Call, x: nat)
    ensures ReservedBy(start, base, init + [call], x) <==>
            ReservedBy(start, base, init, x) || (HeldBy(call, base, x) && !InUse(StateAfter(start, base, init).live, x))
  {
    var calls := init + [call];
    assert calls[..|init|] == init && calls[|init|] == call;
    assert forall i: nat :: i < |init| ==> calls[..i] == init[..i] && calls[i] == init[i];
  }

  /** Block `x` stays marked, and no caller is given it, whatever calls follow. */
  ghost predicate StaysReserved(st: State, base: nat, x: nat) {
    forall later: seq<Call> :: AllInside(later, base, |st.marked|) ==> Reserved(StateAfter(st, base, later), x)
  }

  /** A reservation lasts through whatever calls follow exactly when no caller had the block when it was made; otherwise
      it is gone once that caller releases the block. */
  lemma ReservationLasts(st: State, base: nat, call: Call, x: nat)
    requires Sound(st) && HeldBy(call, base, x) && x < |st.marked|
    ensures StaysReserved(Next(st, base, call), base, x) <==> !InUse(st.live, x)
  {
    var t := Next(st, base, call);
    NextKeeps(st, base, call);
    assert StateAfter(t, base, []) == t;
    if !InUse(st.live, x) {
      forall later: seq<Call> | AllInside(later, base, |t.marked|)
        ensures Reserved(StateAfter(t, base, later), x)
      {
        RunAccounts(t, base, later, x);
      }
    } else {
      assert AllInside([], base, |t.marked|) && !Reserved(t, x);
    }
  }

  /** Once no block is in use any more, exactly what was reserved is marked: with no reservation, what the region
      started with. */
  lemma NothingLeaks(start: State, base: nat, calls: seq<Call>)
    requires Sound(start) && AllInside(calls, base, |start.marked|) && start.live == []
    requires StateAfter(start, base, calls).live == [] && forall i :: 0 <= i < |calls| ==> !calls[i].Hold?
    ensures StateAfter(start, base, calls).marked == start.marked
  {
    var st := StateAfter(start, base, calls);
    RunLength(start, base, calls);
    forall x: nat | x < |start.marked|
      ensures st.marked[x] == start.marked[x]
    {
      RunAccounts(start, base, calls, x);
      assert !InUse(st.live, x) && !InUse(start.live, x) && !ReservedBy(start, base, calls, x);
    }
  }

  lemma {:induction false} RunLength(start: State, base: nat, calls: seq<Call>)
    ensures |StateAfter(start, base, calls).marked| == |start.marked|
    decreases |calls|
  {
    if calls != [] { RunLength(start, base, calls[..|calls| - 1]); }
  }

  /** Which call an answer belongs to. */
  lemma {:induction false} AnswersAt(start: State, base: nat, calls: seq<Call>, i: nat)
    requires i < |calls|
    ensures |Answers(start, base, calls)| == |calls|
    ensures Answers(start, base, calls)[i] == Answer(StateAfter(start, base, calls[..i]), base, calls[i])
    decreases |calls|
  {
    var init := calls[..|calls| - 1];
    if i < |init| {
      AnswersAt(start, base, init, i);
      assert init[..i] == calls[..i];
    } else if init != [] {
      AnswersAt(start, base, init, 0);
    }
  }

  // ---- The code --------------------------------------------------------------------------------------------------

  /** The state of a region of which `live` is in use. */
  ghost predicate Shows(region: Region, live: seq<Extent>, st: State)
    reads region
  {
    region.Valid() && region.Complete() && region.Leaves() == st.marked && live == st.live && Sound(st)
  }

  /** Maps and orders of a region as they are between two calls. */
  ghost predicate Stands(maps: seq<seq<bool>>, orders: seq<Order>) {
    Summary(maps) && |orders| == |maps| && forall k :: 0 <= k < |maps| ==> Holds(orders[k], maps[k])
  }

  /** Which blocks of an order are free, by the marks of the minimum blocks. */
  lemma OccupiedIs(m: seq<seq<bool>>, k: nat, p: nat)
    requires Summary(m) && k < |m| && p < |m[k]|
    ensures Occupied(m, k, p) <==> !BlockFree(m[0], k, p)
  {
    forall x: nat | x < |m[0]|
      ensures Up(x, k) == p <==> Pow2(k) * p <= x < Pow2(k) * (p + 1)
    {
      UpRange(x, k, p);
    }
  }

  lemma {:induction false} LowestIs(s: seq<bool>, k: nat, from: nat, n: nat)
    requires from <= n <= Up(|s|, k) && (n < Up(|s|, k) ==> BlockFree(s, k, n))
    requires forall p: nat :: from <= p < n ==> !BlockFree(s, k, p)
    ensures LowestFree(s, k, from) == n
    decreases n - from
  {
    if from < n { LowestIs(s, k, from + 1, n); }
  }

  lemma FoundIs(m: seq<seq<bool>>, k: nat, n: nat)
    requires Summary(m) && k < |m| && n < |m[k]|
    requires !Occupied(m, k, n) && forall p :: 0 <= p < n ==> Occupied(m, k, p)
    ensures LowestFree(m[0], k, 0) == n < Up(|m[0]|, k)
    ensures Marked(m, k, n)[0] == SetRange(m[0], BlockExtent(k, n).lo, BlockExtent(k, n).hi)
  {
    RowLength(m, k);
    OccupiedIs(m, k, n);
    forall p: nat | p < n
      ensures !BlockFree(m[0], k, p)
    {
      OccupiedIs(m, k, p);
    }
    LowestIs(m[0], k, 0, n);
    MarkedRange(m[0], k, n, 0);
    assert Marked(m, k, n)[0] == MarkedRow(m[0], k, n, 0);
  }

  lemma NoneIs(region: Region, k: nat)
    requires region.Valid() && region.Complete() && k < MAXORDER
    requires k >= |region.maps| || forall p :: 0 <= p < |region.maps[k]| ==> Occupied(region.maps, k, p)
    ensures LowestFree(region.Leaves(), k, 0) == Up(|region.Leaves()|, k)
  {
    var m := region.maps;
    if k < |m| {
      RowLength(m, k);
      forall p: nat | p < |m[k]|
        ensures !BlockFree(m[0], k, p)
      {
        OccupiedIs(m, k, p);
      }
    }
    LowestIs(region.Leaves(), k, 0, Up(|region.Leaves()|, k));
  }

  /** allocRegion, by the marks of the minimum blocks. */
  method RunAllocate(region: Region, order: nat, live: seq<Extent>, ghost st: State)
    returns (ptr: nat, live': seq<Extent>)
    requires Shows(region, live, st) && order < MAXORDER
    modifies region
    ensures Shows(region, live', Next(st, region.base, Allocate(order))) && |region.maps| == |old(region.maps)|
    ensures ptr == Answer(st, region.base, Allocate(order))
  {
    hide *;
    ShowsMeans(region, live, st);
    ghost var m := region.maps;
    ghost var n: nat;
    ptr, n := region.AllocRegion(order);
    live' := live;
    if ptr == MEMORY_ALLOCATION_FAILED {
      NothingFound(region, order, live, st);
      return ptr, live;
    }
    var lo := BlockNumber(region, ptr, order, n);
    live' := live + [Extent(lo, lo + Pow2(order))];
    Found(region, m, order, n, live, st);
  }

  /** Which minimum block an address is. */
  method BlockNumber(region: Region, ptr: nat, order: nat, ghost n: nat) returns (lo: nat)
    requires ptr == region.base + Pow2(order) * n * ORDER_MIN_BLOCK_SIZE
    ensures Extent(lo, lo + Pow2(order)) == BlockExtent(order, n)
  {
    lo := (ptr - region.base) / ORDER_MIN_BLOCK_SIZE;
    DivUnique(ptr - region.base, ORDER_MIN_BLOCK_SIZE, Pow2(order) * n, 0);
    assert Pow2(order) * (n + 1) == Pow2(order) * n + Pow2(order);
  }

  lemma ShowsMeans(region: Region, live: seq<Extent>, st: State)
    requires Shows(region, live, st)
    ensures region.Valid() && region.Complete() && region.Leaves() == st.marked && live == st.live && Sound(st)
    ensures region.base % PAGE_SZ == 0 && Summary(region.maps) && CompleteFor(|region.maps|, |st.marked|)
    ensures Stands(region.maps, region.orders)
    ensures if region.maps == [] then st.marked == [] else region.maps[0] == st.marked
  {}

  lemma NothingFound(region: Region, order: nat, live: seq<Extent>, st: State)
    requires region.Valid() && Sound(st) && CompleteFor(|region.maps|, |st.marked|) && live == st.live
    requires order < MAXORDER
    requires if region.maps == [] then st.marked == [] else region.maps[0] == st.marked
    requires order >= |region.maps| || forall p :: 0 <= p < |region.maps[order]| ==> Occupied(region.maps, order, p)
    ensures Shows(region, live, Next(st, region.base, Allocate(order)))
    ensures Answer(st, region.base, Allocate(order)) == MEMORY_ALLOCATION_FAILED
  {
    NoneIs(region, order);
  }

  lemma Found(region: Region, m: seq<seq<bool>>, order: nat, n: nat, live: seq<Extent>, st: State)
    requires Summary(m) && order < |m| && n < |m[order]| && st.marked == m[0] && live == st.live && Sound(st)
    requires !Occupied(m, order, n) && forall p :: 0 <= p < n ==> Occupied(m, order, p)
    requires CompleteFor(|m|, |m[0]|)
    requires region.Valid() && region.maps == Marked(m, order, n)
    ensures Shows(region, live + [BlockExtent(order, n)], Next(st, region.base, Allocate(order)))
    ensures Answer(st, region.base, Allocate(order)) == region.base + Pow2(order) * n * ORDER_MIN_BLOCK_SIZE
    ensures |region.maps| == |m|
  {
    FoundIs(m, order, n);
    NextKeeps(st, region.base, Allocate(order));
    assert region.Leaves() == region.maps[0] == Marked(m, order, n)[0];
  }

  method RunRelease(region: Region, i: nat, live: seq<Extent>, ghost st: State) returns (live': seq<Extent>)
    requires Shows(region, live, st)
    modifies region
    ensures Shows(region, live', Next(st, region.base, Release(i))) && |region.maps| == |old(region.maps)|
  {
    ShowsMeans(region, live, st);
    NextKeeps(st, region.base, Release(i));
    if i >= |live| { return live; }
    hide *;
    var e := live[i];
    CanRelease(region, st, i);
    region.FreeNPhys(region.base + e.lo * ORDER_MIN_BLOCK_SIZE, (e.hi - e.lo) * ORDER_MIN_BLOCK_SIZE);
    live' := live[..i] + live[i + 1..];
    Released(region, old(region.maps), st, i);
  }

  lemma CanRelease(region: Region, st: State, i: nat)
    requires region.Valid() && Sound(st) && region.Leaves() == st.marked && i < |st.live|
    ensures var e := st.live[i];
      var ptr, bytes := region.base + e.lo * ORDER_MIN_BLOCK_SIZE, (e.hi - e.lo) * ORDER_MIN_BLOCK_SIZE;
      && e.lo < e.hi && 0 < bytes < U64 && bytes % ORDER_MIN_BLOCK_SIZE == 0
      && bytes / ORDER_MIN_BLOCK_SIZE == e.hi - e.lo <= PIECES
      && ptr % PAGE_SZ == 0 && region.base <= ptr && (ptr - region.base) / ORDER_MIN_BLOCK_SIZE == e.lo
      && e.lo + Pieces(e.hi - e.lo) == e.hi <= |region.Leaves()|
  {
    assert Taken(st.marked, st.live[i]);
    ReleaseArguments(region.base, st.live[i]);
  }

  lemma ReleaseArguments(base: nat, e: Extent)
    requires base % PAGE_SZ == 0 && e.lo < e.hi && e.hi - e.lo <= PIECES
    ensures (base + e.lo * ORDER_MIN_BLOCK_SIZE) % PAGE_SZ == 0
    ensures (base + e.lo * ORDER_MIN_BLOCK_SIZE - base) / ORDER_MIN_BLOCK_SIZE == e.lo
    ensures var bytes := (e.hi - e.lo) * ORDER_MIN_BLOCK_SIZE;
      0 < bytes < U64 && bytes % ORDER_MIN_BLOCK_SIZE == 0 && bytes / ORDER_MIN_BLOCK_SIZE == e.hi - e.lo
  {}

  lemma Released(region: Region, m: seq<seq<bool>>, st: State, i: nat)
    requires region.Valid() && i < |st.live| && |region.maps| == |m| && Sound(st)
    requires region.Leaves() == ClearRange(st.marked, st.live[i].lo, st.live[i].hi) && CompleteFor(|m|, |st.marked|)
    ensures Shows(region, st.live[..i] + st.live[i + 1..], Next(st, region.base, Release(i)))
  {
    NextKeeps(st, region.base, Release(i));
  }

  method RunHold(region: Region, addr: nat, bytes: nat, live: seq<Extent>, ghost st: State)
    requires Shows(region, live, st) && Inside(Hold(addr, bytes), region.base, |st.marked|)
    modifies region
    ensures Shows(region, live, Next(st, region.base, Hold(addr, bytes))) && |region.maps| == |old(region.maps)|
  {
    ShowsMeans(region, live, st);
    NextKeeps(st, region.base, Hold(addr, bytes));
    hide Sound, BlocksFor;
    region.Reserve(addr, bytes);
  }

  /** One call: the code does what the specification says. */
  method RunCall(region: Region, call: Call, live: seq<Extent>, ghost st: State)
    returns (answer: nat, live': seq<Extent>)
    requires Shows(region, live, st) && Inside(call, region.base, |st.marked|)
    modifies region
    ensures Shows(region, live', Next(st, region.base, call)) && |region.maps| == |old(region.maps)|
    ensures answer == Answer(st, region.base, call)
  {
    answer, live' := 0, live;
    match call
    case Allocate(order) => answer, live' := RunAllocate(region, order, live, st);
    case Release(i) => live' := RunRelease(region, i, live, st);
    case Hold(addr, bytes) => RunHold(region, addr, bytes, live, st);
  }

  lemma NoCalls(region: Region, start: State)
    requires region.Valid() && region.Complete() && start == State(region.Leaves(), [])
    ensures StateAfter(start, region.base, []) == start && Answers(start, region.base, []) == []
    ensures Shows(region, [], start)
  {}

  lemma OneMore(start: State, base: nat, calls: seq<Call>, i: nat)
    requires i < |calls| && AllInside(calls, base, |start.marked|)
    ensures var st := StateAfter(start, base, calls[..i]);
      && StateAfter(start, base, calls[..i + 1]) == Next(st, base, calls[i])
      && Answers(start, base, calls[..i + 1]) == Answers(start, base, calls[..i]) + [Answer(st, base, calls[i])]
      && Inside(calls[i], base, |st.marked|)
  {
    assert calls[..i + 1][..i] == calls[..i];
    RunLength(start, base, calls[..i]);
  }

  /** The minimum blocks decide every word and every counter. */
  lemma SameOrders(maps: seq<seq<bool>>, orders: seq<Order>, region: Region)
    requires region.Valid() && Stands(maps, orders) && |maps| == |region.maps|
    ensures (maps == [] || region.Leaves() == maps[0]) ==> region.maps == maps && region.orders == orders
  {
    if maps == [] || region.Leaves() == maps[0] {
      SameMaps(region.maps, maps);
      forall k | 0 <= k < |maps|
        ensures region.orders[k] == orders[k]
      {
        HoldsUnique(region.orders[k], orders[k], maps[k]);
      }
    }
  }

  /** Any sequence of calls on a region: the code returns and marks what the specification says. When the marks are
      what they were at the start, so is every word and counter of every order. */
  method RunCalls(region: Region, calls: seq<Call>) returns (answers: seq<nat>, live: seq<Extent>)
    requires region.Valid() && region.Complete() && AllInside(calls, region.base, |region.Leaves()|)
    modifies region
    ensures Shows(region, live, StateAfter(State(old(region.Leaves()), []), region.base, calls))
    ensures answers == Answers(State(old(region.Leaves()), []), region.base, calls)
    ensures region.Leaves() == old(region.Leaves()) ==> region.orders == old(region.orders)
  {
    ghost var start := State(region.Leaves(), []);
    answers, live := [], [];
    var i: nat := 0;
    NoCalls(region, start);
    assert calls[..0] == [];
    hide *;
    while i < |calls|
      invariant i <= |calls| && Shows(region, live, StateAfter(start, region.base, calls[..i]))
      invariant answers == Answers(start, region.base, calls[..i]) && |region.maps| == |old(region.maps)|
    {
      OneMore(start, region.base, calls, i);
      var answer;
      answer, live := RunCall(region, calls[i], live, StateAfter(start, region.base, calls[..i]));
      answers := answers + [answer];
      i := i + 1;
    }
    assert calls[..i] == calls;
    ShowsMeans(region, live, StateAfter(start, region.base, calls));
    SameOrders(old(region.maps), old(region.orders), region);
  }

  function NewState(bytes: nat): State { State(seq(BlockCount(bytes), _ => false), []) }

  /** The same on a new region, where nothing is marked but what is in use or was reserved. */
  method RunNew(phys: nat, bytes: nat, calls: seq<Call>) returns (region: Region, answers: seq<nat>, live: seq<Extent>)
    requires phys % PAGE_SZ == 0 && AllInside(calls, phys, BlockCount(bytes))
    ensures fresh(region) && Shows(region, live, StateAfter(NewState(bytes), phys, calls))
    ensures answers == Answers(NewState(bytes), phys, calls) && |region.Leaves()| == BlockCount(bytes)
    ensures forall x: nat :: x < BlockCount(bytes) ==>
              (region.Leaves()[x] <==> InUse(live, x) || ReservedBy(NewState(bytes), phys, calls, x))
  {
    region := new Region(phys, bytes);
    assert region.Leaves() == NewState(bytes).marked;
    NewAccounts(bytes, phys, calls);
    hide Region.Valid, Region.Complete, StateAfter, Answers, ReservedBy, InUse, BlockCount;
    answers, live := RunCalls(region, calls);
  }

  lemma NewAccounts(bytes: nat, base: nat, calls: seq<Call>)
    requires AllInside(calls, base, BlockCount(bytes))
    ensures var st := StateAfter(NewState(bytes), base, calls);
      && |st.marked| == BlockCount(bytes)
      && forall x: nat :: x < BlockCount(bytes) ==>
           (st.marked[x] <==> InUse(st.live, x) || ReservedBy(NewState(bytes), base, calls, x))
  {
    var start := NewState(bytes);
    RunLength(start, base, calls);
    forall x: nat | x < BlockCount(bytes)
      ensures var st := StateAfter(start, base, calls);
        st.marked[x] <==> InUse(st.live, x) || ReservedBy(start, base, calls, x)
    {
      RunAccounts(start, base, calls, x);
    }
  }

  // ---- Round trip ------------------------------------------------------------------------------------------------

  /** The minimum blocks at `offsets` from block `lo` on. */
  function Shifted(offsets: seq<nat>, lo: nat): seq<nat> {
    if offsets == [] then [] else Shifted(offsets[..|offsets| - 1], lo) + [lo + offsets[|offsets| - 1]]
  }

  lemma {:induction false} ShiftedHas(offsets: seq<nat>, lo: nat, x: nat)
    ensures x in Shifted(offsets, lo) <==> x >= lo && x - lo in offsets
    decreases |offsets|
  {
    if offsets != [] {
      ShiftedHas(offsets[..|offsets| - 1], lo, x);
      assert offsets == offsets[..|offsets| - 1] + [offsets[|offsets| - 1]];
    }
  }

  lemma ShiftedLists(offsets: seq<nat>, k: nat, n: nat)
    requires Lists(offsets, 0, Pow2(k))
    ensures Lists(Shifted(offsets, Pow2(k) * n), Pow2(k) * n, Pow2(k) * (n + 1))
  {
    assert Pow2(k) * (n + 1) == Pow2(k) * n + Pow2(k);
    forall x: nat
      ensures x in Shifted(offsets, Pow2(k) * n) <==> Pow2(k) * n <= x < Pow2(k) * (n + 1)
    {
      ShiftedHas(offsets, Pow2(k) * n, x);
    }
  }

  /** Block `n` of an order, as allocRegion has marked it and returned its address, is freed one minimum block at a
      time, in whatever order and however often: every word and every counter of every order is then what it was
      before the allocation. */
  method FreeInAnyOrder(region: Region, ptr: nat, order: nat, ghost n: nat, offsets: seq<nat>,
                        ghost maps: seq<seq<bool>>, ghost orders: seq<Order>)
    requires Stands(maps, orders) && order < |maps| && n < |maps[order]| && !Occupied(maps, order, n)
    requires region.Valid() && region.maps == Marked(maps, order, n)
    requires ptr == region.base + Pow2(order) * n * ORDER_MIN_BLOCK_SIZE && Lists(offsets, 0, Pow2(order))
    modifies region
    ensures region.Valid() && region.maps == maps && region.orders == orders
  {
    hide *;
    StandsMeans(maps, orders);
    BeforeFreeing(region, maps, order, n);
    FreeOffsets(region, ptr, offsets, order, Pow2(order) * n);
    AllFreed(region, maps, order, n, offsets);
    SameOrders(maps, orders, region);
  }

  lemma StandsMeans(maps: seq<seq<bool>>, orders: seq<Order>)
    requires Stands(maps, orders)
    ensures Summary(maps) && |orders| == |maps| && forall k :: 0 <= k < |maps| ==> Holds(orders[k], maps[k])
  {}

  method FreeOffsets(region: Region, ptr: nat, offsets: seq<nat>, ghost order: nat, ghost lo: nat)
    requires region.Valid() && ptr == region.base + lo * ORDER_MIN_BLOCK_SIZE && lo + Pow2(order) <= |region.Leaves()|
    requires Lists(offsets, 0, Pow2(order))
    modifies region
    ensures region.Valid() && |region.maps| == |old(region.maps)|
    ensures region.Leaves() == ClearAll(old(region.Leaves()), Shifted(offsets, lo))
  {
    var i: nat := 0;
    assert offsets[..0] == [];
    assert ClearAll(region.Leaves(), Shifted([], lo)) == region.Leaves();
    hide *;
    while i < |offsets|
      invariant i <= |offsets| && region.Valid() && |region.maps| == |old(region.maps)|
      invariant region.Leaves() == ClearAll(old(region.Leaves()), Shifted(offsets[..i], lo))
    {
      FreeStep(old(region.Leaves()), offsets, order, i, lo);
      FreeOffset(region, ptr, offsets[i], lo);
      i := i + 1;
    }
    assert offsets[..i] == offsets;
  }

  lemma RegionMeans(region: Region)
    requires region.Valid()
    ensures Stands(region.maps, region.orders) && region.base % PAGE_SZ == 0
  {}

  lemma BeforeFreeing(region: Region, m: seq<seq<bool>>, k: nat, n: nat)
    requires Summary(m) && k < |m| && n < |m[k]| && region.maps == Marked(m, k, n)
    ensures |region.maps| == |m| && region.Leaves() == Marked(m, k, n)[0]
    ensures Pow2(k) * n + Pow2(k) <= |region.Leaves()|
  {
    BlocksBelow(m, k, n, 0);
    assert Pow2(k) * (n + 1) == Pow2(k) * n + Pow2(k);
  }

  /** freePhys for minimum block `x` of a block that starts at minimum block `lo`. */
  method FreeOffset(region: Region, ptr: nat, x: nat, ghost lo: nat)
    requires region.Valid() && ptr == region.base + lo * ORDER_MIN_BLOCK_SIZE && lo + x < |region.Leaves()|
    modifies region
    ensures region.Valid() && |region.maps| == |old(region.maps)|
    ensures region.Leaves() == old(region.Leaves())[lo + x := false]
  {
    RegionMeans(region);
    BlockAddress(region.base, lo + x, ptr + x * ORDER_MIN_BLOCK_SIZE);
    hide Region.Valid;
    region.FreePhys(ptr + x * ORDER_MIN_BLOCK_SIZE);
  }

  lemma FreeStep(marked: seq<bool>, offsets: seq<nat>, k: nat, i: nat, lo: nat)
    requires i < |offsets| && Lists(offsets, 0, Pow2(k)) && lo + Pow2(k) <= |marked|
    ensures lo + offsets[i] < |ClearAll(marked, Shifted(offsets[..i], lo))|
    ensures ClearAll(marked, Shifted(offsets[..i + 1], lo))
         == ClearAll(marked, Shifted(offsets[..i], lo))[lo + offsets[i] := false]
  {
    assert offsets[i] in offsets;
    var xs, x := Shifted(offsets[..i], lo), lo + offsets[i];
    ClearAllLength(marked, xs);
    assert offsets[..i + 1][..i] == offsets[..i];
    assert Shifted(offsets[..i + 1], lo) == xs + [x];
    hide Shifted, Lists, Pow2;
    assert (xs + [x])[..|xs|] == xs;
  }

  lemma BlockAddress(base: nat, x: nat, ptr: nat)
    requires base % PAGE_SZ == 0 && ptr == base + x * ORDER_MIN_BLOCK_SIZE
    ensures ptr % PAGE_SZ == 0 && (ptr - base) / ORDER_MIN_BLOCK_SIZE == x
  {
    DivUnique(ptr - base, ORDER_MIN_BLOCK_SIZE, x, 0);
    DivUnique(ptr, PAGE_SZ, base / PAGE_SZ + 4 * x, 0);
  }

  lemma AllFreed(region: Region, m: seq<seq<bool>>, k: nat, n: nat, offsets: seq<nat>)
    requires region.Valid() && Summary(m) && k < |m| == |region.maps| && n < |m[k]| && !Occupied(m, k, n)
    requires Lists(offsets, 0, Pow2(k))
    requires region.Leaves() == ClearAll(Marked(m, k, n)[0], Shifted(offsets, Pow2(k) * n))
    ensures region.maps == m && region.Leaves() == m[0]
  {
    SummaryMeans(m, k, n);
    ShiftedLists(offsets, k, n);
    RoundTrip(m, region.maps, k, n, Shifted(offsets, Pow2(k) * n));
  }
}
