/** Page frames waiting to become tables: those on a stack and those in the blocks that
    allocPhys is going to hand out. */
module FramePool {
  import opened PageBits
  import opened PageTables
  import opened Words

  /** `n` frames from `base` up. */
  function FrameRun(base: nat, n: nat): seq<nat> {
    if n == 0 then [] else FrameRun(base, n - 1) + [base + (n - 1) * PAGE_SZ]
  }

  /** A stack before a frame is taken from it: one that holds less than `low` gets the frames of the next block. */
  function Refilled(stack: seq<nat>, low: nat, blocks: seq<nat>, n: nat): seq<nat> {
    if |stack| < low && blocks != [] then stack + FrameRun(blocks[0], n) else stack
  }

  predicate IsTop(frame: nat, rest: seq<nat>, stack: seq<nat>) { stack == rest + [frame] }

  /** The frames of the blocks `blocks`, `n` from each. */
  ghost function RunsOf(blocks: seq<nat>, n: nat): multiset<nat> {
    if blocks == [] then multiset{} else multiset(FrameRun(blocks[0], n)) + RunsOf(blocks[1..], n)
  }

  /** Each frame of the pool is there once, zeroed, and outside the tree. */
  ghost predicate IsPool(ram: Ram, root: nat, pool: multiset<nat>) {
    forall f :: f in pool ==> pool[f] == 1 && Fresh(ram, root, f)
  }

  lemma FrameRunLength(base: nat, n: nat)
    ensures |FrameRun(base, n)| == n
  {}

  lemma TakeBlock(stack: seq<nat>, blocks: seq<nat>, n: nat)
    requires blocks != []
    ensures multiset(stack + FrameRun(blocks[0], n)) + RunsOf(blocks[1..], n) == multiset(stack) + RunsOf(blocks, n)
  {}

  lemma TakeFrame(ram: Ram, root: nat, pool: multiset<nat>, stack: seq<nat>, rest: seq<nat>, f: nat,
                  later: multiset<nat>)
    requires IsPool(ram, root, pool) && pool == multiset(stack) + later && stack == rest + [f]
    ensures f in pool && multiset(rest) + later == pool[f := 0] && IsPool(ram, root, multiset(rest) + later)
  {}

  lemma InPool(ram: Ram, root: nat, pool: multiset<nat>, f: nat)
    requires IsPool(ram, root, pool) && f in pool
    ensures Fresh(ram, root, f) && pool[f] == 1
  {}

  lemma PoolStays(ram: Ram, ram': Ram, root: nat, pool: multiset<nat>)
    requires IsPool(ram, root, pool) && forall f :: Fresh(ram, root, f) ==> Fresh(ram', root, f)
    ensures IsPool(ram', root, pool)
  {}

  lemma PoolAfterLink(ram: Ram, ram': Ram, root: nat, pool: multiset<nat>, frame: nat)
    requires IsPool(ram, root, pool)
    requires forall f :: Fresh(ram, root, f) && f != frame ==> Fresh(ram', root, f)
    ensures IsPool(ram', root, pool[frame := 0])
  {}

  // ---- What linking tables uses up -------------------------------------------------------------------------

  /** Frame `f` is no table and is not in the pool that tables come from. */
  ghost predicate Alien(ram: Ram, root: nat, pool: multiset<nat>, f: nat) {
    f !in pool && forall p {:trigger TableAt(ram, root, p)} :: IsPath(p) ==> TableAt(ram, root, p) != f
  }

  /** At most `n` frames have left the pool, and no frame outside it has become a table. */
  ghost predicate Used(before: Ram, after: Ram, root: nat, pool: multiset<nat>, left: multiset<nat>, n: nat) {
    |pool| <= |left| + n && forall f: nat :: Alien(before, root, pool, f) ==> Alien(after, root, left, f)
  }

  lemma NoneUsed(before: Ram, after: Ram, root: nat, pool: multiset<nat>, n: nat)
    requires SameTables(before, after, root)
    ensures Used(before, after, root, pool, pool, n)
  {}

  lemma OneUsed(before: Ram, after: Ram, root: nat, pool: multiset<nat>, frame: nat, at: Path)
    requires pool[frame] == 1 && IsPath(at)
    requires TableAt(after, root, at) == frame
    requires forall q :: IsPath(q) && q != at ==> TableAt(after, root, q) == TableAt(before, root, q)
    ensures Used(before, after, root, pool, pool[frame := 0], 1)
  {}

  lemma UsedAgain(a: Ram, b: Ram, c: Ram, root: nat, p: multiset<nat>, q: multiset<nat>, r: multiset<nat>, n: nat,
                  m: nat)
    requires Used(a, b, root, p, q, n) && Used(b, c, root, q, r, m)
    ensures Used(a, c, root, p, r, n + m)
  {}

  lemma UsedLess(before: Ram, after: Ram, root: nat, pool: multiset<nat>, left: multiset<nat>, n: nat, m: nat)
    requires Used(before, after, root, pool, left, n) && n <= m
    ensures Used(before, after, root, pool, left, m)
  {}

  lemma UsedMeans(before: Ram, after: Ram, root: nat, pool: multiset<nat>, left: multiset<nat>, n: nat)
    requires Used(before, after, root, pool, left, n)
    ensures |pool| <= |left| + n
  {}

  /** The size of the pool. */
  lemma PoolSize(stack: seq<nat>, blocks: seq<nat>, n: nat)
    ensures |multiset(stack) + RunsOf(blocks, n)| == |stack| + n * |blocks|
  {
    RunsSize(blocks, n);
    assert |multiset(stack)| == |stack|;
  }

  lemma {:induction false} RunsSize(blocks: seq<nat>, n: nat)
    ensures |RunsOf(blocks, n)| == n * |blocks|
    decreases |blocks|
  {
    hide *;
    var k := |blocks|;
    if k == 0 {
      NoRuns(blocks, n);
    } else {
      RunsSize(blocks[1..], n);
      FrameRunLength(blocks[0], n);
      RunsFirst(blocks, n);
      OneMoreTime(n, |blocks[1..]|, k);
    }
  }

  lemma NoRuns(blocks: seq<nat>, n: nat)
    requires blocks == []
    ensures |RunsOf(blocks, n)| == n * |blocks|
  {}

  lemma RunsFirst(blocks: seq<nat>, n: nat)
    requires blocks != []
    ensures |RunsOf(blocks, n)| == |FrameRun(blocks[0], n)| + |RunsOf(blocks[1..], n)|
  {
    assert |multiset(FrameRun(blocks[0], n))| == |FrameRun(blocks[0], n)|;
  }

  lemma OneMoreTime(n: nat, k: nat, m: nat)
    requires m == k + 1
    ensures n * m == n + n * k
  {}

  /** Blocks so far apart that `n` frames from each are all different. */
  predicate RunsApart(blocks: seq<nat>, n: nat) {
    forall i, j :: 0 <= i < j < |blocks| ==> Apart(blocks[i], n * PAGE_SZ, blocks[j], n * PAGE_SZ)
  }

  ghost predicate NoRepeats(pool: multiset<nat>) { forall f :: f in pool ==> pool[f] == 1 }

  lemma {:induction false} InRun(base: nat, n: nat, f: nat)
    ensures multiset(FrameRun(base, n))[f] == if InBlock(base, n, f) then 1 else 0
    decreases n
  {
    hide *;
    if n > 0 {
      InRun(base, n - 1, f);
      OneMoreFrame(base, n, f);
      RunGrows(base, n, f);
    } else {
      NoFrames(base, f);
    }
  }

  lemma NoFrames(base: nat, f: nat)
    ensures multiset(FrameRun(base, 0))[f] == 0 && !InBlock(base, 0, f)
  {}

  lemma RunGrows(base: nat, n: nat, f: nat)
    requires n > 0
    ensures multiset(FrameRun(base, n))[f]
         == multiset(FrameRun(base, n - 1))[f] + if f == base + (n - 1) * PAGE_SZ then 1 else 0
  {
    var last: nat := base + (n - 1) * PAGE_SZ;
    assert multiset(FrameRun(base, n)) == multiset(FrameRun(base, n - 1)) + multiset([last]);
  }

  lemma OneMoreFrame(base: nat, n: nat, f: nat)
    requires n > 0
    ensures InBlock(base, n, f) <==> InBlock(base, n - 1, f) || f == base + (n - 1) * PAGE_SZ
    ensures !InBlock(base, n - 1, base + (n - 1) * PAGE_SZ)
  {}

  /** Frame `f` is one of the `n` from `base` up. */
  predicate InBlock(base: nat, n: nat, f: nat) { base <= f < base + n * PAGE_SZ && (f - base) % PAGE_SZ == 0 }

  lemma {:induction false} InRuns(blocks: seq<nat>, n: nat, f: nat)
    ensures f in RunsOf(blocks, n) <==> exists i :: 0 <= i < |blocks| && InBlock(blocks[i], n, f)
    decreases |blocks|
  {
    if blocks != [] {
      InRun(blocks[0], n, f);
      InRuns(blocks[1..], n, f);
      if exists i :: 0 <= i < |blocks| && InBlock(blocks[i], n, f) {
        var i :| 0 <= i < |blocks| && InBlock(blocks[i], n, f);
        if i > 0 { assert InBlock(blocks[1..][i - 1], n, f); }
      }
    }
  }

  /** The frames of page-aligned blocks, `n` from each, are all different exactly when the blocks are so far apart. With
      one frame more than fit in a block they are not when two blocks are neighbours. */
  lemma {:induction false} FramesDiffer(blocks: seq<nat>, n: nat)
    requires n > 0 && forall i :: 0 <= i < |blocks| ==> blocks[i] % PAGE_SZ == 0
    ensures NoRepeats(RunsOf(blocks, n)) <==> RunsApart(blocks, n)
    decreases |blocks|
  {
    if blocks != [] {
      var b, rest := blocks[0], blocks[1..];
      FramesDiffer(rest, n);
      if RunsApart(blocks, n) { ApartDiffer(blocks, n); }
      if NoRepeats(RunsOf(blocks, n)) { DifferApart(blocks, n); }
    }
  }

  lemma ApartDiffer(blocks: seq<nat>, n: nat)
    requires blocks != [] && RunsApart(blocks, n) && (RunsApart(blocks[1..], n) ==> NoRepeats(RunsOf(blocks[1..], n)))
    ensures NoRepeats(RunsOf(blocks, n))
  {
    var rest := blocks[1..];
    assert RunsApart(rest, n);
    forall f | f in RunsOf(blocks, n)
      ensures RunsOf(blocks, n)[f] == 1
    {
      InRun(blocks[0], n, f);
      InRuns(rest, n, f);
    }
  }

  lemma DifferApart(blocks: seq<nat>, n: nat)
    requires n > 0 && forall i :: 0 <= i < |blocks| ==> blocks[i] % PAGE_SZ == 0
    requires blocks != [] && NoRepeats(RunsOf(blocks, n))
    requires NoRepeats(RunsOf(blocks[1..], n)) ==> RunsApart(blocks[1..], n)
    ensures RunsApart(blocks, n)
  {
    var rest := blocks[1..];
    assert forall f :: f in RunsOf(rest, n) ==> RunsOf(rest, n)[f] <= RunsOf(blocks, n)[f];
    assert NoRepeats(RunsOf(rest, n));
    forall i: nat, j: nat | i < j < |blocks|
      ensures Apart(blocks[i], n * PAGE_SZ, blocks[j], n * PAGE_SZ)
    {
      if i > 0 {
        assert blocks[i] == rest[i - 1] && blocks[j] == rest[j - 1];
      } else {
        FirstApart(blocks, n, j);
      }
    }
  }

  lemma FirstApart(blocks: seq<nat>, n: nat, j: nat)
    requires n > 0 && 0 < j < |blocks| && blocks[0] % PAGE_SZ == 0 && blocks[j] % PAGE_SZ == 0
    requires NoRepeats(RunsOf(blocks, n))
    ensures Apart(blocks[0], n * PAGE_SZ, blocks[j], n * PAGE_SZ)
  {
    var f := if blocks[0] < blocks[j] then blocks[j] else blocks[0];
    CountTwo(blocks, n, j, f);
    assert RunsOf(blocks, n)[f] <= 1;
    hide *;
    CommonFrame(blocks[0], blocks[j], n, f);
  }

  /** A frame of two blocks is in the pool twice. */
  lemma CountTwo(blocks: seq<nat>, n: nat, j: nat, f: nat)
    requires 0 < j < |blocks|
    ensures InBlock(blocks[0], n, f) && InBlock(blocks[j], n, f) ==> RunsOf(blocks, n)[f] >= 2
  {
    InRun(blocks[0], n, f);
    InRuns(blocks[1..], n, f);
    assert blocks[1..][j - 1] == blocks[j];
    assert RunsOf(blocks, n) == multiset(FrameRun(blocks[0], n)) + RunsOf(blocks[1..], n);
    hide *;
  }

  lemma CommonFrame(a: nat, b: nat, n: nat, f: nat)
    requires n > 0 && a % PAGE_SZ == 0 && b % PAGE_SZ == 0 && f == if a < b then b else a
    ensures !Apart(a, n * PAGE_SZ, b, n * PAGE_SZ) ==> InBlock(a, n, f) && InBlock(b, n, f)
  {
    AlignedGap(a, f);
    AlignedGap(b, f);
  }

  lemma AlignedGap(a: nat, f: nat)
    requires a % PAGE_SZ == 0 && f % PAGE_SZ == 0 && a <= f
    ensures (f - a) % PAGE_SZ == 0
  {
    var i, j := a / PAGE_SZ, f / PAGE_SZ;
    assert a == PAGE_SZ * i && f == PAGE_SZ * j;
    var n: nat := j - i;
    DivUnique(f - a, PAGE_SZ, n, 0);
  }
}
