/** The stack of physical frames behind vmalloc: getPhysmem and extendStack. */
module FrameSource {
  import opened PageBits
  import opened FramePool
  import opened DataStack
  import PhysOrder

  /** Frames in one block: allocPhys answers a request for ten pages with 32. */
  const BLOCK_FRAMES: nat := 32

  /** Aligned frames, each there once. */
  ghost predicate AllOnce(pool: multiset<nat>) {
    forall f :: f in pool ==> pool[f] == 1 && f % PAGE_SZ == 0 && f < PHYS_LIMIT
  }

  /** Frames handed out, frames on the stack and frames still to come. */
  ghost function Everything(handed: seq<nat>, stack: seq<nat>, blocks: seq<nat>): multiset<nat> {
    multiset(handed) + multiset(stack) + RunsOf(blocks, BLOCK_FRAMES)
  }

  lemma RefillKeeps(handed: seq<nat>, blocks: seq<nat>)
    requires blocks != []
    ensures Everything(handed, FrameRun(blocks[0], BLOCK_FRAMES), blocks[1..]) == Everything(handed, [], blocks)
  {}

  lemma HandOut(handed: seq<nat>, rest: seq<nat>, f: nat, blocks: seq<nat>)
    requires AllOnce(Everything(handed, rest + [f], blocks))
    ensures Everything(handed + [f], rest, blocks) == Everything(handed, rest + [f], blocks)
    ensures f !in handed && f % PAGE_SZ == 0 && f < PHYS_LIMIT
  {
    assert multiset(rest + [f]) == multiset(rest) + multiset{f};
    assert multiset(handed + [f]) == multiset(handed) + multiset{f};
    assert f in Everything(handed, rest + [f], blocks);
    assert multiset(handed)[f] + multiset(rest + [f])[f] <= Everything(handed, rest + [f], blocks)[f];
  }

  lemma NothingElse(handed: seq<nat>, stack: seq<nat>, blocks: seq<nat>)
    requires stack == [] && blocks == []
    ensures |Everything(handed, stack, blocks)| == |handed|
  {
    assert Everything(handed, stack, blocks) == multiset(handed);
  }

  class PhysFrames {
    const stack: Dstack
    var blocks: seq<nat> // what allocPhys will answer extendStack, in order; none left is out of memory
    ghost var handed: seq<nat> // every frame getPhysmem returned, in order

    /** Every frame of the machine that vmalloc has, had or will have. */
    ghost function All(): multiset<nat>
      requires stack.Valid()
      reads this, stack, stack.buffer
    {
      Everything(handed, stack.Contents(), blocks)
    }

    ghost predicate Valid()
      reads this, stack, stack.buffer
    {
      stack.Valid() && stack.maxSize == 8 * 100 && |stack.Contents()| <= BLOCK_FRAMES && AllOnce(All())
    }

    /** The stack initVmalloc creates, before its first extendStack. */
    constructor (grants: seq<nat>)
      requires AllOnce(RunsOf(grants, BLOCK_FRAMES))
      ensures Valid() && handed == [] && blocks == grants && fresh(stack) && fresh(stack.buffer)
    {
      stack := new Dstack(8 * 100);
      blocks := grants;
      handed := [];
      new;
      assert All() == RunsOf(grants, BLOCK_FRAMES);
    }

    /** Refills an empty stack with the frames of one block. */
    method ExtendStack() returns (ok: bool)
      requires Valid() && stack.Contents() == []
      modifies this`blocks, stack, stack.buffer
      ensures Valid() && All() == old(All())
      ensures ok <==> old(blocks) != []
      ensures ok ==> stack.Contents() == FrameRun(old(blocks)[0], BLOCK_FRAMES) && blocks == old(blocks)[1..]
      ensures !ok ==> unchanged(this, stack, stack.buffer)
    {
      if blocks == [] { return false; }
      var order := PhysOrder.ChooseOrder(PAGE_SZ * 10);
      PhysOrder.RefillSizes();
      RefillKeeps(handed, blocks);
      FrameRunLength(blocks[0], BLOCK_FRAMES);
      PushBlock(stack, blocks[0], PhysOrder.OrderBlockSize(order));
      assert [] + FrameRun(blocks[0], BLOCK_FRAMES) == FrameRun(blocks[0], BLOCK_FRAMES);
      blocks := blocks[1..];
      return true;
    }

    /** popStack, and the frame counts as handed out. */
    method TryTake() returns (f: bool, addr: nat)
      requires Valid()
      modifies this`handed, stack
      ensures Valid() && All() == old(All())
      ensures f == (old(stack.Contents()) != [])
      ensures f ==> handed == old(handed) + [addr] && addr % PAGE_SZ == 0 && addr < PHYS_LIMIT && addr !in old(handed)
      ensures f ==> IsTop(addr, stack.Contents(), old(stack.Contents()))
      ensures !f ==> stack.Contents() == [] && handed == old(handed)
    {
      ghost var before := stack.Contents();
      addr, f := stack.Pop();
      if f {
        assert before == stack.Contents() + [addr];
        HandOut(handed, stack.Contents(), addr, blocks);
        handed := handed + [addr];
      }
    }

    lemma RefillBelowOne()
      requires Valid()
      ensures stack.Valid()
      ensures Refilled(stack.Contents(), 1, blocks, BLOCK_FRAMES)
        == if stack.Contents() == [] && blocks != [] then FrameRun(blocks[0], BLOCK_FRAMES) else stack.Contents()
      ensures FrameRun(if blocks == [] then 0 else blocks[0], BLOCK_FRAMES) != []
    {
      FrameRunLength(if blocks == [] then 0 else blocks[0], BLOCK_FRAMES);
    }

    /** A frame never handed out before; `ok` is false when the kernel panics, out of memory. */
    method GetPhysmem() returns (ok: bool, addr: nat)
      requires Valid()
      modifies this, stack, stack.buffer
      ensures Valid() && All() == old(All())
      ensures ok ==> handed == old(handed) + [addr] && addr % PAGE_SZ == 0 && addr < PHYS_LIMIT && addr !in old(handed)
      ensures ok ==> IsTop(addr, stack.Contents(), Refilled(old(stack.Contents()), 1, old(blocks), BLOCK_FRAMES))
      ensures !ok ==> blocks == [] && stack.Contents() == [] && handed == old(handed)
    {
      hide *;
      RefillBelowOne();
      ok, addr := TryTake();
      if !ok {
        var extended := ExtendStack();
        if !extended { return false, 0; }
        ok, addr := TryTake();
      }
    }
  }

  /** The loop of extendStack: the frames from `phys` up to `phys + sz`, that one excluded. */
  method PushBlock(stack: Dstack, phys: nat, sz: nat)
    requires stack.Valid() && sz % PAGE_SZ == 0
    requires 8 * (|stack.Contents()| + sz / PAGE_SZ) <= stack.maxSize
    modifies stack, stack.buffer
    ensures stack.Valid() && stack.Contents() == old(stack.Contents()) + FrameRun(phys, sz / PAGE_SZ)
  {
    var i := 0;
    ghost var n := 0;
    while i < sz
      invariant i == n * PAGE_SZ && n <= sz / PAGE_SZ
      invariant stack.Valid() && |stack.Contents()| == old(|stack.Contents()|) + n
      invariant stack.Contents() == old(stack.Contents()) + FrameRun(phys, n)
    {
      stack.Push(phys + i);
      i := i + PAGE_SZ;
      n := n + 1;
    }
  }
}
