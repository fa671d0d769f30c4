/** How allocPhys turns a request in bytes into a buddy order and a block size. */
module PhysOrder {

  const MAXORDER: nat := 10
  const ORDER_MIN_BLOCK_SIZE: nat := 0x4000

  function Pow2(k: nat): nat { if k == 0 then 1 else 2 * Pow2(k - 1) }

  function OrderBlockSize(order: nat): nat { Pow2(order) * ORDER_MIN_BLOCK_SIZE }

  /** The loop that picks an order: the candidate size is doubled `order` times on each step
      instead of once, so it outgrows the block size of the order it stands for. */
  method ChooseOrder(bytes: nat) returns (order: nat)
    ensures order == OrderFor(bytes)
  {
    var sz: nat := ORDER_MIN_BLOCK_SIZE;
    order := 0;
    while order < MAXORDER && sz < bytes
      invariant order <= MAXORDER && OrderFor(bytes) == OrderFrom(bytes, order, sz)
      decreases MAXORDER - order
    {
      sz := sz * Pow2(order);
      order := order + 1;
    }
  }

  function OrderFrom(bytes: nat, order: nat, sz: nat): nat
    requires order <= MAXORDER
    decreases MAXORDER - order
  {
    if order == MAXORDER || sz >= bytes then order else OrderFrom(bytes, order + 1, sz * Pow2(order))
  }

  function OrderFor(bytes: nat): nat { OrderFrom(bytes, 0, ORDER_MIN_BLOCK_SIZE) }

  /** The bytes allocPhys reports as allocated. */
  function ActualSize(bytes: nat): nat { OrderBlockSize(OrderFor(bytes)) }

  /** The order picked, by size class; order 1 is never picked and order 10 has no bitmap. */
  lemma OrderTable(bytes: nat)
    ensures OrderFor(bytes) ==
      if bytes <= 0x4000 then 0 else if bytes <= 0x8000 then 2 else if bytes <= 0x2_0000 then 3
      else if bytes <= 0x10_0000 then 4 else if bytes <= 0x100_0000 then 5 else if bytes <= 0x2000_0000 then 6
      else if bytes <= 0x8_0000_0000 then 7 else if bytes <= 0x400_0000_0000 then 8
      else if bytes <= 0x4_0000_0000_0000 then 9 else 10
  {}

  /** A block is as large as was asked for exactly when at most 256 KiB were asked for. */
  lemma BlockCoversRequest(bytes: nat)
    ensures ActualSize(bytes) >= bytes <==> bytes <= 0x4_0000
  {}

  /** The order indexes an existing bitmap exactly for requests of at most 2^50 bytes. */
  lemma OrderInRange(bytes: nat)
    ensures OrderFor(bytes) < MAXORDER <==> bytes <= 0x4_0000_0000_0000
  {}

  /** The two refill requests of the frame stacks: 32 frames for ten pages, and 64 for a hundred. */
  lemma RefillSizes()
    ensures ActualSize(10 * 0x1000) == 32 * 0x1000
    ensures ActualSize(100 * 0x1000) == 64 * 0x1000
  {}
}
