/** The data stack of dstack.c: 64-bit items in a buffer of `maxSize` bytes. */
module DataStack {

  class Dstack {
    const buffer: array<nat>
    var top: nat // items below the stack pointer
    const maxSize: nat // bytes

    ghost predicate Valid()
      reads this
    {
      top <= buffer.Length == maxSize / 8
    }

    /** The items, oldest first. */
    ghost function Contents(): seq<nat>
      requires Valid()
      reads this, buffer
    {
      buffer[..top]
    }

    constructor (initialSize: nat)
      ensures Valid() && Contents() == [] && maxSize == initialSize && fresh(buffer)
    {
      buffer := new nat[initialSize / 8];
      top := 0;
      maxSize := initialSize;
    }

    /** Push with room left. Without room the source calls growStack with the lock it needs
        already held, so that call never returns. */
    method Push(data: nat)
      requires Valid() && 8 * |Contents()| + 8 <= maxSize
      modifies this, buffer
      ensures Valid() && Contents() == old(Contents()) + [data]
    {
      buffer[top] := data;
      top := top + 1;
    }

    method Pop() returns (item: nat, fetched: bool)
      requires Valid()
      modifies this
      ensures Valid() && fetched == (old(Contents()) != [])
      ensures Contents() + (if fetched then [item] else []) == old(Contents())
    {
      if top == 0 { return 0, false; }
      top := top - 1;
      return buffer[top], true;
    }

    method Count() returns (n: nat)
      requires Valid()
      ensures n == |Contents()|
    {
      n := top;
    }
  }
}
