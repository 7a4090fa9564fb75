/** bytes_pool.go: read buffers of one size, wiped before they are pooled. */
module BytesPool {
  import opened Framing

  const ZERO: byte := '\0'

  ghost predicate Wiped(b: array<byte>)
    reads b
  {
    forall i | 0 <= i < b.Length :: b[i] == ZERO
  }

  class Pool {
    const size: nat
    const clearSlice: Bytes
    /** What the `sync.Pool` holds; it may forget any of it at any time. */
    var free: set<array<byte>>
    /** How many buffers are out. */
    ghost var lent: int

    /** Every pooled buffer has exactly the pool's size and holds nothing of an earlier reply. */
    ghost predicate Valid()
      reads this, free
    {
      && |clearSlice| == size && (forall i | 0 <= i < size :: clearSlice[i] == ZERO)
      && forall b | b in free :: b.Length == size && Wiped(b)
    }

    constructor (size: nat)
      ensures Valid() && this.size == size && free == {} && lent == 0
    {
      this.size := size;
      this.clearSlice := seq(size, _ => ZERO);
      this.free := {};
      this.lent := 0;
    }

    method Get() returns (b: array<byte>)
      requires Valid()
      modifies this
      ensures Valid() && b.Length == size && Wiped(b) && b !in free && lent == old(lent) + 1
      ensures (fresh(b) && free == old(free)) || (b in old(free) && free == old(free) - {b})
    {
      lent := lent + 1;
      var forgotten: bool := *;
      if free == {} || forgotten {
        b := new byte[size](_ => ZERO);
      } else {
        b :| b in free;
        free := free - {b};
      }
    }

    /** `copy(b, clearSlice)` wipes as much of `b` as the pool's size covers: all of it, for a
        buffer of this pool. */
    method Put(b: array<byte>)
      requires Valid() && b.Length == size && b !in free
      modifies this, b
      ensures Valid() && free == old(free) + {b} && lent == old(lent) - 1
    {
      var i := 0;
      while i < b.Length && i < |clearSlice|
        invariant 0 <= i <= b.Length
        invariant forall j | 0 <= j < i :: b[j] == ZERO
        invariant forall c | c in free :: Wiped(c)
        modifies b
      {
        b[i] := clearSlice[i];
        i := i + 1;
      }
      free := free + {b};
      lent := lent - 1;
    }
  }
}
