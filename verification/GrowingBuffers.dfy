/** The growing arrays of the benchmark readers: capacity doubles from a first size, every size
    computation is checked for overflow, and growing fails when the allocator has no such block. */
module GrowingBuffers {
  import opened Sequences
  import opened Words

  class GrowingBuffer<T(0)> {
    const initialCapacity: nat
    const itemSize: nat
    /** The largest block the allocator grants. */
    const largestBlock: nat
    var items: array<T>
    var count: nat

    ghost predicate Valid()
      reads this
    {
      && count <= items.Length <= SIZE_MAX
      && 0 < initialCapacity <= SIZE_MAX && 0 < itemSize && largestBlock <= SIZE_MAX
      && items.Length * itemSize <= largestBlock
    }

    ghost function Contents(): seq<T>
      requires Valid()
      reads this, items
    {
      items[..count]
    }

    constructor (initialCapacity: nat, itemSize: nat, largestBlock: nat)
      requires 0 < initialCapacity <= SIZE_MAX && 0 < itemSize && largestBlock <= SIZE_MAX
      ensures Valid() && fresh(items) && Contents() == []
      ensures this.initialCapacity == initialCapacity && this.itemSize == itemSize && this.largestBlock == largestBlock
    {
      this.initialCapacity := initialCapacity;
      this.itemSize := itemSize;
      this.largestBlock := largestBlock;
      items := new T[0];
      count := 0;
    }

    /** Appending is sequence append; it fails only when twice the present contents, or the first
        block, would not fit a block. */
    method Append(x: T) returns (ok: bool)
      requires Valid()
      modifies this, items
      ensures Valid() && (items == old(items) || fresh(items))
      ensures ok ==> Contents() == old(Contents()) + [x]
      ensures !ok ==> Contents() == old(Contents())
      ensures !ok ==> largestBlock < Max(initialCapacity, 2 * |old(Contents())|) * itemSize
    {
      ok := true;
      if count == items.Length {
        ok := Grow();
      }
      if ok {
        items[count] := x;
        count := count + 1;
      }
    }

    method Grow() returns (ok: bool)
      requires Valid() && count == items.Length
      modifies this`items
      ensures Valid() && (items == old(items) || fresh(items))
      ensures Contents() == old(Contents())
      ensures ok ==> fresh(items) && count < items.Length
      ensures !ok ==> largestBlock < Max(initialCapacity, 2 * count) * itemSize
    {
      var newCapacity := NewCapacity(initialCapacity, items.Length);
      GrantedExactly(initialCapacity, items.Length, itemSize, largestBlock);
      if !Granted(newCapacity, items.Length, itemSize, largestBlock) {
        return false;
      }
      var grown := new T[newCapacity];
      forall i | 0 <= i < count {
        grown[i] := items[i];
      }
      items := grown;
      return true;
    }

    method Clear()
      requires Valid()
      modifies this`count
      ensures Valid() && Contents() == []
    {
      count := 0;
    }

    /** Releases the block. */
    method Deinit()
      requires Valid()
      modifies this
      ensures Valid() && Contents() == [] && fresh(items)
    {
      items := new T[0];
      count := 0;
    }
  }

  /** Doubling wraps like size_t. */
  function NewCapacity(initial: nat, capacity: nat): nat {
    if capacity == 0 then initial else (capacity * 2) % WORD_LIMIT
  }

  /** The overflow tests, and whether the allocator has the block. */
  predicate Granted(newCapacity: nat, capacity: nat, size: nat, largest: nat)
    requires size > 0
  {
    newCapacity >= capacity && newCapacity <= SIZE_MAX / size && newCapacity * size <= largest
  }

  lemma Scaled(a: nat, b: nat, size: nat)
    requires a <= b
    ensures a * size <= b * size
  {
  }

  lemma TooMany(n: nat, size: nat)
    requires size > 0 && n > SIZE_MAX / size
    ensures n * size > SIZE_MAX
  {
    var q := SIZE_MAX / size;
    assert q * size + SIZE_MAX % size == SIZE_MAX;
    Scaled(q + 1, n, size);
    assert (q + 1) * size == q * size + size;
  }

  /** A granted block has room for more; one refused was too large, wrapped or not. */
  lemma GrantedExactly(initial: nat, capacity: nat, size: nat, largest: nat)
    requires 0 < initial <= SIZE_MAX && capacity <= SIZE_MAX && 0 < size && largest <= SIZE_MAX
    ensures var n := NewCapacity(initial, capacity);
            if Granted(n, capacity, size, largest) then n > capacity
            else largest < Max(initial, 2 * capacity) * size
  {
    var n, m := NewCapacity(initial, capacity), Max(initial, 2 * capacity);
    Scaled(n, m, size);
    if n > SIZE_MAX / size {
      TooMany(n, size);
    } else if n < capacity {
      Scaled(1, size, m);
    }
  }
}
