/** The bounded SQL text buffer of the runtime stress benchmark: a fixed block, a length, and two
    append operations that fail rather than overrun the block. */
module GeneratedSql {
  import opened Decimal
  import opened Words

  const BASE_CAPACITY: nat := 128
  const ITEM_CAPACITY: nat := 32
  const MAX_ITEMS: nat := (SIZE_MAX - BASE_CAPACITY) / ITEM_CAPACITY

  function Indexed(lead: string, index: nat, trail: string): (text: string)
    ensures |text| == |lead| + |Digits(index)| + |trail|
    ensures trail == "" ==> text == lead + Digits(index)
  {
    lead + Digits(index) + trail
  }

  class SqlBuffer {
    const data: array<char>
    var length: nat

    ghost predicate Valid()
      reads this
    {
      length <= data.Length
    }

    ghost function Contents(): string
      requires Valid()
      reads this, data
    {
      data[..length]
    }

    constructor (capacity: nat)
      ensures Valid() && fresh(data) && data.Length == capacity && Contents() == ""
    {
      data := new char[capacity](_ => '\0');
      length := 0;
    }

    /** Appends text when it and its terminator fit; otherwise changes nothing. */
    method Append(text: string) returns (ok: bool)
      requires Valid()
      modifies this, data
      ensures Valid()
      ensures ok <==> old(length) + |text| < data.Length
      ensures Contents() == old(Contents()) + (if ok then text else "")
      ensures ok ==> data[length] == '\0'
    {
      if |text| >= data.Length || length > data.Length - |text| - 1 {
        return false;
      }
      forall i | 0 <= i < |text| {
        data[length + i] := text[i];
      }
      length := length + |text|;
      data[length] := '\0';
      return true;
    }

    /** Appends the decimal text of index between two fixed texts as one formatted write. A write that
        does not fit is cut off behind the current length, so the contents keep. */
    method AppendIndexed(lead: string, index: nat, trail: string) returns (ok: bool)
      requires Valid()
      modifies this, data
      ensures Valid()
      ensures ok <==> old(length) + |Indexed(lead, index, trail)| < data.Length
      ensures Contents() == old(Contents()) + (if ok then Indexed(lead, index, trail) else "")
      ensures ok ==> data[length] == '\0'
    {
      if length >= data.Length {
        return false;
      }
      var text := Indexed(lead, index, trail);
      var room := data.Length - length;
      var kept := if |text| < room then |text| else room - 1;
      forall i | 0 <= i < kept {
        data[length + i] := text[i];
      }
      data[length + kept] := '\0';
      if |text| >= room {
        return false;
      }
      length := length + |text|;
      return true;
    }
  }

  /** A block for itemCount generated items, or none when the size would overflow size_t or the
      allocator has no block of that size. */
  method AllocateGeneratedSql(itemCount: nat, largestBlock: nat) returns (buffer: SqlBuffer?)
    ensures buffer != null <==> itemCount <= MAX_ITEMS && BASE_CAPACITY + itemCount * ITEM_CAPACITY <= largestBlock
    ensures buffer != null ==>
              && fresh(buffer) && fresh(buffer.data) && buffer.Valid() && buffer.Contents() == ""
              && buffer.data.Length == BASE_CAPACITY + itemCount * ITEM_CAPACITY <= SIZE_MAX
  {
    if itemCount > (SIZE_MAX - BASE_CAPACITY) / ITEM_CAPACITY {
      return null;
    }
    var capacity := BASE_CAPACITY + itemCount * ITEM_CAPACITY;
    if capacity > largestBlock {
      return null;
    }
    buffer := new SqlBuffer(capacity);
  }
}
