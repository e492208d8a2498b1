/**
 * A fixed-capacity byte buffer with two water marks: the readable bytes
 * are those between the low and the high index. Bytes are appended at the
 * high mark, prepended below the low mark and retrieved from the low mark.
 *
 * The template parameters LowWater, HighWater and Capacity are constructor
 * arguments here.
 */
module Buffer {
  import opened Keys

  class Buffer {
    const lowWater: nat
    const highWater: nat
    const capacity: nat
    var low: nat
    var high: nat
    /** The std::array of Capacity characters. */
    var data: array<byte>

    ghost predicate Valid()
      reads this
    {
      lowWater <= highWater < capacity
      && data.Length == capacity && low <= high <= capacity
    }

    /** A new buffer: its indices start at the two water marks. */
    constructor (lowWater: nat, highWater: nat, capacity: nat)
      requires lowWater <= highWater < capacity
      ensures Valid() && fresh(data)
      ensures this.lowWater == lowWater && this.highWater == highWater && this.capacity == capacity
      ensures low == lowWater && high == highWater
    {
      this.lowWater := lowWater;
      this.highWater := highWater;
      this.capacity := capacity;
      low := lowWater;
      high := highWater;
      data := new byte[capacity];
    }

    /** The readable bytes, from the low to the high index. */
    function Readable(): (r: seq<byte>)
      requires Valid()
      reads this, data
      ensures |r| == DirtySpaceSize()
    {
      data[low..high]
    }

    /** dirty_space_size(). */
    function DirtySpaceSize(): (r: nat)
      requires Valid()
      reads this
      ensures r + low == high
    {
      high - low
    }

    /** above_high_water_size(): the room left above the high index. */
    function AboveHighWaterSize(): (r: nat)
      requires Valid()
      reads this
      ensures high + r == capacity
    {
      capacity - high
    }

    /** under_low_water_size(): the room below the low index. */
    function UnderLowWaterSize(): (r: nat)
      reads this
      ensures r == low
    {
      low
    }

    /** The three regions partition the buffer. */
    lemma RegionsPartition()
      requires Valid()
      ensures UnderLowWaterSize() + DirtySpaceSize() + AboveHighWaterSize() == capacity
    {
    }

    /** swap(other): exchanges contents and both indices. */
    method Swap(other: Buffer)
      requires Valid() && other.Valid() && other.capacity == capacity
      modifies this`data, this`low, this`high, other`data, other`low, other`high
      ensures Valid() && other.Valid()
      ensures data == old(other.data) && other.data == old(data)
      ensures low == old(other.low) && high == old(other.high)
      ensures other.low == old(low) && other.high == old(high)
      ensures Readable() == old(other.Readable()) && other.Readable() == old(Readable())
    {
      data, other.data := other.data, data;
      low, other.low := other.low, low;
      high, other.high := other.high, high;
    }

    /** retrieve(len): consumes len readable bytes; consuming all of them
      * (or more) resets both indices to 0. */
    method Retrieve(len: nat)
      requires Valid()
      modifies this`low, this`high
      ensures Valid()
      ensures len < old(DirtySpaceSize()) ==> low == old(low) + len && high == old(high)
      ensures len >= old(DirtySpaceSize()) ==> low == 0 && high == 0
      ensures len < old(DirtySpaceSize()) ==> Readable() == old(Readable())[len..]
      ensures len >= old(DirtySpaceSize()) ==> Readable() == []
    {
      if len < DirtySpaceSize() {
        low := low + len;
      } else {
        RetrieveAll();
      }
    }

    /** retrieve<T>(): consumes the size of a 32-bit integer. */
    method RetrieveInt32()
      requires Valid()
      modifies this`low, this`high
      ensures Valid()
      ensures 4 < old(DirtySpaceSize()) ==> low == old(low) + 4 && high == old(high)
      ensures 4 >= old(DirtySpaceSize()) ==> low == 0 && high == 0
    {
      Retrieve(4);
    }

    /** retrieve_all(). */
    method RetrieveAll()
      requires Valid()
      modifies this`low, this`high
      ensures Valid() && low == 0 && high == 0 && Readable() == []
    {
      low := 0;
      high := 0;
    }

    /** retrieve_as(len): the first len readable bytes, which are then
      * retrieved. */
    method RetrieveAs(len: nat) returns (r: seq<byte>)
      requires Valid() && len <= DirtySpaceSize()
      modifies this`low, this`high
      ensures Valid()
      ensures r == old(Readable())[..len]
      ensures old(Readable()) == r + (if len < old(DirtySpaceSize()) then Readable() else [])
      ensures len == old(DirtySpaceSize()) ==> low == 0 && high == 0 && Readable() == []
    {
      r := data[low..low + len];
      Retrieve(len);
    }

    /** retrieve_as(): every readable byte. */
    method RetrieveAllAs() returns (r: seq<byte>)
      requires Valid()
      modifies this`low, this`high
      ensures Valid() && r == old(Readable()) && Readable() == []
    {
      r := RetrieveAs(DirtySpaceSize());
    }

    /** append(data, len): copies the bytes to the high index and raises it;
      * the rest of the buffer is unchanged. */
    method Append(bytes: seq<byte>)
      requires Valid() && high + |bytes| <= capacity
      modifies this`high, data
      ensures Valid() && low == old(low) && high == old(high) + |bytes|
      ensures forall j :: 0 <= j < data.Length ==>
                data[j] == if old(high) <= j < high then bytes[j - old(high)] else old(data[j])
      ensures Readable() == old(Readable()) + bytes
    {
      var i := 0;
      while i < |bytes|
        invariant 0 <= i <= |bytes|
        invariant low == old(low) && high == old(high)
        invariant forall j :: 0 <= j < data.Length ==>
                    data[j] == if high <= j < high + i then bytes[j - high] else old(data[j])
      {
        data[high + i] := bytes[i];
        i := i + 1;
      }
      high := high + |bytes|;
      assert data[low..high] == old(data[low..high]) + bytes;
    }

    /** prepend(data, len): lowers the low index by len and copies the bytes
      * there. */
    method Prepend(bytes: seq<byte>)
      requires Valid() && |bytes| <= low
      modifies this`low, data
      ensures Valid() && low == old(low) - |bytes| && high == old(high)
      ensures forall j :: 0 <= j < data.Length ==>
                data[j] == if low <= j < old(low) then bytes[j - low] else old(data[j])
      ensures Readable() == bytes + old(Readable())
    {
      low := low - |bytes|;
      var i := 0;
      while i < |bytes|
        invariant 0 <= i <= |bytes|
        invariant low == old(low) - |bytes| && high == old(high)
        invariant forall j :: 0 <= j < data.Length ==>
                    data[j] == if low <= j < low + i then bytes[j - low] else old(data[j])
      {
        data[low + i] := bytes[i];
        i := i + 1;
      }
      assert data[low..high] == bytes + old(data[low..high]);
    }

    /** lower_low_water(len): moves the low index up by len. */
    method LowerLowWater(len: nat)
      requires Valid() && low + len <= high
      modifies this`low
      ensures Valid() && low == old(low) + len
      ensures Readable() == old(Readable())[len..]
    {
      low := low + len;
    }

    /** raise_high_water(len): moves the high index up by len. */
    method RaiseHighWater(len: nat)
      requires Valid() && high + len <= capacity
      modifies this`high
      ensures Valid() && high == old(high) + len
      ensures Readable() == old(Readable()) + data[old(high)..high]
    {
      high := high + len;
    }
  }
}
