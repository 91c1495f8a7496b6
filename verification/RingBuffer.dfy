/** The byte ring buffer: a fixed array with wrapped, two-piece copies. */
module RingBuffer {
  import opened Machine
  import opened Circular

  datatype RingResult = Ok | InvalidState | InsufficientSpace | InsufficientData

  /** The two `memcpy` calls that store `length` bytes at `start`, wrapping at the end. */
  method CopyIn(storage: array<Byte>, capacity: SizeT, start: SizeT, data: array<Byte>, length: SizeT)
    requires data != storage && start < capacity <= storage.Length && length <= capacity
    requires length <= data.Length
    modifies storage
    ensures Window(storage[..], capacity, start, length) == data[..length]
    ensures forall i :: length <= i < capacity ==>
              var k := AdvanceIndex(start, i, capacity);
              storage[k] == old(storage[k])
  {
    var first: SizeT := capacity - start;
    if first > length {
      first := length;
    }
    var second: SizeT := length - first;
    forall i | 0 <= i < first {
      storage[start + i] := data[i];
    }
    if second > 0 {
      forall i | 0 <= i < second {
        storage[i] := data[first + i];
      }
    }
    assert storage[start..start + first] == data[..first];
    assert storage[..second] == data[first..length];
  }

  /** The two `memcpy` calls that fetch `length` bytes from `start`, wrapping at the end. */
  method CopyOut(storage: array<Byte>, capacity: SizeT, start: SizeT,
                 output: array<Byte>, at: SizeT, length: SizeT)
    requires output != storage && start < capacity <= storage.Length && length <= capacity
    requires at + length <= output.Length
    modifies output
    ensures output[at..at + length] == Window(storage[..], capacity, start, length)
    ensures output[..at] == old(output[..at])
    ensures output[at + length..] == old(output[at + length..])
  {
    var first: SizeT := capacity - start;
    if first > length {
      first := length;
    }
    var second: SizeT := length - first;
    forall i | 0 <= i < first {
      output[at + i] := storage[start + i];
    }
    if second > 0 {
      forall i | 0 <= i < second {
        output[at + first + i] := storage[i];
      }
    }
    assert output[at..at + first] == storage[start..start + first];
    assert output[at + first..at + length] == storage[..second];
    assert output[at..at + length] == output[at..at + first] + output[at + first..at + length];
  }

  class Ring {
    var storage: array<Byte>
    var capacity: SizeT
    var readIndex: SizeT
    var writeIndex: SizeT
    var used: SizeT

    /** What the caller of `init` promises about the memory it hands over. */
    ghost predicate HasMemory()
      reads this
    {
      capacity <= storage.Length
    }

    /** The indices describe a ring of `used` bytes. */
    ghost predicate Valid()
      reads this
    {
      && HasMemory()
      && 0 < capacity
      && readIndex < capacity
      && used <= capacity
      && writeIndex == AdvanceIndex(readIndex, used, capacity)
    }

    /** The stored bytes, oldest first. */
    ghost function Contents(): (s: seq<Byte>)
      requires Valid()
      reads this, storage
      ensures |s| == used
    {
      Window(storage[..], capacity, readIndex, used)
    }

    /** `comm_ringbuffer_init` with a capacity it accepts. */
    constructor (storage: array<Byte>, capacity: SizeT)
      requires 0 < capacity <= storage.Length
      ensures Valid() && Contents() == []
      ensures this.storage == storage && this.capacity == capacity
    {
      this.storage := storage;
      this.capacity := capacity;
      this.readIndex := 0;
      this.writeIndex := 0;
      this.used := 0;
    }

    method StateIsValid() returns (valid: bool)
      requires HasMemory()
      ensures valid <==> Valid()
    {
      if capacity == 0 {
        return false;
      }
      if readIndex >= capacity || writeIndex >= capacity || used > capacity {
        return false;
      }
      var expected := AdvanceIndex(readIndex, used, capacity);
      return writeIndex == expected;
    }

    /** Repairs the indices of a ring whose storage is still configured. */
    method Reset() returns (result: RingResult)
      requires HasMemory()
      modifies this`readIndex, this`writeIndex, this`used
      ensures result == if capacity > 0 then Ok else InvalidState
      ensures result == Ok ==> Valid() && Contents() == []
      ensures result != Ok ==> unchanged(this)
    {
      if capacity == 0 {
        return InvalidState;
      }
      readIndex := 0;
      writeIndex := 0;
      used := 0;
      return Ok;
    }

    method Size() returns (size: SizeT)
      requires HasMemory()
      ensures size == if Valid() then |Contents()| else 0
    {
      var valid := StateIsValid();
      return if valid then used else 0;
    }

    method FreeSpace() returns (space: SizeT)
      requires HasMemory()
      ensures space == if Valid() then capacity - |Contents()| else 0
    {
      var valid := StateIsValid();
      return if valid then capacity - used else 0;
    }

    /** Appends `length` bytes of `data`, all or none. */
    method Write(data: array<Byte>, length: SizeT) returns (result: RingResult)
      requires HasMemory() && data != storage && length <= data.Length
      modifies this`writeIndex, this`used, storage
      ensures result ==
              if !old(Valid()) then InvalidState
              else if length > capacity - |old(Contents())| then InsufficientSpace
              else Ok
      ensures result == Ok ==> Valid() && Contents() == old(Contents()) + data[..length]
      ensures result != Ok ==> unchanged(this) && unchanged(storage)
    {
      var valid := StateIsValid();
      if !valid {
        return InvalidState;
      }
      if length == 0 {
        assert data[..0] == [];
        return Ok;
      }
      var freeSpace: SizeT := capacity - used;
      if length > freeSpace {
        return InsufficientSpace;
      }
      hide Window;
      hide AdvanceIndex;
      ghost var before := storage[..];
      CopyIn(storage, capacity, writeIndex, data, length);
      WindowAppended(before, storage[..], capacity, readIndex, used, length);
      AdvanceTwice(readIndex, used, length, capacity);
      writeIndex := AdvanceIndex(writeIndex, length, capacity);
      used := used + length;
      return Ok;
    }

    /** Copies `length` bytes from `offset` on into `output` at `at`, consuming nothing. */
    method Peek(offset: SizeT, output: array<Byte>, at: SizeT, length: SizeT)
      returns (result: RingResult)
      requires HasMemory() && output != storage && at + length <= output.Length
      modifies output
      ensures result ==
              if !Valid() then InvalidState
              else if offset + length > |Contents()| then InsufficientData
              else Ok
      ensures result == Ok ==> output[at..at + length] == Contents()[offset..offset + length]
      ensures result != Ok ==> unchanged(output)
      ensures output[..at] == old(output[..at])
      ensures output[at + length..] == old(output[at + length..])
    {
      var valid := StateIsValid();
      if !valid {
        return InvalidState;
      }
      if offset > used {
        return InsufficientData;
      }
      if length == 0 {
        return Ok;
      }
      if length > used - offset {
        return InsufficientData;
      }
      hide Window;
      hide AdvanceIndex;
      var start := AdvanceIndex(readIndex, offset, capacity);
      CopyOut(storage, capacity, start, output, at, length);
      WindowFetched(storage[..], capacity, readIndex, used, offset, length);
      return Ok;
    }

    /** Drops the `length` oldest bytes, all or none. */
    method Discard(length: SizeT) returns (result: RingResult)
      requires HasMemory()
      modifies this`readIndex, this`used
      ensures result ==
              if !old(Valid()) then InvalidState
              else if length > |old(Contents())| then InsufficientData
              else Ok
      ensures result == Ok ==> Valid() && Contents() == old(Contents())[length..]
      ensures result != Ok ==> unchanged(this)
    {
      var valid := StateIsValid();
      if !valid {
        return InvalidState;
      }
      if length > used {
        return InsufficientData;
      }
      if length == 0 {
        return Ok;
      }
      WindowSplit(storage[..], capacity, readIndex, used, length);
      readIndex := AdvanceIndex(readIndex, length, capacity);
      used := used - length;
      return Ok;
    }

    /** Moves the `length` oldest bytes out, all or none. */
    method Read(output: array<Byte>, length: SizeT) returns (result: RingResult)
      requires HasMemory() && output != storage && length <= output.Length
      modifies this`readIndex, this`used, output
      ensures result ==
              if !old(Valid()) then InvalidState
              else if length > |old(Contents())| then InsufficientData
              else Ok
      ensures result == Ok ==>
                && Valid()
                && output[..length] == old(Contents())[..length]
                && Contents() == old(Contents())[length..]
      ensures result != Ok ==> unchanged(this) && unchanged(output)
      ensures output[length..] == old(output[length..])
    {
      result := Peek(0, output, 0, length);
      if result != Ok {
        return result;
      }
      ghost var whole := Contents();
      assert output[0..length] == output[..length];
      result := Discard(length);
    }
  }
}
