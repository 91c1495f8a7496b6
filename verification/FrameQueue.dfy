/** The bounded frame queue that is not itself synchronised: a circular array of frames. */
module FrameQueue {
  import opened Machine
  import opened Frames
  import opened Circular

  datatype QueueResult = Ok | InvalidState | Full | Empty

  /** The optional statistics of the queue. */
  class QueueStats {
    var framesPushed: U64
    var framesPopped: U64
    var pushFullCount: U64
    var peakSize: SizeT

    method Observe(size: SizeT)
      modifies this`peakSize
      ensures peakSize == Max(old(peakSize), size)
    {
      if size > peakSize {
        peakSize := size;
      }
    }
  }

  class Queue {
    var storage: array<Frame>
    var capacity: SizeT
    var readIndex: SizeT
    var writeIndex: SizeT
    var used: SizeT

    ghost predicate HasMemory()
      reads this
    {
      capacity <= storage.Length
    }

    ghost predicate Valid()
      reads this
    {
      && HasMemory()
      && 0 < capacity
      && readIndex < capacity
      && used <= capacity
      && writeIndex == AdvanceIndex(readIndex, used, capacity)
    }

    /** The queued frames, oldest first. */
    ghost function Contents(): (s: seq<Frame>)
      requires Valid()
      reads this, storage
      ensures |s| == used
    {
      Window(storage[..], capacity, readIndex, used)
    }

    constructor (storage: array<Frame>, capacity: SizeT)
      requires 0 < capacity <= storage.Length
      ensures Valid() && Contents() == []
      ensures this.storage == storage && this.capacity == capacity
    {
      this.storage := storage;
      this.capacity := capacity;
      this.readIndex := 0;
      this.writeIndex := 0;
      this.used := 0;
    }

    method StateIsValid() returns (valid: bool)
      requires HasMemory()
      ensures valid <==> Valid()
    {
      if capacity == 0 {
        return false;
      }
      if readIndex >= capacity || writeIndex >= capacity || used > capacity {
        return false;
      }
      var expected := AdvanceIndex(readIndex, used, capacity);
      return writeIndex == expected;
    }

    method Size() returns (size: SizeT)
      requires HasMemory()
      ensures size == if Valid() then |Contents()| else 0
    {
      var valid := StateIsValid();
      return if valid then used else 0;
    }

    method FreeSpace() returns (space: SizeT)
      requires HasMemory()
      ensures space == if Valid() then capacity - |Contents()| else 0
    {
      var valid := StateIsValid();
      return if valid then capacity - used else 0;
    }

    method ResetStats(stats: QueueStats) returns (result: QueueResult)
      requires HasMemory()
      modifies stats
      ensures result == if Valid() then Ok else InvalidState
      ensures result == Ok ==>
                && stats.framesPushed == stats.framesPopped == stats.pushFullCount == 0
                && stats.peakSize == |Contents()|
      ensures result != Ok ==> unchanged(stats)
    {
      var valid := StateIsValid();
      if !valid {
        return InvalidState;
      }
      stats.framesPushed := 0;
      stats.framesPopped := 0;
      stats.pushFullCount := 0;
      stats.peakSize := used;
      return Ok;
    }

    /** Appends a frame, or reports a full queue. */
    method PushInternal(frame: Frame, stats: QueueStats?) returns (result: QueueResult)
      requires HasMemory()
      modifies this`writeIndex, this`used, storage, stats
      ensures result ==
              if !old(Valid()) then InvalidState
              else if |old(Contents())| == capacity then Full
              else Ok
      ensures result == Ok ==> Valid() && Contents() == old(Contents()) + [frame]
      ensures result != Ok ==> unchanged(this) && unchanged(storage)
      ensures stats != null ==>
                && stats.framesPopped == old(stats.framesPopped)
                && stats.framesPushed == AddSaturating(old(stats.framesPushed), if result == Ok then 1 else 0)
                && stats.pushFullCount == AddSaturating(old(stats.pushFullCount), if result == Full then 1 else 0)
                && stats.peakSize == if result == InvalidState then old(stats.peakSize)
                                     else Max(old(stats.peakSize), used)
    {
      var valid := StateIsValid();
      if !valid {
        return InvalidState;
      }
      if stats != null {
        stats.Observe(used);
      }
      if used == capacity {
        if stats != null {
          stats.pushFullCount := Increment(stats.pushFullCount);
        }
        return Full;
      }
      Store(frame);
      if stats != null {
        stats.framesPushed := Increment(stats.framesPushed);
        stats.Observe(used);
      }
      return Ok;
    }

    method Store(frame: Frame)
      requires Valid() && used < capacity
      modifies this`writeIndex, this`used, storage
      ensures Valid() && used == old(used) + 1 && Contents() == old(Contents()) + [frame]
    {
      hide Window;
      hide AdvanceIndex;
      ghost var before := storage[..];
      ghost var write := writeIndex;
      storage[writeIndex] := frame;
      WindowOfOne(storage[..], capacity, writeIndex);
      OthersElsewhere(capacity, writeIndex);
      WindowAppended(before, storage[..], capacity, readIndex, used, 1);
      AdvanceTwice(readIndex, used, 1, capacity);
      writeIndex := AdvanceIndex(writeIndex, 1, capacity);
      used := used + 1;
    }

    /** Takes the oldest frame, or reports an empty queue. */
    method PopInternal(frame: FrameSlot, stats: QueueStats?) returns (result: QueueResult)
      requires HasMemory()
      modifies this`readIndex, this`used, frame, stats
      ensures result ==
              if !old(Valid()) then InvalidState
              else if old(Contents()) == [] then Empty
              else Ok
      ensures result == Ok ==> Valid() && old(Contents()) == [frame.value] + Contents()
      ensures result != Ok ==> unchanged(this) && frame.value == old(frame.value)
      ensures stats != null ==>
                && stats.framesPushed == old(stats.framesPushed)
                && stats.pushFullCount == old(stats.pushFullCount)
                && stats.framesPopped == AddSaturating(old(stats.framesPopped), if result == Ok then 1 else 0)
                && stats.peakSize == if result == InvalidState then old(stats.peakSize)
                                     else Max(old(stats.peakSize), old(used))
    {
      var valid := StateIsValid();
      if !valid {
        return InvalidState;
      }
      if stats != null {
        stats.Observe(used);
      }
      if used == 0 {
        return Empty;
      }
      hide Window;
      WindowOfOne(storage[..], capacity, readIndex);
      WindowSplit(storage[..], capacity, readIndex, used, 1);
      frame.value := storage[readIndex];
      readIndex := AdvanceIndex(readIndex, 1, capacity);
      used := used - 1;
      if stats != null {
        stats.framesPopped := Increment(stats.framesPopped);
      }
      return Ok;
    }
  }
}
