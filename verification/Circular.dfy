/** Index arithmetic and contents of a circular array, shared by the byte ring and the frame queue. */
module Circular {
  import opened Machine

  /** Moves an index along the ring without forming a sum that could overflow. */
  function AdvanceIndex(index: SizeT, amount: SizeT, capacity: SizeT): (r: SizeT)
    requires index < capacity && amount <= capacity
    ensures r < capacity
  {
    var distanceToEnd: SizeT := capacity - index;
    if amount < distanceToEnd then index + amount else amount - distanceToEnd
  }

  /** The `n` elements of a circular array from index `start` on. */
  function Window<T>(s: seq<T>, capacity: SizeT, start: SizeT, n: SizeT): (w: seq<T>)
    requires start < capacity <= |s| && n <= capacity
    ensures |w| == n
    ensures forall i :: 0 <= i < n ==> w[i] == s[AdvanceIndex(start, i, capacity)]
  {
    if n <= capacity - start then s[start..start + n]
    else s[start..capacity] + s[..n - (capacity - start)]
  }

  lemma AdvanceTwice(start: SizeT, j: SizeT, k: SizeT, capacity: SizeT)
    requires start < capacity && j <= capacity && k <= capacity
    ensures var twice := AdvanceIndex(AdvanceIndex(start, j, capacity), k, capacity);
            && (j + k <= capacity ==> twice == AdvanceIndex(start, j + k, capacity))
            && (j + k >= capacity ==> twice == AdvanceIndex(start, j + k - capacity, capacity))
  {
  }

  lemma WindowSplit<T>(s: seq<T>, capacity: SizeT, start: SizeT, n: SizeT, k: SizeT)
    requires start < capacity <= |s| && k <= n <= capacity
    ensures Window(s, capacity, start, n)
         == Window(s, capacity, start, k) + Window(s, capacity, AdvanceIndex(start, k, capacity), n - k)
  {
    hide Window;
    hide AdvanceIndex;
    var whole, head := Window(s, capacity, start, n), Window(s, capacity, start, k);
    var tail := Window(s, capacity, AdvanceIndex(start, k, capacity), n - k);
    forall i | 0 <= i < n - k ensures whole[k + i] == tail[i] {
      AdvanceTwice(start, k, i, capacity);
    }
  }

  lemma WindowFetched<T>(s: seq<T>, capacity: SizeT, start: SizeT, n: SizeT, offset: SizeT, length: SizeT)
    requires start < capacity <= |s| && offset + length <= n <= capacity
    ensures Window(s, capacity, AdvanceIndex(start, offset, capacity), length)
         == Window(s, capacity, start, n)[offset..offset + length]
  {
    hide Window;
    hide AdvanceIndex;
    var part := Window(s, capacity, AdvanceIndex(start, offset, capacity), length);
    var whole := Window(s, capacity, start, n);
    forall i | 0 <= i < length ensures part[i] == whole[offset + i] {
      AdvanceTwice(start, offset, i, capacity);
    }
  }

  /** Storing past the used elements leaves the used elements alone and appends to them. */
  lemma WindowAppended<T>(s: seq<T>, t: seq<T>, capacity: SizeT, start: SizeT, used: SizeT, length: SizeT)
    requires start < capacity <= |s| == |t| && used + length <= capacity
    requires var end := AdvanceIndex(start, used, capacity);
             forall i :: length <= i < capacity ==>
               var k := AdvanceIndex(end, i, capacity);
               t[k] == s[k]
    ensures Window(t, capacity, start, used + length)
         == Window(s, capacity, start, used)
          + Window(t, capacity, AdvanceIndex(start, used, capacity), length)
  {
    hide Window;
    hide AdvanceIndex;
    var x, y := Window(t, capacity, start, used), Window(s, capacity, start, used);
    forall i | 0 <= i < used ensures x[i] == y[i] {
      AdvanceTwice(start, used, capacity - used + i, capacity);
    }
    assert x == y;
    WindowSplit(t, capacity, start, used + length, used);
  }

  lemma WindowOfOne<T>(s: seq<T>, capacity: SizeT, start: SizeT)
    requires start < capacity <= |s|
    ensures Window(s, capacity, start, 1) == [s[start]]
  {
  }

  /** Every other offset from an index lands elsewhere. */
  lemma OthersElsewhere(capacity: SizeT, start: SizeT)
    requires start < capacity
    ensures forall i :: 1 <= i < capacity ==> AdvanceIndex(start, i, capacity) != start
  {
  }
}
