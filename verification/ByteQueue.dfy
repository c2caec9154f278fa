/** The byte queue itself: the array, its indices, and the methods that update them in
    place, each proved against the index arithmetic of QueueModel. */
module ByteQueue {
  import opened Bytes
  import opened Varint
  import opened QueueModel
  import opened Wrappers

  /** SlicePanic stands for Go's panic on a slice out of bounds. */
  datatype Error = EmptyQueue | InvalidIndex | IndexOutOfBounds | FullLimit | SlicePanic

  /** `b` is in the array as its encoded size and its payload. */
  ghost predicate Stored(a: seq<byte>, b: Block) {
    b.End() <= |a| && a[b.index..b.End()] == Encode(b.size) + b.data
  }

  /** The array holds the bytes of every block of a consistent queue. */
  ghost predicate Holds(a: seq<byte>, v: Layout) {
    && v.Valid()
    && forall b <- v.Contents() :: Stored(a, b)
  }

  lemma StoredFrame(a: seq<byte>, a': seq<byte>, b: Block)
    requires Stored(a, b) && b.End() <= |a'|
    requires forall k | b.index <= k < b.End() :: a'[k] == a[k]
    ensures Stored(a', b)
  {
  }

  /** A slice of an array, as Go hands it out: it shares the array's bytes. */
  datatype Slice = Slice(bytes: array<byte>, lo: nat, hi: nat) {
    ghost predicate Shows(data: seq<byte>)
      reads bytes
    {
      lo <= hi <= bytes.Length && bytes[lo..hi] == data
    }
  }

  /** The slice of an array behind the header of a block. */
  ghost function PayloadSlice(bytes: array<byte>, b: Block): Slice
    requires b.Valid()
  {
    Slice(bytes, b.index + |Encode(b.size)|, b.End())
  }

  /** What peek computes from the bytes at `index`: the bounds of the payload, which Go
      checks, and the size of the block. */
  function Bounds(a: seq<byte>, index: nat): (r: Result<(nat, nat, nat), Error>)
    requires index <= |a|
    ensures if r.Ok? then r.value.0 <= r.value.1 <= |a| else r.error == SlicePanic
  {
    var d := Uvarint(a[index..], 0);
    var lo, hi := index + d.n, index + d.value;
    if 0 <= lo <= hi <= |a| then Ok((lo, hi, d.value)) else Err(SlicePanic)
  }

  /** At the index of a stored block peek finds its payload and its size. */
  lemma BoundsOfStored(a: seq<byte>, b: Block)
    requires Stored(a, b) && b.Valid()
    ensures Bounds(a, b.index) == Ok((b.index + |Encode(b.size)|, b.End(), b.size))
    ensures a[b.index + |Encode(b.size)|..b.End()] == b.data
  {
    var e := Encode(b.size);
    EncodeLength(b.size);
    assert a[b.index..] == a[b.index..b.End()] + a[b.End()..];
    assert a[b.index..] == e + (b.data + a[b.End()..]);
    DecodeEncode(b.size, b.data + a[b.End()..]);
    assert a[b.index + |e|..b.End()] == a[b.index..b.End()][|e|..];
  }

  class BytesQueue {
    var full: bool
    var bytes: array<byte>
    var capacity: nat
    var maxCapacity: int
    var head: nat
    var tail: nat
    var count: nat
    var rightMargin: nat
    const headerBuffer: array<byte>

    // The blocks of the upper and of the lower segment.
    ghost var upper: seq<Block>
    ghost var lower: seq<Block>

    ghost function View(): Layout
      reads this
    {
      Layout(full, capacity, maxCapacity, head, tail, rightMargin, upper, lower)
    }

    ghost predicate Valid()
      reads this, bytes, headerBuffer
    {
      && bytes != headerBuffer
      && bytes.Length == capacity && headerBuffer.Length == HEADER_BUFFER_SIZE
      && count == |View().Contents()|
      && Holds(bytes[..], View())
    }

    /** NewBytesQueue. */
    constructor (capacity: nat, maxCapacity: int)
      ensures Valid() && fresh(bytes) && fresh(headerBuffer)
      ensures View() == Layout(false, capacity, maxCapacity, LEFT_MARGIN, LEFT_MARGIN, LEFT_MARGIN, [], [])
    {
      bytes := new byte[capacity];
      headerBuffer := new byte[HEADER_BUFFER_SIZE];
      this.capacity, this.maxCapacity := capacity, maxCapacity;
      head, tail, rightMargin := LEFT_MARGIN, LEFT_MARGIN, LEFT_MARGIN;
      count, full := 0, false;
      upper, lower := [], [];
    }

    method Reset()
      requires Valid()
      modifies this
      ensures Valid() && bytes == old(bytes)
      ensures View() == old(View()).Reset()
    {
      tail, head, rightMargin := LEFT_MARGIN, LEFT_MARGIN, LEFT_MARGIN;
      count, full := 0, false;
      upper, lower := [], [];
    }

    /** Appends `entry`, in freed space or a larger array when the tail has no room. */
    method Push(entry: seq<byte>) returns (r: Result<nat, Error>)
      requires Valid() && View().Encodable(NeededSize(|entry|))
      modifies this, bytes, headerBuffer
      ensures Valid() && (bytes == old(bytes) || fresh(bytes))
      ensures bytes != old(bytes) ==> old(bytes)[..] == old(bytes[..])
      ensures bytes == old(bytes) && r.Ok? ==>
                forall k | 0 <= k < bytes.Length && !(r.value <= k < r.value + NeededSize(|entry|)) ::
                  bytes[k] == old(bytes[k])
      ensures View() == old(View()).Push(entry).0
      ensures r == match old(View()).Placement(NeededSize(|entry|))
                   case Index(i) => Ok(i)
                   case FullQueue => Err(FullLimit)
    {
      var neededSize := NeededSize(|entry|);
      ghost var v := View();
      v.PushIndex(entry);
      if !(v.MustGrow(neededSize) && v.LimitReached(neededSize)) {
        v.MakeRoomValid(neededSize);
      }
      if !CanInsertAfterTail(neededSize) {
        if CanInsertBeforeHead(neededSize) {
          tail := LEFT_MARGIN;
        } else if capacity + neededSize >= maxCapacity && maxCapacity > 0 {
          return Err(FullLimit);
        } else {
          AllocateAdditionalMemory(neededSize);
        }
      }
      var index := tail;
      HeaderIsExact(|entry|);
      assert entry[..|entry|] == entry;
      PushBlock(entry, neededSize);
      r := Ok(index);
    }

    /** Moves the queue to a larger array. A wrapped queue is straightened out on the way:
        a filler closes the gap before the head, so that no stored block has to move. */
    method AllocateAdditionalMemory(minimum: nat)
      requires Valid() && View().MustGrow(minimum) && !View().LimitReached(minimum)
      requires minimum >= 1 && View().Gap() < VARINT_LIMIT
      modifies this, headerBuffer
      ensures Valid() && fresh(bytes)
      ensures View() == old(View()).Grow(minimum)
    {
      View().GrowHasRoom(minimum);
      View().WrappedTest();
      Enlarge(minimum);
      if LEFT_MARGIN != rightMargin {
        if tail <= head {
          Straighten();
        }
      }
      full := false;
    }

    /** The new array, with everything up to the right margin copied into it. */
    method Enlarge(minimum: nat)
      requires Valid() && View().GrownCapacity(minimum) > capacity
      modifies this
      ensures Valid() && fresh(bytes)
      ensures View() == old(View()).(capacity := old(View()).GrownCapacity(minimum))
    {
      ghost var v, a := View(), bytes[..];
      v.EnlargedValid(minimum);
      hide Holds, QueueModel.Layout.Valid;
      RaiseCapacity(minimum);
      var newArray := new byte[capacity](_ => 0);
      if LEFT_MARGIN != rightMargin {
        CopyPrefix(newArray, bytes, rightMargin);
      }
      HoldsEnlarged(a, newArray[..], v, minimum);
      bytes := newArray;
    }

    /** The capacity doubles, after room for a large entry is added, up to the maximum. */
    method RaiseCapacity(minimum: nat)
      modifies this`capacity
      ensures capacity == old(View()).GrownCapacity(minimum)
    {
      if capacity < minimum {
        capacity := capacity + minimum;
      }
      capacity := capacity * 2;
      if maxCapacity > 0 && capacity > maxCapacity {
        capacity := maxCapacity;
      }
    }

    /** Fills the gap of a wrapped queue and makes its lower segment the first. */
    method Straighten()
      requires Valid() && View().Wrapped() && View().Gap() < VARINT_LIMIT
      modifies this, bytes, headerBuffer
      ensures Valid() && bytes == old(bytes) && !full
      ensures View() == var v := old(View());
                        Layout(false, v.capacity, v.maxCapacity, LEFT_MARGIN, v.rightMargin, v.rightMargin,
                                        v.lower + v.Filler() + v.upper, [])
    {
      ghost var v := View();
      if tail != head {
        FillGap();
      } else {
        assert v.lower + v.Filler() == v.lower;
      }
      HoldsStraight(bytes[..], View());
      hide Holds, QueueModel.Layout.Valid;
      label Swapped:
      assert |lower + upper| == |upper + lower|;
      upper, lower, head, tail, full := lower + upper, [], LEFT_MARGIN, rightMargin, false;
      assert bytes[..] == old@Swapped(bytes[..]);
    }

    /** The bytes between tail and head become one zero-filled block. */
    method FillGap()
      requires Valid() && tail < head && View().Gap() < VARINT_LIMIT
      modifies this, bytes, headerBuffer
      ensures Valid() && bytes == old(bytes)
      ensures View() == old(View()).(full := true, tail := head, lower := old(lower + View().Filler()))
    {
      ghost var v := View();
      EncodeLength(v.Gap());
      var blank: seq<byte> := seq(head - tail, _ => 0);
      assert blank[..v.Gap() - |Encode(v.Gap())|] == seq(v.Gap() - |Encode(v.Gap())|, _ => 0);
      PushBlock(blank, head - tail);
    }

    /** push: header and payload are written at the tail, which must have room for them. */
    method PushBlock(data: seq<byte>, len: nat)
      requires Valid() && View().HasRoom(len) && 1 <= len < VARINT_LIMIT
      requires len - |Encode(len)| <= |data|
      modifies this, bytes, headerBuffer
      ensures Valid() && bytes == old(bytes)
      ensures forall k | 0 <= k < bytes.Length && !(old(tail) <= k < old(tail) + len) :: bytes[k] == old(bytes[k])
      ensures View() == old(View()).Append(len, data[..len - |Encode(len)|])
    {
      hide Holds, QueueModel.Layout.Valid;
      ghost var v, a := View(), bytes[..];
      ghost var b := Block(tail, len, data[..len - |Encode(len)|]);
      EncodeLength(len);
      RoomIsFree(a, v, len);
      WriteBlock(data, len);
      HoldsAppend(a, bytes[..], v, b);
      if tail > head {
        rightMargin := tail;
        upper := upper + [b];
      } else {
        lower := lower + [b];
      }
      if tail == head {
        full := true;
      }
      count := count + 1;
    }

    /** The two copies of push: the encoded size, then the payload. */
    method WriteBlock(data: seq<byte>, len: nat)
      requires bytes != headerBuffer && headerBuffer.Length == HEADER_BUFFER_SIZE
      requires 1 <= len < VARINT_LIMIT && tail + len <= bytes.Length
      requires len - |Encode(len)| <= |data|
      modifies this`tail, bytes, headerBuffer
      ensures tail == old(tail) + len
      ensures bytes[..] == old(bytes[..tail]) + Encode(len) + data[..len - |Encode(len)|] + old(bytes[..])[tail..]
      ensures forall k | 0 <= k < bytes.Length && !(old(tail) <= k < tail) :: bytes[k] == old(bytes[k])
    {
      EncodeLength(len);
      var headerEntrySize := PutUvarint(headerBuffer, len);
      ghost var before := bytes[..];
      Copy(headerBuffer[..headerEntrySize]);
      Copy(data[..len - headerEntrySize]);
      assert forall k | 0 <= k < |before| && !(old(tail) <= k < tail) :: bytes[..][k] == before[k];
    }

    /** Copies as much of `data` to the tail as the array can take. */
    method Copy(data: seq<byte>)
      requires tail <= bytes.Length
      modifies this`tail, bytes
      ensures tail == old(tail) + (if |data| <= bytes.Length - old(tail) then |data| else bytes.Length - old(tail))
      ensures bytes[..] == old(bytes[..tail]) + data[..tail - old(tail)] + old(bytes[..])[tail..]
    {
      var n := if |data| <= bytes.Length - tail then |data| else bytes.Length - tail;
      forall i | 0 <= i < n {
        bytes[tail + i] := data[i];
      }
      tail := tail + n;
    }

    predicate CanInsertAfterTail(need: nat)
      reads this
      ensures CanInsertAfterTail(need) == View().CanInsertAfterTail(need)
    {
      if full then false
      else if tail >= head then capacity - tail >= need
      else head - tail == need || head - tail >= need + MINIMUM_HEADER_SIZE
    }

    predicate CanInsertBeforeHead(need: nat)
      reads this
      ensures CanInsertBeforeHead(need) == View().CanInsertBeforeHead(need)
    {
      if full then false
      else if tail >= head then
        head - LEFT_MARGIN == need || head - LEFT_MARGIN >= need + MINIMUM_HEADER_SIZE
      else head - tail == need || head - tail >= need + MINIMUM_HEADER_SIZE
    }

    /** Removes the first block and returns its payload, as a slice of the array. */
    method Pop() returns (r: Result<Slice, Error>)
      requires Valid()
      modifies this
      ensures Valid() && bytes == old(bytes)
      ensures old(View()).Contents() == [] ==> r == Err(EmptyQueue) && View() == old(View())
      ensures old(View()).Contents() != [] ==>
                var b := old(View()).Contents()[0];
                b.Valid() && r == Ok(PayloadSlice(bytes, b)) && r.value.Shows(b.data) && View() == old(View()).Pop()
    {
      ghost var v := View();
      if v.Contents() != [] {
        v.PopValid();
      }
      var read := ReadAt(head);
      if read.Err? {
        return Err(read.error);
      }
      var (data, blockSize) := read.value;
      assert data.Shows(v.Contents()[0].data);
      DropFirst(blockSize);
      r := Ok(data);
    }

    /** The indices after the first block has been read. */
    method DropFirst(blockSize: nat)
      requires Valid() && View().Contents() != [] && blockSize == View().Contents()[0].size
      modifies this
      ensures Valid() && bytes == old(bytes)
      ensures View() == old(View()).Pop()
    {
      hide Holds, QueueModel.Layout.Valid;
      HoldsPop(bytes[..], View());
      head, count, full, upper := head + blockSize, count - 1, false, upper[1..];
      if head == rightMargin {
        head, upper, lower := LEFT_MARGIN, lower, [];
        if tail == rightMargin {
          tail := LEFT_MARGIN;
        }
        rightMargin := tail;
      }
      assert bytes[..] == old(bytes[..]);
    }

    /** Returns the first payload and leaves the queue as it is. */
    method Peek() returns (r: Result<Slice, Error>)
      requires Valid()
      ensures View().Contents() == [] ==> r == Err(EmptyQueue)
      ensures View().Contents() != [] ==>
                var b := View().Contents()[0];
                b.Valid() && r == Ok(PayloadSlice(bytes, b)) && r.value.Shows(b.data)
    {
      if View().Contents() != [] {
        View().PopValid();
      }
      var read := ReadAt(head);
      r := if read.Ok? then Ok(read.value.0) else Err(read.error);
    }

    /** Reads by index: the payload of the block that starts there. */
    method Get(index: int) returns (r: Result<Slice, Error>)
      requires Valid()
      ensures forall b <- View().Contents() | b.index == index ::
                b.Valid() && r == Ok(PayloadSlice(bytes, b)) && r.value.Shows(b.data)
      ensures r == Err(EmptyQueue) <==> View().Contents() == []
      ensures r == Err(InvalidIndex) <==> View().Contents() != [] && index <= 0
      ensures r == Err(IndexOutOfBounds) <==> View().Contents() != [] && index >= capacity
    {
      TilesBounds(upper, head, rightMargin);
      var read := ReadAt(index);
      r := if read.Ok? then Ok(read.value.0) else Err(read.error);
    }

    method CheckGet(index: int) returns (e: Result<(), Error>)
      requires Valid()
      ensures e == if View().Contents() == [] then Err(EmptyQueue)
                   else if index <= 0 then Err(InvalidIndex)
                   else if index >= capacity then Err(IndexOutOfBounds)
                   else Ok(())
    {
      if count == 0 {
        return Err(EmptyQueue);
      }
      if index <= 0 {
        return Err(InvalidIndex);
      }
      if index >= bytes.Length {
        return Err(IndexOutOfBounds);
      }
      e := Ok(());
    }

    /** peek: payload and size of the block at `index`. */
    method ReadAt(index: int) returns (r: Result<(Slice, nat), Error>)
      requires Valid()
      ensures View().Contents() == [] <==> r == Err(EmptyQueue)
      ensures View().Contents() != [] ==>
                r == if index <= 0 then Err(InvalidIndex)
                     else if index >= capacity then Err(IndexOutOfBounds)
                     else match Bounds(bytes[..], index)
                          case Ok((lo, hi, size)) => Ok((Slice(bytes, lo, hi), size))
                          case Err(e) => Err(e)
      ensures forall b <- View().Contents() | b.index == index ::
                b.Valid() && r == Ok((PayloadSlice(bytes, b), b.size)) && r.value.0.Shows(b.data)
    {
      hide Holds, QueueModel.Layout.Valid, QueueModel.Block.Valid, Bounds;
      HoldsBounds(bytes[..], View());
      var e := CheckGet(index);
      if e.Err? {
        return Err(e.error);
      }
      var bounds := Bounds(bytes[..], index);
      r := match bounds
      case Ok((lo, hi, size)) => Ok((Slice(bytes, lo, hi), size))
      case Err(e) => Err(e);
    }
  }

  /** Every block held is found at its index. */
  lemma HoldsBounds(a: seq<byte>, v: Layout)
    requires Holds(a, v) && |a| == v.capacity
    ensures forall b <- v.Contents() ::
              && b.Valid() && 1 <= b.index < |a| && b.End() <= |a|
              && Bounds(a, b.index) == Ok((b.index + |Encode(b.size)|, b.End(), b.size))
              && a[b.index + |Encode(b.size)|..b.End()] == b.data
  {
    TilesBounds(v.upper, v.head, v.rightMargin);
    if v.Wrapped() {
      TilesBounds(v.lower, LEFT_MARGIN, v.tail);
    }
    forall b <- v.Contents()
      ensures b.Valid() && 1 <= b.index < |a|
      ensures Bounds(a, b.index) == Ok((b.index + |Encode(b.size)|, b.End(), b.size))
      ensures a[b.index + |Encode(b.size)|..b.End()] == b.data
    {
      BoundsOfStored(a, b);
    }
  }

  /** Go's copy(to, from[:n]) between two arrays that both have room. */
  method CopyPrefix(to: array<byte>, from: array<byte>, n: nat)
    requires to != from && n <= to.Length && n <= from.Length
    modifies to
    ensures to[..n] == from[..n] && to[n..] == old(to[n..])
  {
    forall k | 0 <= k < n {
      to[k] := from[k];
    }
  }

  /** The blocks keep their bytes when everything up to the right margin is copied. */
  lemma HoldsEnlarged(a: seq<byte>, a': seq<byte>, v: Layout, minimum: nat)
    requires Holds(a, v) && v.capacity <= |a| && v.GrownCapacity(minimum) > v.capacity
    requires v.rightMargin != LEFT_MARGIN ==>
               v.rightMargin <= |a| && v.rightMargin <= |a'| && a'[..v.rightMargin] == a[..v.rightMargin]
    ensures Holds(a', v.(capacity := v.GrownCapacity(minimum)))
  {
    v.EnlargedValid(minimum);
    TilesBounds(v.upper, v.head, v.rightMargin);
    if v.Wrapped() {
      TilesBounds(v.lower, LEFT_MARGIN, v.tail);
    }
    forall b <- v.Contents()
      ensures Stored(a', b)
    {
      assert forall k | b.index <= k < b.End() :: a'[k] == a'[..v.rightMargin][k] == a[k];
      StoredFrame(a, a', b);
    }
  }

  /** Writing one block at the tail stores it and disturbs no other. */
  lemma HoldsAppend(a: seq<byte>, a': seq<byte>, v: Layout, b: Block)
    requires Holds(a, v) && v.capacity == |a| == |a'| && v.HasRoom(b.size)
    requires b.index == v.tail && b.Valid() && b.End() <= |a|
    requires a' == a[..b.index] + Encode(b.size) + b.data + a[b.End()..]
    ensures Holds(a', v.Append(b.size, b.data))
  {
    v.AppendValid(b.size, b.data);
    RoomIsFree(a, v, b.size);
    assert a'[b.index..b.End()] == Encode(b.size) + b.data;
    forall c <- v.Contents()
      ensures Stored(a', c)
    {
      StoredFrame(a, a', c);
    }
    assert forall c <- v.Append(b.size, b.data).Contents() :: c == b || c in v.Contents();
  }

  /** Once the gap is closed, the segments can change places: the bytes stay where they are. */
  lemma HoldsStraight(a: seq<byte>, v: Layout)
    requires Holds(a, v) && v.full
    ensures Holds(a, Layout(false, v.capacity, v.maxCapacity, LEFT_MARGIN, v.rightMargin, v.rightMargin,
                                     v.lower + v.upper, []))
    ensures v.tail == v.head
  {
    v.StraightValid();
    assert v.lower + v.Filler() + v.upper == v.lower + v.upper;
  }

  lemma HoldsPop(a: seq<byte>, v: Layout)
    requires Holds(a, v) && v.Contents() != []
    ensures v.upper != [] && v.upper[0] == v.Contents()[0]
    ensures Holds(a, v.Pop()) && |v.Pop().Contents()| == |v.Contents()| - 1
  {
    v.PopValid();
    assert forall b <- v.Contents()[1..] :: b in v.Contents();
  }

  /** The bytes a push writes belong to no block. */
  lemma RoomIsFree(a: seq<byte>, v: Layout, size: nat)
    requires Holds(a, v) && v.HasRoom(size)
    ensures v.tail + size <= v.capacity
    ensures forall b <- v.Contents() :: b.End() <= v.tail || v.tail + size <= b.index
  {
    TilesBounds(v.upper, v.head, v.rightMargin);
    if v.Wrapped() {
      TilesBounds(v.lower, LEFT_MARGIN, v.tail);
    }
  }
}
