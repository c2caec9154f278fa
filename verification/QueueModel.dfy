/** What the byte queue holds, apart from the bytes themselves: the blocks, where each of
    them starts, and the index arithmetic that moves head, tail and rightMargin around. */
module QueueModel {
  import opened Bytes
  import opened Varint

  const LEFT_MARGIN := 1
  const MINIMUM_HEADER_SIZE := 17

  /** One block of the array: an encoded size followed by the payload. */
  datatype Block = Block(index: nat, size: nat, data: seq<byte>) {
    function End(): nat { index + size }

    ghost predicate Valid() {
      1 <= size < VARINT_LIMIT && size == |Encode(size)| + |data|
    }
  }

  /** The blocks `bs` cover [lo, hi) from left to right without gap or overlap. */
  ghost predicate Tiles(bs: seq<Block>, lo: nat, hi: nat) {
    if bs == [] then lo == hi
    else bs[0].index == lo && bs[0].Valid() && Tiles(bs[1..], bs[0].End(), hi)
  }

  lemma {:induction false} TilesBounds(bs: seq<Block>, lo: nat, hi: nat)
    requires Tiles(bs, lo, hi)
    ensures lo + |bs| <= hi
    ensures forall b <- bs :: b.Valid() && lo <= b.index && b.End() <= hi
  {
    if bs != [] {
      TilesBounds(bs[1..], bs[0].End(), hi);
      assert forall b <- bs :: b == bs[0] || b in bs[1..];
    }
  }

  lemma {:induction false} TilesLast(bs: seq<Block>, lo: nat, hi: nat)
    requires Tiles(bs, lo, hi) && bs != []
    ensures bs[0].index == lo && bs[|bs| - 1].End() == hi
  {
    if |bs| > 1 {
      TilesLast(bs[1..], bs[0].End(), hi);
    }
  }

  lemma {:induction false} TilesConcat(left: seq<Block>, right: seq<Block>, lo: nat, mid: nat, hi: nat)
    requires Tiles(left, lo, mid) && Tiles(right, mid, hi)
    ensures Tiles(left + right, lo, hi)
  {
    if left == [] {
      assert left + right == right;
    } else {
      TilesConcat(left[1..], right, left[0].End(), mid, hi);
      assert (left + right)[1..] == left[1..] + right;
    }
  }

  lemma TilesSnoc(bs: seq<Block>, b: Block, lo: nat)
    requires Tiles(bs, lo, b.index) && b.Valid()
    ensures Tiles(bs + [b], lo, b.End())
  {
    TilesConcat(bs, [b], lo, b.index, b.End());
  }

  /** No two blocks of a tiling start at the same index. */
  lemma {:induction false} TilesDistinct(bs: seq<Block>, lo: nat, hi: nat)
    requires Tiles(bs, lo, hi)
    ensures forall i, j | 0 <= i < j < |bs| :: bs[i].End() <= bs[j].index && bs[i].index < bs[j].index
  {
    if bs != [] {
      TilesDistinct(bs[1..], bs[0].End(), hi);
      TilesBounds(bs[1..], bs[0].End(), hi);
      forall i, j | 0 <= i < j < |bs|
        ensures bs[i].End() <= bs[j].index && bs[i].index < bs[j].index
      {
        assert bs[j] == bs[1..][j - 1];
        assert bs[j] in bs[1..];
        if i > 0 {
          assert bs[i] == bs[1..][i - 1];
        }
      }
    }
  }

  datatype Outcome = Index(value: nat) | FullQueue

  /** The indices of a queue and the blocks its two segments hold: `upper` fills
      [head, rightMargin), `lower` fills [1, tail) once the tail has wrapped. */
  datatype Layout = Layout(full: bool, capacity: nat, maxCapacity: int,
                       head: nat, tail: nat, rightMargin: nat,
                       upper: seq<Block>, lower: seq<Block>) {

    /** The blocks in the order in which Pop will return them. */
    function Contents(): seq<Block> { upper + lower }

    ghost predicate Valid() {
      && LEFT_MARGIN <= head && LEFT_MARGIN <= tail
      && Tiles(upper, head, rightMargin)
      && (upper != [] ==> rightMargin <= capacity)
      && (tail < head || full ==>
            && upper != []
            && LEFT_MARGIN < head && tail <= head
            && Tiles(lower, LEFT_MARGIN, tail)
            && (full <==> tail == head))
      && (tail >= head && !full ==>
            && lower == []
            && tail == rightMargin
            && (upper == [] ==> head == LEFT_MARGIN))
    }

    predicate Wrapped() { tail < head || full }

    predicate CanInsertAfterTail(need: nat) {
      if full then false
      else if tail >= head then capacity - tail >= need
      else head - tail == need || head - tail >= need + MINIMUM_HEADER_SIZE
    }

    predicate CanInsertBeforeHead(need: nat) {
      if full then false
      else if tail >= head then
        head - LEFT_MARGIN == need || head - LEFT_MARGIN >= need + MINIMUM_HEADER_SIZE
      else head - tail == need || head - tail >= need + MINIMUM_HEADER_SIZE
    }

    /** Pushing `need` bytes has to allocate a larger array. */
    predicate MustGrow(need: nat) {
      !CanInsertAfterTail(need) && !CanInsertBeforeHead(need)
    }

    predicate LimitReached(need: nat) {
      capacity + need >= maxCapacity && maxCapacity > 0
    }

    /** The bytes between tail and head that growth turns into a filler block. */
    function Gap(): nat { if tail < head then head - tail else 0 }

    /** What the header buffer can encode: the entry's size and, when the array has to
        grow, the size of the filler. */
    predicate Encodable(need: nat) {
      need < VARINT_LIMIT && (MustGrow(need) && !LimitReached(need) ==> Gap() < VARINT_LIMIT)
    }

    /** The tail has room for `size` bytes before it meets the head or the array's end. */
    predicate HasRoom(size: nat) {
      tail + size <= if Wrapped() then head else capacity
    }

    /** Where the array grows to. */
    function GrownCapacity(minimum: nat): nat {
      var fitting := if capacity < minimum then capacity + minimum else capacity;
      if maxCapacity > 0 && 2 * fitting > maxCapacity then maxCapacity else 2 * fitting
    }

    /** One block written at the tail. */
    function Append(size: nat, data: seq<byte>): Layout {
      var b := Block(tail, size, data);
      var t := tail + size;
      if t > head then this.(tail := t, rightMargin := t, full := full || t == head, upper := upper + [b])
      else this.(tail := t, full := full || t == head, lower := lower + [b])
    }

    function Filler(): seq<Block> {
      if tail < head
      then [Block(tail, Gap(), seq(Gap() - |Encode(Gap())|, _ => 0))]
      else []
    }

    /** The larger array: a wrapped queue is straightened out, its lower segment first,
        then a filler over the gap, then its upper segment. */
    function Grow(minimum: nat): Layout
    {
      var c := GrownCapacity(minimum);
      if Wrapped()
      then Layout(false, c, maxCapacity, LEFT_MARGIN, rightMargin, rightMargin, lower + Filler() + upper, [])
      else this.(capacity := c, full := false)
    }

    /** The queue just before the entry is written. */
    function MakeRoom(need: nat): Layout
    {
      if CanInsertAfterTail(need) then this
      else if CanInsertBeforeHead(need) then this.(tail := LEFT_MARGIN)
      else Grow(need)
    }

    function Push(entry: seq<byte>): (Layout, Outcome) {
      var need := NeededSize(|entry|);
      if MustGrow(need) && LimitReached(need) then (this, FullQueue)
      else
        var ready := MakeRoom(need);
        (ready.Append(need, entry), Index(ready.tail))
    }

    /** Removal of the first block; `head` wraps when the upper segment is used up. */
    function Pop(): Layout
      requires Valid() && Contents() != []
    {
      assert upper != [];
      var h := head + upper[0].size;
      if h == rightMargin then
        var t := if tail == rightMargin then LEFT_MARGIN else tail;
        Layout(false, capacity, maxCapacity, LEFT_MARGIN, t, t, lower, [])
      else this.(full := false, head := h, upper := upper[1..])
    }

    function Reset(): Layout {
      this.(full := false, head := LEFT_MARGIN, tail := LEFT_MARGIN, rightMargin := LEFT_MARGIN,
      upper := [], lower := [])
    }

    /** After growth the pending entry fits behind the tail. */
    lemma GrowHasRoom(need: nat)
      requires Valid() && need >= 1 && MustGrow(need) && !LimitReached(need)
      ensures capacity < GrownCapacity(need)
      ensures Grow(need).HasRoom(need) && !Grow(need).Wrapped()
    {
      TilesBounds(upper, head, rightMargin);
    }

    /** The growth policy: twice the capacity, or more if the entry alone is larger than the
        queue, but never more than the maximum. */
    lemma GrowthPolicy(need: nat)
      requires !LimitReached(need)
      ensures GrownCapacity(need) >= 2 * capacity || GrownCapacity(need) == maxCapacity
      ensures GrownCapacity(need) >= capacity + need
      ensures maxCapacity > 0 ==> GrownCapacity(need) <= maxCapacity
      ensures GrownCapacity(need) <= 2 * capacity + if capacity < need then 2 * need else 0
      ensures capacity < need && GrownCapacity(need) != maxCapacity ==> GrownCapacity(need) == 2 * (capacity + need)
    {
    }

    // ---- Where an entry goes, in terms of the blocks ----

    /** Behind the last block of the upper segment. */
    function Back(): nat {
      if upper == [] then LEFT_MARGIN else upper[|upper| - 1].End()
    }

    /** Behind the last block of the lower segment. */
    function Front(): nat {
      if lower == [] then LEFT_MARGIN else lower[|lower| - 1].End()
    }

    /** The space before the first block takes an entry that fills it exactly or leaves
        MINIMUM_HEADER_SIZE bytes of it. */
    predicate FrontTakes(need: nat) {
      upper != [] && (upper[0].index - Front() == need || upper[0].index - Front() >= need + MINIMUM_HEADER_SIZE)
    }

    lemma MarginsOfBlocks()
      requires Valid()
      ensures rightMargin == Back() && (upper != [] ==> head == upper[0].index)
      ensures upper == [] ==> head == LEFT_MARGIN && !Wrapped()
      ensures tail == if Wrapped() then Front() else Back()
    {
      if upper != [] {
        TilesLast(upper, head, rightMargin);
      }
      if Wrapped() && lower != [] {
        TilesLast(lower, LEFT_MARGIN, tail);
      }
    }

    /** The array grows exactly when neither the space behind the last block of an unwrapped
        queue nor the space before the first block takes the entry. */
    lemma GrowsExactlyWithoutSpace(need: nat)
      requires Valid() && need >= 1
      ensures MustGrow(need) <==> !FrontTakes(need) && (Wrapped() || capacity - Back() < need)
    {
      MarginsOfBlocks();
    }

    /** Where an entry of `need` bytes belongs: behind the last block of an unwrapped queue if
        there is room; else before the first block, behind what is there already, if that
        space takes it; else, in a larger array, behind all blocks, unless the limit forbids
        that. */
    function Placement(need: nat): Outcome {
      if !Wrapped() && capacity - Back() >= need then Index(Back())
      else if FrontTakes(need) then Index(Front())
      else if maxCapacity > 0 && capacity + need >= maxCapacity then FullQueue
      else Index(Back())
    }

    /** A push puts the entry where it belongs, and allocates a larger array only if neither
        the space behind the last nor that before the first block takes it. */
    lemma PushIndex(entry: seq<byte>)
      requires Valid() && Encodable(NeededSize(|entry|))
      ensures var need := NeededSize(|entry|);
              && Push(entry).1 == Placement(need)
              && (Push(entry).0.capacity != capacity <==>
                    !FrontTakes(need) && (Wrapped() || capacity - Back() < need) && Placement(need).Index?)
    {
      var need := NeededSize(|entry|);
      MarginsOfBlocks();
      HeaderIsExact(|entry|);
      if MustGrow(need) && !LimitReached(need) {
        GrowHasRoom(need);
      }
    }

    /** The filler is one block of zeros over exactly the bytes between the two segments. */
    lemma FillerIsGap()
      requires Valid() && Wrapped() && Gap() < VARINT_LIMIT
      ensures var gap := upper[0].index - Front();
              if gap == 0 then Filler() == []
              else |Filler()| == 1 && Filler()[0].index == Front() && Filler()[0].size == gap
                   && (forall x <- Filler()[0].data :: x == 0)
    {
      MarginsOfBlocks();
    }

    /** Behind the head, a push leaves no gap or one of at least MINIMUM_HEADER_SIZE bytes. */
    lemma PushLeavesNoSmallGap(entry: seq<byte>)
      requires Valid() && Encodable(NeededSize(|entry|)) && Push(entry).1.Index?
      ensures Push(entry).0.Gap() == 0 || Push(entry).0.Gap() >= MINIMUM_HEADER_SIZE
    {
    }

    lemma AppendValid(size: nat, data: seq<byte>)
      requires Valid() && HasRoom(size) && Block(tail, size, data).Valid()
      ensures Append(size, data).Valid()
    {
      TilesBounds(upper, head, rightMargin);
      var b := Block(tail, size, data);
      if tail + size > head {
        TilesSnoc(upper, b, head);
      } else {
        TilesSnoc(lower, b, LEFT_MARGIN);
      }
    }

    lemma FillerValid()
      requires Valid() && Gap() < VARINT_LIMIT
      ensures Wrapped() ==> Tiles(Filler(), tail, head)
    {
    }

    /** The test by which growth recognises a wrapped queue. */
    lemma WrappedTest()
      requires Valid()
      ensures Wrapped() <==> LEFT_MARGIN != rightMargin && tail <= head
    {
      TilesBounds(upper, head, rightMargin);
    }

    /** A larger capacity changes nothing else. */
    lemma EnlargedValid(minimum: nat)
      requires Valid() && GrownCapacity(minimum) > capacity
      ensures this.(capacity := GrownCapacity(minimum)).Valid()
      ensures if rightMargin == LEFT_MARGIN then Contents() == [] else rightMargin <= capacity
    {
      TilesBounds(upper, head, rightMargin);
    }

    /** A wrapped queue, straightened out, tiles the array up to its right margin. */
    lemma StraightValid()
      requires Valid() && Gap() < VARINT_LIMIT && Wrapped()
      ensures Tiles(lower + Filler() + upper, LEFT_MARGIN, rightMargin)
      ensures LEFT_MARGIN <= rightMargin <= capacity
    {
      FillerValid();
      TilesBounds(upper, head, rightMargin);
      TilesConcat(lower, Filler(), LEFT_MARGIN, tail, head);
      TilesConcat(lower + Filler(), upper, LEFT_MARGIN, head, rightMargin);
    }

    lemma GrowValid(minimum: nat)
      requires Valid() && capacity <= GrownCapacity(minimum) && Gap() < VARINT_LIMIT
      ensures Grow(minimum).Valid()
    {
      TilesBounds(upper, head, rightMargin);
      if Wrapped() {
        StraightValid();
      }
    }

    /** Room is made for every entry that is not refused: before the push the queue is
        consistent and its tail has the bytes the entry needs. */
    lemma MakeRoomValid(need: nat)
      requires Valid() && need >= 1 && Encodable(need) && !(MustGrow(need) && LimitReached(need))
      ensures MakeRoom(need).Valid() && MakeRoom(need).HasRoom(need)
      ensures Index(MakeRoom(need).tail) == Placement(need)
    {
      MarginsOfBlocks();
      TilesBounds(upper, head, rightMargin);
      if MustGrow(need) {
        GrowHasRoom(need);
        GrowValid(need);
      }
    }

    lemma EntryValid(entry: seq<byte>)
      requires NeededSize(|entry|) < VARINT_LIMIT
      ensures forall i: nat :: Block(i, NeededSize(|entry|), entry).Valid()
    {
      HeaderIsExact(|entry|);
    }

    lemma PushValid(entry: seq<byte>)
      requires Valid() && Encodable(NeededSize(|entry|))
      ensures Push(entry).0.Valid()
    {
      var need := NeededSize(|entry|);
      if !(MustGrow(need) && LimitReached(need)) {
        MakeRoomValid(need);
        EntryValid(entry);
        MakeRoom(need).AppendValid(need, entry);
      }
    }

    lemma PopValid()
      requires Valid() && Contents() != []
      ensures Pop().Valid() && Pop().Contents() == Contents()[1..]
      ensures upper != [] && upper[0].index == head
    {
      TilesBounds(upper[1..], upper[0].End(), rightMargin);
      if head + upper[0].size == rightMargin {
        assert upper[1..] == [];
        assert Contents()[1..] == lower;
      } else {
        assert Contents()[1..] == upper[1..] + lower;
      }
    }

    /** The effect of a push on what the queue holds, in every layout: the old blocks stay
        as they are unless a wrapped queue has to grow, and then the lower segment comes
        first; the entry is last. */
    lemma PushContents(entry: seq<byte>)
      requires Valid() && Encodable(NeededSize(|entry|))
      ensures var need := NeededSize(|entry|);
              var (after, outcome) := Push(entry);
              if MustGrow(need) && LimitReached(need) then
                outcome == FullQueue && after == this
              else
                && outcome.Index?
                && after.Contents() ==
                   (if MustGrow(need) && Wrapped() then lower + Filler() + upper else Contents())
                   + [Block(outcome.value, need, entry)]
    {
    }

    /** All blocks held start at different indices, so an index names one block. */
    lemma IndicesDistinct()
      requires Valid()
      ensures forall i, j | 0 <= i < j < |Contents()| :: Contents()[i].index != Contents()[j].index
    {
      TilesDistinct(upper, head, rightMargin);
      TilesBounds(upper, head, rightMargin);
      if Wrapped() {
        TilesDistinct(lower, LEFT_MARGIN, tail);
        TilesBounds(lower, LEFT_MARGIN, tail);
      }
      forall i, j | 0 <= i < j < |Contents()|
        ensures Contents()[i].index != Contents()[j].index
      {
        if i < |upper| <= j {
          assert Contents()[i] in upper && Contents()[j] in lower;
        }
      }
    }
  }
}
