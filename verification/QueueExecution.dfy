/** Runs of the byte queue itself: executing operations on the array does what the runs of
    QueueRuns say, so what is proved of those runs holds of the array. */
module QueueExecution {
  import opened Bytes
  import opened Wrappers
  import opened Varint
  import opened QueueModel
  import opened QueueRuns
  import opened ByteQueue

  function Payloads(bs: seq<Block>): seq<seq<byte>> {
    if bs == [] then [] else [bs[0].data] + Payloads(bs[1..])
  }

  lemma {:induction false} PayloadsConcat(a: seq<Block>, b: seq<Block>)
    ensures Payloads(a + b) == Payloads(a) + Payloads(b)
    decreases |a|
  {
    if a == [] {
      assert a + b == b;
    } else {
      assert (a + b)[1..] == a[1..] + b;
      PayloadsConcat(a[1..], b);
    }
  }

  /** One operation; `out` is what a Pop returned. */
  method ExecuteOne(q: BytesQueue, op: Op) returns (out: seq<seq<byte>>)
    requires q.Valid() && Allowed(q.View(), op)
    modifies q, q.bytes, q.headerBuffer
    ensures q.Valid() && (q.bytes == old(q.bytes) || fresh(q.bytes))
    ensures q.bytes != old(q.bytes) ==> old(q.bytes)[..] == old(q.bytes[..])
    ensures q.View() == Step(old(q.View()), op)
    ensures !op.Reset? ==> out == Payloads(Removed(old(q.View()), op))
  {
    out := [];
    ghost var v := q.View();
    match op
    case Push(entry) =>
      var _ := q.Push(entry);
    case Pop =>
      var r := q.Pop();
      if r.Ok? {
        out := [r.value.bytes[r.value.lo..r.value.hi]];
      }
      assert v.Contents() != [] ==> Removed(v, op) == [v.Contents()[0]];
      assert v.Contents() == [] ==> Removed(v, op) == [];
    case Reset =>
      q.Reset();
  }

  /** Any sequence of operations: the queue goes through the run, and the pops hand out, in
      order, the payloads the run removes. In the array the queue had at the start every
      block that is not popped keeps its bytes, whether or not that array is still in use. */
  method Execute(q: BytesQueue, ops: seq<Op>) returns (out: seq<seq<byte>>)
    requires q.Valid() && AllAllowed(q.View(), ops)
    modifies q, q.bytes, q.headerBuffer
    ensures q.Valid() && (q.bytes == old(q.bytes) || fresh(q.bytes))
    ensures q.View() == Run(old(q.View()), ops)
    ensures NoReset(ops) ==> out == Payloads(AllRemoved(old(q.View()), ops))
    ensures forall b <- old(q.View()).Contents() | Survives(old(q.View()), ops, b) :: Stored(old(q.bytes)[..], b)
    decreases |ops|
  {
    hide Step, Allowed, Removed, Layout.Valid, Stored;
    if ops == [] {
      return [];
    }
    ghost var v := q.View();
    SurvivorsStay(v, ops);
    out := ExecuteOne(q, ops[0]);
    var rest := Execute(q, ops[1..]);
    out := out + rest;
    PayloadsConcat(Removed(v, ops[0]), AllRemoved(Step(v, ops[0]), ops[1..]));
    assert NoReset(ops) ==> NoReset(ops[1..]);
  }

  lemma SurvivorsStay(v: Layout, ops: seq<Op>)
    requires v.Valid() && AllAllowed(v, ops) && ops != []
    ensures forall b <- v.Contents() | Survives(v, ops, b) ::
              b in Step(v, ops[0]).Contents() && Survives(Step(v, ops[0]), ops[1..], b)
  {
    hide Step, Allowed, Removed, Layout.Valid;
    forall b <- v.Contents() | Survives(v, ops, b)
      ensures b in Step(v, ops[0]).Contents()
    {
      StaysOnce(v, ops[0], b);
    }
  }

  /** The index of a push reads back the entry after any further operations, as long as the
      entry is not popped and the queue not reset. */
  method PushExecuteGet(q: BytesQueue, entry: seq<byte>, ops: seq<Op>) returns (r: Result<Slice, Error>)
    requires q.Valid() && AllAllowed(q.View(), [Op.Push(entry)] + ops)
    requires q.View().Push(entry).1.Index?
    requires Survives(Step(q.View(), Op.Push(entry)), ops,
                      Block(q.View().Push(entry).1.value, NeededSize(|entry|), entry))
    modifies q, q.bytes, q.headerBuffer
    ensures q.Valid() && r.Ok? && r.value.Shows(entry)
  {
    ghost var v := q.View();
    IndexStaysValid(v, entry, ops);
    v.PushIndex(entry);
    assert ([Op.Push(entry)] + ops)[1..] == ops;
    var pushed := q.Push(entry);
    assert q.View() == Step(v, Op.Push(entry));
    var _ := Execute(q, ops);
    assert q.View() == Run(v, [Op.Push(entry)] + ops);
    r := q.Get(pushed.value);
  }

  /** A slice that Get has returned shares the array, and still shows its entry after any
      further operations that do not pop the entry or reset the queue. */
  method GetExecuteReread(q: BytesQueue, b: Block, ops: seq<Op>) returns (slice: Slice)
    requires q.Valid() && AllAllowed(q.View(), ops)
    requires b in q.View().Contents() && Survives(q.View(), ops, b)
    modifies q, q.bytes, q.headerBuffer
    ensures slice.Shows(b.data)
  {
    var r := q.Get(b.index);
    slice := r.value;
    var _ := Execute(q, ops);
    BoundsOfStored(slice.bytes[..], b);
  }
}
