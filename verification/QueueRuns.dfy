/** Whole runs of the byte queue: what a sequence of pushes, pops and resets keeps. */
module QueueRuns {
  import opened Bytes
  import opened Varint
  import opened QueueModel

  datatype Op = Push(entry: seq<byte>) | Pop | Reset

  /** The header buffer can hold the sizes this operation writes. */
  ghost predicate Allowed(v: Layout, op: Op) {
    op.Push? ==> v.Encodable(NeededSize(|op.entry|))
  }

  ghost function Step(v: Layout, op: Op): (v': Layout)
    requires v.Valid() && Allowed(v, op)
    ensures v'.Valid()
  {
    match op
    case Push(entry) => v.PushValid(entry); v.Push(entry).0
    case Pop => if v.Contents() == [] then v else v.PopValid(); v.Pop()
    case Reset => v.Reset()
  }

  /** Every operation of `ops` is allowed when its turn comes. */
  ghost predicate AllAllowed(v: Layout, ops: seq<Op>)
    requires v.Valid()
    decreases |ops|
  {
    ops == [] || (Allowed(v, ops[0]) && AllAllowed(Step(v, ops[0]), ops[1..]))
  }

  ghost function Run(v: Layout, ops: seq<Op>): (v': Layout)
    requires v.Valid() && AllAllowed(v, ops)
    ensures v'.Valid()
    decreases |ops|
  {
    if ops == [] then v else Run(Step(v, ops[0]), ops[1..])
  }

  // ---- What goes in and out ----

  ghost predicate GrowsWrapped(v: Layout, op: Op) {
    && op.Push?
    && var need := NeededSize(|op.entry|);
       v.MustGrow(need) && !v.LimitReached(need) && v.Wrapped()
  }

  ghost function Pushed(v: Layout, op: Op): seq<Block> {
    if op.Push? && v.Push(op.entry).1.Index?
    then [Block(v.Push(op.entry).1.value, NeededSize(|op.entry|), op.entry)]
    else []
  }

  ghost function Fillers(v: Layout, op: Op): seq<Block> {
    if GrowsWrapped(v, op) then v.Filler() else []
  }

  ghost function Removed(v: Layout, op: Op): seq<Block> {
    match op
    case Push(_) => []
    case Pop => v.Contents()[..if v.Contents() == [] then 0 else 1]
    case Reset => v.Contents()
  }

  ghost function AllPushed(v: Layout, ops: seq<Op>): seq<Block>
    requires v.Valid() && AllAllowed(v, ops)
    decreases |ops|
  {
    if ops == [] then [] else Pushed(v, ops[0]) + AllPushed(Step(v, ops[0]), ops[1..])
  }

  ghost function AllFillers(v: Layout, ops: seq<Op>): seq<Block>
    requires v.Valid() && AllAllowed(v, ops)
    decreases |ops|
  {
    if ops == [] then [] else Fillers(v, ops[0]) + AllFillers(Step(v, ops[0]), ops[1..])
  }

  ghost function AllRemoved(v: Layout, ops: seq<Op>): seq<Block>
    requires v.Valid() && AllAllowed(v, ops)
    decreases |ops|
  {
    if ops == [] then [] else Removed(v, ops[0]) + AllRemoved(Step(v, ops[0]), ops[1..])
  }

  /** A queue that starts within its maximum capacity stays within it. */
  lemma {:induction false} CapacityStaysWithinMaximum(v: Layout, ops: seq<Op>)
    requires v.Valid() && AllAllowed(v, ops) && v.maxCapacity > 0 && v.capacity <= v.maxCapacity
    ensures Run(v, ops).maxCapacity == v.maxCapacity && v.capacity <= Run(v, ops).capacity <= v.maxCapacity
    decreases |ops|
  {
    hide Step, Allowed, Layout.Valid;
    if ops != [] {
      StepKeepsCapacity(v, ops[0]);
      CapacityStaysWithinMaximum(Step(v, ops[0]), ops[1..]);
    }
  }

  lemma StepKeepsCapacity(v: Layout, op: Op)
    requires v.Valid() && Allowed(v, op) && v.maxCapacity > 0 && v.capacity <= v.maxCapacity
    ensures Step(v, op).maxCapacity == v.maxCapacity && v.capacity <= Step(v, op).capacity <= v.maxCapacity
  {
    if op.Push? {
      var need := NeededSize(|op.entry|);
      if v.MustGrow(need) && !v.LimitReached(need) {
        v.GrowthPolicy(need);
      }
    }
  }

  /** In a queue that comes from a new one, wrapped means that there are blocks in the lower
      segment: over every run the two stay equivalent. */
  lemma {:induction false} WrappedIsInBlocks(v: Layout, ops: seq<Op>)
    requires v.Valid() && AllAllowed(v, ops) && (v.Wrapped() <==> v.lower != [])
    ensures Run(v, ops).Wrapped() <==> Run(v, ops).lower != []
    decreases |ops|
  {
    hide Step, Allowed, Layout.Valid;
    if ops != [] {
      StepWrapsInBlocks(v, ops[0]);
      WrappedIsInBlocks(Step(v, ops[0]), ops[1..]);
    }
  }

  lemma StepWrapsInBlocks(v: Layout, op: Op)
    requires v.Valid() && Allowed(v, op) && (v.Wrapped() <==> v.lower != [])
    ensures Step(v, op).Wrapped() <==> Step(v, op).lower != []
  {
    if op.Push? {
      v.PushValid(op.entry);
    } else if op.Pop? && v.Contents() != [] {
      v.PopValid();
      TilesBounds(v.upper[1..], v.upper[0].End(), v.rightMargin);
    }
  }

  // ---- Nothing is lost, duplicated or altered ----

  lemma StepConserves(v: Layout, op: Op)
    requires v.Valid() && Allowed(v, op)
    ensures multiset(v.Contents()) + multiset(Pushed(v, op)) + multiset(Fillers(v, op))
            == multiset(Removed(v, op)) + multiset(Step(v, op).Contents())
  {
    var c := v.Contents();
    match op
    case Push(entry) =>
      v.PushContents(entry);
    case Pop =>
      if c != [] {
        v.PopValid();
        assert c == c[..1] + c[1..];
      }
    case Reset =>
  }

  /** Two balanced accounts in a row balance: a + p + f == r + b and b + p' + f' == r' + e. */
  lemma ChainConserves<T>(a: multiset<T>, p: multiset<T>, f: multiset<T>, r: multiset<T>, b: multiset<T>,
                          p': multiset<T>, f': multiset<T>, r': multiset<T>, e: multiset<T>)
    requires a + p + f == r + b && b + p' + f' == r' + e
    ensures a + (p + p') + (f + f') == (r + r') + e
  {
    assert a + (p + p') + (f + f') == (a + p + f) + (p' + f');
    assert (r + b) + (p' + f') == r + (b + p' + f');
    assert r + (r' + e) == (r + r') + e;
  }

  /** Over every run, the blocks there were at the start, the blocks pushed and the fillers
      written are, block for block, the blocks taken out and the blocks still held. */
  lemma {:induction false} RunConserves(v: Layout, ops: seq<Op>)
    requires v.Valid() && AllAllowed(v, ops)
    ensures multiset(v.Contents()) + multiset(AllPushed(v, ops)) + multiset(AllFillers(v, ops))
            == multiset(AllRemoved(v, ops)) + multiset(Run(v, ops).Contents())
    decreases |ops|
  {
    hide Step, Pushed, Fillers, Removed, Allowed;
    if ops == [] {
      assert AllPushed(v, ops) == AllFillers(v, ops) == AllRemoved(v, ops) == [];
    } else {
      var v', rest := Step(v, ops[0]), ops[1..];
      StepConserves(v, ops[0]);
      RunConserves(v', rest);
      assert AllPushed(v, ops) == Pushed(v, ops[0]) + AllPushed(v', rest);
      assert AllFillers(v, ops) == Fillers(v, ops[0]) + AllFillers(v', rest);
      assert AllRemoved(v, ops) == Removed(v, ops[0]) + AllRemoved(v', rest);
      ChainConserves(
        multiset(v.Contents()), multiset(Pushed(v, ops[0])), multiset(Fillers(v, ops[0])),
        multiset(Removed(v, ops[0])), multiset(v'.Contents()),
        multiset(AllPushed(v', rest)), multiset(AllFillers(v', rest)),
        multiset(AllRemoved(v', rest)), multiset(Run(v', rest).Contents()));
    }
  }

  // ---- An index stays valid ----

  /** Neither a Reset nor the Pop that returns `b` is among `ops`. */
  ghost predicate Survives(v: Layout, ops: seq<Op>, b: Block)
    requires v.Valid() && AllAllowed(v, ops)
    decreases |ops|
  {
    ops == [] ||
    (b !in Removed(v, ops[0]) && !ops[0].Reset? && Survives(Step(v, ops[0]), ops[1..], b))
  }

  lemma StaysOnce(v: Layout, op: Op, b: Block)
    requires v.Valid() && Allowed(v, op) && b in v.Contents() && b !in Removed(v, op)
    ensures b in Step(v, op).Contents()
  {
    StepConserves(v, op);
    assert b in multiset(v.Contents()) + multiset(Pushed(v, op)) + multiset(Fillers(v, op));
    assert b !in multiset(Removed(v, op));
    assert b in multiset(Step(v, op).Contents());
  }

  lemma {:induction false} BlockStays(v: Layout, ops: seq<Op>, b: Block)
    requires v.Valid() && AllAllowed(v, ops) && b in v.Contents() && Survives(v, ops, b)
    ensures b in Run(v, ops).Contents()
    decreases |ops|
  {
    if ops != [] {
      StaysOnce(v, ops[0], b);
      BlockStays(Step(v, ops[0]), ops[1..], b);
    }
  }

  /** The queue holds a block at `index`, and what is held there is `data`. */
  ghost predicate Named(v: Layout, index: nat, data: seq<byte>) {
    && (exists b <- v.Contents() :: b.index == index)
    && (forall b <- v.Contents() | b.index == index :: b.data == data)
  }

  lemma BlockIsNamed(v: Layout, b: Block)
    requires v.Valid() && b in v.Contents()
    ensures Named(v, b.index, b.data)
  {
    v.IndicesDistinct();
  }

  /** The index a push returns names the pushed entry, and no other block, through any later
      pushes, wraps, growths and pops of other entries. */
  lemma IndexStaysValid(v: Layout, entry: seq<byte>, ops: seq<Op>)
    requires v.Valid() && AllAllowed(v, [Push(entry)] + ops)
    requires v.Push(entry).1.Index?
    requires Survives(Step(v, Push(entry)), ops, Block(v.Push(entry).1.value, NeededSize(|entry|), entry))
    ensures Named(Run(v, [Push(entry)] + ops), v.Push(entry).1.value, entry)
  {
    assert ([Push(entry)] + ops)[1..] == ops;
    var b := Block(v.Push(entry).1.value, NeededSize(|entry|), entry);
    var after := Step(v, Push(entry));
    v.PushContents(entry);
    assert after.Contents()[|after.Contents()| - 1] == b;
    hide Step, Layout.Push, Layout.Valid, Named;
    BlockStays(after, ops, b);
    BlockIsNamed(Run(after, ops), b);
  }

  // ---- First in, first out ----

  ghost predicate AnyGrowsWrapped(v: Layout, ops: seq<Op>)
    requires v.Valid() && AllAllowed(v, ops)
    decreases |ops|
  {
    ops != [] && (GrowsWrapped(v, ops[0]) || AnyGrowsWrapped(Step(v, ops[0]), ops[1..]))
  }

  ghost predicate NoReset(ops: seq<Op>) { Reset !in ops }

  /** What the run takes out, then holds: the order in which a caller who goes on popping
      sees the blocks. */
  ghost function Order(v: Layout, ops: seq<Op>): seq<Block>
    requires v.Valid() && AllAllowed(v, ops)
  {
    AllRemoved(v, ops) + Run(v, ops).Contents()
  }

  lemma OrderStep(v: Layout, ops: seq<Op>)
    requires v.Valid() && AllAllowed(v, ops) && ops != []
    ensures Order(v, ops) == Removed(v, ops[0]) + Order(Step(v, ops[0]), ops[1..])
  {
  }

  /** A queue that starts at the left margin hands out its first block first. */
  lemma {:induction false} FirstStaysFirst(v: Layout, ops: seq<Op>)
    requires v.Valid() && AllAllowed(v, ops)
    requires v.head == LEFT_MARGIN && v.Contents() != []
    ensures |Order(v, ops)| > 0 && Order(v, ops)[0] == v.Contents()[0]
    decreases |ops|
  {
    if ops != [] {
      OrderStep(v, ops);
      if ops[0].Push? {
        PushKeepsFirst(v, ops[0]);
        hide Step, Allowed, Layout.Valid;
        FirstStaysFirst(Step(v, ops[0]), ops[1..]);
      }
    }
  }

  lemma PushKeepsFirst(v: Layout, op: Op)
    requires v.Valid() && Allowed(v, op) && op.Push?
    requires v.head == LEFT_MARGIN && v.Contents() != []
    ensures Step(v, op).head == LEFT_MARGIN && Removed(v, op) == []
    ensures Step(v, op).Contents() != [] && Step(v, op).Contents()[0] == v.Contents()[0]
  {
  }

  /** A growth of a wrapped queue puts another block in front. */
  lemma RotationChangesFront(v: Layout, op: Op)
    requires v.Valid() && Allowed(v, op) && GrowsWrapped(v, op)
    ensures v.Contents() != [] && Step(v, op).Contents() != [] && Step(v, op).head == LEFT_MARGIN
    ensures Step(v, op).Contents()[0] != v.Contents()[0]
  {
  }

  lemma StepIsFifo(v: Layout, op: Op)
    requires v.Valid() && Allowed(v, op) && !op.Reset? && !GrowsWrapped(v, op)
    ensures v.Contents() + Pushed(v, op) == Removed(v, op) + Step(v, op).Contents()
  {
    if op.Push? {
      v.PushContents(op.entry);
    } else if v.Contents() != [] {
      v.PopValid();
    }
  }

  /** Over a run without Reset the queue is first-in first-out if and only if no push has
      to grow the array while the queue is wrapped. */
  lemma {:induction false} FifoExactly(v: Layout, ops: seq<Op>)
    requires v.Valid() && AllAllowed(v, ops) && NoReset(ops)
    ensures Order(v, ops) == v.Contents() + AllPushed(v, ops) <==> !AnyGrowsWrapped(v, ops)
    decreases |ops|
  {
    hide Step, Pushed, Removed, Allowed, GrowsWrapped, Layout.Valid;
    if ops != [] {
      var op, rest, v' := ops[0], ops[1..], Step(v, ops[0]);
      OrderStep(v, ops);
      FifoExactly(v', rest);
      if GrowsWrapped(v, op) {
        RotationChangesFront(v, op);
        FirstStaysFirst(v', rest);
        RotationRemovesNothing(v, op);
        assert Order(v, ops)[0] != (v.Contents() + AllPushed(v, ops))[0];
      } else {
        StepIsFifo(v, op);
        assert v.Contents() + AllPushed(v, ops) == v.Contents() + Pushed(v, op) + AllPushed(v', rest);
        assert v.Contents() + AllPushed(v, ops) == Removed(v, op) + (v'.Contents() + AllPushed(v', rest));
        PrefixCancels(Removed(v, op), Order(v', rest), v'.Contents() + AllPushed(v', rest));
      }
    }
  }

  lemma RotationRemovesNothing(v: Layout, op: Op)
    requires GrowsWrapped(v, op)
    ensures Removed(v, op) == []
  {
  }

  lemma PrefixCancels<T>(x: seq<T>, s: seq<T>, t: seq<T>)
    ensures x + s == x + t <==> s == t
  {
    assert (x + s)[|x|..] == s && (x + t)[|x|..] == t;
  }

  const NINE_BYTES := Layout(false, 9, 0, 1, 1, 1, [], [])
  const AAA := Block(1, 4, [97, 97, 97])
  const BB := Block(5, 3, [98, 98])
  const CCC := Block(1, 4, [99, 99, 99])
  const D := Block(8, 2, [100])
  const FIRST_THREE := [Push(AAA.data), Push(BB.data), Pop]

  lemma FirstThree()
    ensures NINE_BYTES.Valid() && AllAllowed(NINE_BYTES, FIRST_THREE)
    ensures Run(NINE_BYTES, FIRST_THREE) == Layout(false, 9, 0, 5, 8, 8, [BB], [])
  {
    var v1 := Step(NINE_BYTES, FIRST_THREE[0]);
    assert v1 == Layout(false, 9, 0, 1, 5, 5, [AAA], []);
    var v2 := Step(v1, FIRST_THREE[1]);
    assert v2 == Layout(false, 9, 0, 1, 8, 8, [AAA, BB], []);
    var v3 := Step(v2, Pop);
    assert v3 == Layout(false, 9, 0, 5, 8, 8, [BB], []);
    assert FIRST_THREE[1..] == [Push(BB.data), Pop] && [Push(BB.data), Pop][1..] == [Pop];
    assert Run(v2, [Pop]) == Run(v3, []);
  }

  /** A queue of nine bytes in which first-in first-out fails: "aaa", "bb", a pop, "ccc"
      (which wraps and fills the gap exactly) and "d" leave "ccc" ahead of the older "bb". */
  lemma FifoFails()
    ensures NINE_BYTES.Valid() && AllAllowed(NINE_BYTES, FIRST_THREE)
    ensures var v := Run(NINE_BYTES, FIRST_THREE);
            && v.Contents() == [BB]
            && AllAllowed(v, [Push(CCC.data), Push(D.data)])
            && Run(v, [Push(CCC.data), Push(D.data)]).Contents() == [CCC, BB, D]
  {
    FirstThree();
    var v3 := Layout(false, 9, 0, 5, 8, 8, [BB], []);
    var v4 := Step(v3, Push(CCC.data));
    assert v4 == Layout(true, 9, 0, 5, 5, 8, [BB], [CCC]);
    var v5 := Step(v4, Push(D.data));
    assert v5 == Layout(false, 18, 0, 1, 10, 10, [CCC, BB, D], []);
    assert Run(v4, [Push(D.data)]) == v5;
    assert [Push(CCC.data), Push(D.data)][1..] == [Push(D.data)];
  }
}
