/** A growable circular buffer: the sequence it holds, what visiting it does, and what
    growing it costs over a whole run. */
module RingBuffer {
  import opened Sequences
  import opened Wrappers

  const RINGBUFFER_MIN := 8
  const RINGBUFFER_EXP := 1024

  // ---- Visiting ----

  /** The outcome of a walk over some elements: the visitor's state, the elements as the
      visitor left them (it receives pointers), and whether it asked for all of them. */
  datatype Visited<S, T> = Visited(state: S, items: seq<T>, finished: bool)

  /** Visits `xs` from left to right up to and including the first refusal. */
  function Visit<S, T>(fn: (S, T) -> (S, T, bool), s: S, xs: seq<T>): (v: Visited<S, T>)
    ensures |v.items| == |xs|
  {
    if xs == [] then Visited(s, [], true)
    else
      var (s', x, more) := fn(s, xs[0]);
      if more then
        var v := Visit(fn, s', xs[1..]);
        Visited(v.state, [x] + v.items, v.finished)
      else Visited(s', [x] + xs[1..], false)
  }

  /** The i-th call of a visit gets the i-th element and the state the call before has left,
      and what it returns is kept; all calls but the last ask for more, the last one if the
      visit is finished. */
  ghost predicate Called<S, T>(fn: (S, T) -> (S, T, bool), xs: seq<T>, v: Visited<S, T>, states: seq<S>, i: nat)
    requires i + 1 < |states| && i < |xs| == |v.items|
  {
    fn(states[i], xs[i]) == (states[i + 1], v.items[i], i + 2 < |states| || v.finished)
  }

  /** What a visit does, element by element: fn is called on one element after another up to
      the first refusal, and the other elements stay as they are. `states` are the states
      between the calls. */
  lemma {:induction false} VisitTrace<S, T>(fn: (S, T) -> (S, T, bool), s: S, xs: seq<T>) returns (states: seq<S>)
    ensures var (v, n) := (Visit(fn, s, xs), |states| - 1);
            && 0 <= n <= |xs| && states[0] == s && states[n] == v.state
            && (if v.finished then n == |xs| else n > 0)
            && (forall i | 0 <= i < n :: Called(fn, xs, v, states, i))
            && v.items[n..] == xs[n..]
    decreases |xs|
  {
    if xs == [] {
      return [s];
    }
    var out := fn(s, xs[0]);
    var v := Visit(fn, s, xs);
    if !out.2 {
      states := [s, out.0];
      assert Called(fn, xs, v, states, 0);
      return;
    }
    var rest := VisitTrace(fn, out.0, xs[1..]);
    states := [s] + rest;
    var w := Visit(fn, out.0, xs[1..]);
    forall i | 0 <= i < |rest|
      ensures Called(fn, xs, v, states, i)
    {
      if i > 0 {
        assert Called(fn, xs[1..], w, rest, i - 1);
      }
    }
  }

  /** A walk over two stretches is a walk over the first and, unless refused, the second. */
  lemma {:induction false} VisitConcat<S, T>(fn: (S, T) -> (S, T, bool), s: S, xs: seq<T>, ys: seq<T>)
    ensures var v := Visit(fn, s, xs);
            Visit(fn, s, xs + ys) ==
            if v.finished
            then var w := Visit(fn, v.state, ys); Visited(w.state, v.items + w.items, w.finished)
            else Visited(v.state, v.items + ys, false)
    decreases |xs|
  {
    if xs == [] {
      assert xs + ys == ys;
      assert [] + Visit(fn, s, ys).items == Visit(fn, s, ys).items;
    } else {
      var (s', x, more) := fn(s, xs[0]);
      assert (xs + ys)[1..] == xs[1..] + ys;
      if more {
        VisitConcat(fn, s', xs[1..], ys);
        var v := Visit(fn, s', xs[1..]);
        if v.finished {
          assert [x] + (v.items + Visit(fn, v.state, ys).items) == ([x] + v.items) + Visit(fn, v.state, ys).items;
        } else {
          assert [x] + (v.items + ys) == ([x] + v.items) + ys;
        }
      } else {
        assert [x] + (xs[1..] + ys) == ([x] + xs[1..]) + ys;
      }
    }
  }

  /** The next element of a walk not yet refused. */
  lemma VisitSnoc<S, T>(fn: (S, T) -> (S, T, bool), s: S, xs: seq<T>, x: T)
    requires Visit(fn, s, xs).finished
    ensures var v := Visit(fn, s, xs);
            var out := fn(v.state, x);
            Visit(fn, s, xs + [x]) == Visited(out.0, v.items + [out.1], out.2)
  {
    VisitConcat(fn, s, xs, [x]);
  }

  /** Slots lo to hi of `e` have been visited upwards: `now` is what they have become. */
  ghost predicate VisitedUp<S, T>(fn: (S, T) -> (S, T, bool), s: S, e: seq<T>, lo: nat, hi: nat,
                                  now: seq<T>, s': S, more: bool) {
    && lo <= hi <= |e|
    && var v := Visit(fn, s, e[lo..hi]);
       s' == v.state && more == v.finished && now == e[..lo] + v.items + e[hi..]
  }

  ghost predicate VisitedDown<S, T>(fn: (S, T) -> (S, T, bool), s: S, e: seq<T>, lo: nat, hi: nat,
                                    now: seq<T>, s': S, more: bool) {
    && lo <= hi <= |e|
    && var v := Visit(fn, s, Reverse(e[lo..hi]));
       s' == v.state && more == v.finished && now == e[..lo] + Reverse(v.items) + e[hi..]
  }

  /** One turn of an upward loop: one more slot, or the end of the walk. */
  lemma VisitUpStep<S, T>(fn: (S, T) -> (S, T, bool), s: S, e: seq<T>, lo: nat, i: nat, hi: nat, now: seq<T>, s': S)
    requires i < hi <= |e| && VisitedUp(fn, s, e, lo, i, now, s', true)
    ensures |now| == |e| && now[i] == e[i]
    ensures var out := fn(s', e[i]);
            if out.2 then VisitedUp(fn, s, e, lo, i + 1, now[i := out.1], out.0, true)
            else VisitedUp(fn, s, e, lo, hi, now[i := out.1], out.0, false)
  {
    hide Visit;
    var v, out := Visit(fn, s, e[lo..i]), fn(s', e[i]);
    VisitSnoc(fn, s, e[lo..i], e[i]);
    assert e[lo..i + 1] == e[lo..i] + [e[i]];
    assert now[i := out.1] == e[..lo] + (v.items + [out.1]) + e[i + 1..];
    if !out.2 {
      VisitConcat(fn, s, e[lo..i + 1], e[i + 1..hi]);
      assert e[lo..hi] == e[lo..i + 1] + e[i + 1..hi];
      assert e[i + 1..] == e[i + 1..hi] + e[hi..];
    }
  }

  lemma VisitDownStep<S, T>(fn: (S, T) -> (S, T, bool), s: S, e: seq<T>, lo: nat, i: nat, hi: nat, now: seq<T>, s': S)
    requires lo <= i < hi && VisitedDown(fn, s, e, i + 1, hi, now, s', true)
    ensures |now| == |e| && now[i] == e[i]
    ensures var out := fn(s', e[i]);
            if out.2 then VisitedDown(fn, s, e, i, hi, now[i := out.1], out.0, true)
            else VisitedDown(fn, s, e, lo, hi, now[i := out.1], out.0, false)
  {
    hide Visit, Reverse;
    var v, out := Visit(fn, s, Reverse(e[i + 1..hi])), fn(s', e[i]);
    VisitSnoc(fn, s, Reverse(e[i + 1..hi]), e[i]);
    ReverseSnoc(e, i, hi);
    ReverseConcat(v.items, [out.1]);
    assert now[i := out.1] == e[..i] + ([out.1] + Reverse(v.items)) + e[hi..];
    if !out.2 {
      VisitDownStop(fn, s, e, lo, i, hi);
      assert e[..i] == e[..lo] + e[lo..i];
    }
  }

  /** A downward walk refused before it reaches lo leaves the rest as it was. */
  lemma VisitDownStop<S, T>(fn: (S, T) -> (S, T, bool), s: S, e: seq<T>, lo: nat, i: nat, hi: nat)
    requires lo <= i <= hi <= |e| && !Visit(fn, s, Reverse(e[i..hi])).finished
    ensures var v := Visit(fn, s, Reverse(e[i..hi]));
            var w := Visit(fn, s, Reverse(e[lo..hi]));
            w.state == v.state && !w.finished && Reverse(w.items) == e[lo..i] + Reverse(v.items)
  {
    var v := Visit(fn, s, Reverse(e[i..hi]));
    assert e[lo..hi] == e[lo..i] + e[i..hi];
    ReverseConcat(e[lo..i], e[i..hi]);
    VisitConcat(fn, s, Reverse(e[i..hi]), Reverse(e[lo..i]));
    ReverseConcat(v.items, Reverse(e[lo..i]));
    ReverseTwice(e[lo..i]);
  }

  // ---- The window of live slots ----

  function Next(i: nat, n: nat): (j: nat)
    requires i < n
    ensures j == if i + 1 == n then 0 else i + 1
  {
    (i + 1) % n
  }

  /** The elements from `head` up to `tail`, around the end of the array if need be. */
  ghost function Window<T>(e: seq<T>, head: nat, tail: nat): seq<T>
    requires head <= |e| && tail <= |e|
  {
    if head <= tail then e[head..tail] else e[head..] + e[..tail]
  }

  ghost predicate Live(head: nat, tail: nat, i: int) {
    if head <= tail then head <= i < tail else i < tail || head <= i
  }

  /** Slots that hold no element hold the zero value. */
  ghost predicate Vacant<T>(e: seq<T>, head: nat, tail: nat, zero: T) {
    forall i | 0 <= i < |e| && !Live(head, tail, i) :: e[i] == zero
  }

  ghost predicate Good<T>(e: seq<T>, head: nat, tail: nat, zero: T) {
    head < |e| && tail < |e| && Vacant(e, head, tail, zero)
  }

  lemma WindowPush<T>(e: seq<T>, head: nat, tail: nat, zero: T, v: T)
    requires Good(e, head, tail, zero) && Next(tail, |e|) != head
    ensures Good(e[tail := v], head, Next(tail, |e|), zero)
    ensures Window(e[tail := v], head, Next(tail, |e|)) == Window(e, head, tail) + [v]
  {
  }

  lemma FreshWindow<T>(w: seq<T>, e: seq<T>, zero: T)
    requires |w| < |e| && e[..|w|] == w && forall i | |w| <= i < |e| :: e[i] == zero
    ensures Good(e, 0, |w|, zero) && Window(e, 0, |w|) == w
  {
  }

  lemma WindowPop<T>(e: seq<T>, head: nat, tail: nat, zero: T)
    requires Good(e, head, tail, zero) && Window(e, head, tail) != []
    ensures e[head] == Window(e, head, tail)[0]
    ensures Good(e[head := zero], Next(head, |e|), tail, zero)
    ensures Window(e[head := zero], Next(head, |e|), tail) == Window(e, head, tail)[1..]
  {
  }

  /** A wrapped buffer whose dead slots are untouched. */
  lemma WrappedParts<T>(e: seq<T>, head: nat, tail: nat, zero: T, now: seq<T>)
    requires Good(e, head, tail, zero) && tail < head && |now| == |e|
    requires now[tail..head] == e[tail..head]
    ensures Good(now, head, tail, zero) && Window(now, head, tail) == now[head..] + now[..tail]
  {
  }

  /** What a walk over one stretch leaves of the slots. */
  lemma StretchParts<T>(e: seq<T>, lo: nat, hi: nat, items: seq<T>, now: seq<T>)
    requires lo <= hi <= |e| && |items| == hi - lo && now == e[..lo] + items + e[hi..]
    ensures |now| == |e| && now[lo..hi] == items
    ensures forall i, j | 0 <= i <= j <= lo || hi <= i <= j <= |e| :: now[i..j] == e[i..j]
  {
  }

  lemma VisitedUpContiguous<S, T>(fn: (S, T) -> (S, T, bool), s: S, e: seq<T>, head: nat, tail: nat, zero: T,
                                  now: seq<T>, s': S, more: bool)
    requires Good(e, head, tail, zero) && head < tail && VisitedUp(fn, s, e, head, tail, now, s', more)
    ensures Good(now, head, tail, zero) && |now| == |e|
    ensures var v := Visit(fn, s, Window(e, head, tail)); s' == v.state && Window(now, head, tail) == v.items
  {
  }

  lemma VisitedUpWrapped<S, T>(fn: (S, T) -> (S, T, bool), s: S, e: seq<T>, head: nat, tail: nat, zero: T,
                               mid: seq<T>, u: S, now: seq<T>, s': S, more: bool)
    requires Good(e, head, tail, zero) && tail < head
    requires var first := Visit(fn, s, e[head..]).finished;
             && VisitedUp(fn, s, e, head, |e|, mid, u, first)
             && if first then VisitedUp(fn, u, mid, 0, tail, now, s', more) else now == mid && s' == u
    ensures Good(now, head, tail, zero) && |now| == |e|
    ensures var v := Visit(fn, s, Window(e, head, tail)); s' == v.state && Window(now, head, tail) == v.items
  {
    VisitConcat(fn, s, e[head..], e[..tail]);
    assert e[head..|e|] == e[head..];
    var v := Visit(fn, s, e[head..]);
    StretchParts(e, head, |e|, v.items, mid);
    assert mid[0..tail] == e[..tail] && mid[head..|e|] == mid[head..] && mid[tail..head] == e[tail..head];
    if v.finished {
      StretchParts(mid, 0, tail, Visit(fn, u, e[..tail]).items, now);
      assert now[tail..head] == mid[tail..head] && now[head..|e|] == now[head..] == mid[head..];
    }
    WrappedParts(e, head, tail, zero, now);
  }

  lemma VisitedDownContiguous<S, T>(fn: (S, T) -> (S, T, bool), s: S, e: seq<T>, head: nat, tail: nat, zero: T,
                                    now: seq<T>, s': S, more: bool)
    requires Good(e, head, tail, zero) && head < tail && VisitedDown(fn, s, e, head, tail, now, s', more)
    ensures Good(now, head, tail, zero) && |now| == |e|
    ensures var v := Visit(fn, s, Reverse(Window(e, head, tail)));
            s' == v.state && Window(now, head, tail) == Reverse(v.items)
  {
  }

  lemma VisitedDownWrapped<S, T>(fn: (S, T) -> (S, T, bool), s: S, e: seq<T>, head: nat, tail: nat, zero: T,
                                 mid: seq<T>, u: S, now: seq<T>, s': S, more: bool)
    requires Good(e, head, tail, zero) && tail < head
    requires var first := Visit(fn, s, Reverse(e[..tail])).finished;
             && VisitedDown(fn, s, e, 0, tail, mid, u, first)
             && if first then VisitedDown(fn, u, mid, head, |e|, now, s', more) else now == mid && s' == u
    ensures Good(now, head, tail, zero) && |now| == |e|
    ensures var v := Visit(fn, s, Reverse(Window(e, head, tail)));
            s' == v.state && Window(now, head, tail) == Reverse(v.items)
  {
    hide Visit, Reverse, Vacant;
    var v := Visit(fn, s, Reverse(e[..tail]));
    ReverseConcat(e[head..], e[..tail]);
    VisitConcat(fn, s, Reverse(e[..tail]), Reverse(e[head..]));
    StretchParts(e, 0, tail, Reverse(v.items), mid);
    assert e[0..tail] == e[..tail] && mid[head..|e|] == mid[head..] == e[head..|e|] == e[head..];
    assert mid[tail..head] == e[tail..head];
    if v.finished {
      var w := Visit(fn, u, Reverse(e[head..]));
      StretchParts(mid, head, |e|, Reverse(w.items), now);
      assert now[tail..head] == mid[tail..head] && now[0..tail] == mid[0..tail];
      ReverseConcat(v.items, w.items);
    } else {
      ReverseConcat(v.items, Reverse(e[head..]));
      ReverseTwice(e[head..]);
    }
    WrappedParts(e, head, tail, zero, now);
  }

  // ---- Cost ----

  /** The size a full buffer grows to. */
  function NewSize(size: nat): nat {
    if size < RINGBUFFER_MIN then RINGBUFFER_MIN
    else if size < RINGBUFFER_EXP then size * 2
    else size + (size + 9) / 10
  }

  /** What matters for the cost of a run: the size of the array, the number of elements,
      how many there were when the array was last allocated, and the two totals. */
  datatype Account = Account(size: nat, len: nat, floor: nat, copied: nat, pushes: nat) {
    function Push(): Account {
      if len + 1 == size
      then Account(NewSize(size), len + 1, len, copied + len, pushes + 1)
      else this.(len := len + 1, pushes := pushes + 1)
    }

    function Remove(n: nat): Account {
      this.(len := if n <= len then len - n else 0)
    }

    /** The elements added since the last allocation have paid for the next one. */
    ghost predicate Solvent() {
      && RINGBUFFER_MIN <= size && len < size && floor < size
      && size - 1 <= 11 * (size - 1 - floor)
      && copied <= 11 * pushes
      && copied + 11 * (len - floor) <= 11 * pushes
    }
  }

  /** The growth policy: small arrays double, large ones get a tenth more, rounded up. */
  lemma GrowthPolicy(size: nat)
    ensures size < RINGBUFFER_MIN ==> NewSize(size) == RINGBUFFER_MIN
    ensures RINGBUFFER_MIN <= size < RINGBUFFER_EXP ==> NewSize(size) - size == size
    ensures size >= RINGBUFFER_EXP ==> size <= 10 * (NewSize(size) - size) < size + 10
  {
  }

  /** Everything but Push takes elements away, if it changes anything. */
  datatype Op = Push | Remove(n: nat)

  function Run(a: Account, ops: seq<Op>): Account
    decreases |ops|
  {
    if ops == [] then a
    else
      var b := match ops[0] case Push => a.Push() case Remove(n) => a.Remove(n);
      Run(b, ops[1..])
  }

  function Pushes(ops: seq<Op>): nat {
    if ops == [] then 0 else (if ops[0].Push? then 1 else 0) + Pushes(ops[1..])
  }

  lemma PushStaysSolvent(a: Account)
    requires a.Solvent()
    ensures a.Push().Solvent()
  {
  }

  lemma {:induction false} RunStaysSolvent(a: Account, ops: seq<Op>)
    requires a.Solvent()
    ensures Run(a, ops).Solvent() && Run(a, ops).pushes == a.pushes + Pushes(ops)
    decreases |ops|
  {
    if ops != [] {
      match ops[0]
      case Push =>
        PushStaysSolvent(a);
        RunStaysSolvent(a.Push(), ops[1..]);
      case Remove(n) =>
        RunStaysSolvent(a.Remove(n), ops[1..]);
    }
  }

  /** The most elements there are at any time of a run. */
  function Peak(a: Account, ops: seq<Op>): nat
    decreases |ops|
  {
    if ops == [] then a.len
    else
      var later := Peak(match ops[0] case Push => a.Push() case Remove(n) => a.Remove(n), ops[1..]);
      if a.len < later then later else a.len
  }

  /** The array is never larger than it was at first, or twice what the buffer has had to hold. */
  lemma {:induction false} SizeFollowsPeak(a: Account, ops: seq<Op>)
    requires a.Solvent()
    ensures Run(a, ops).size <= a.size || Run(a, ops).size <= 2 * Peak(a, ops)
    decreases |ops|
  {
    if ops != [] {
      match ops[0]
      case Push =>
        PushStaysSolvent(a);
        SizeFollowsPeak(a.Push(), ops[1..]);
      case Remove(n) =>
        SizeFollowsPeak(a.Remove(n), ops[1..]);
    }
  }

  function NewAccount(size: int): Account {
    Account(if size <= RINGBUFFER_MIN then RINGBUFFER_MIN else size, 0, 0, 0, 0)
  }

  /** Amortised constant time: over any run from a new buffer of any size, in which pushes
      and removals are mixed in any way, growing copies at most eleven elements a push. */
  lemma AmortisedConstant(size: int, ops: seq<Op>)
    ensures Run(NewAccount(size), ops).copied <= 11 * Pushes(ops)
  {
    RunStaysSolvent(NewAccount(size), ops);
  }

  // ---- The buffer ----

  /** The address of a slot. */
  datatype Pointer<T> = Pointer(slots: array<T>, index: nat)

  class RingBuffer<T> {
    // The zero value of the element type.
    const zero: T
    var head: nat
    var tail: nat
    var elements: array<T>

    // The cost of the run so far.
    ghost var floor: nat
    ghost var copied: nat
    ghost var pushes: nat

    ghost predicate Valid()
      reads this, elements
    {
      Good(elements[..], head, tail, zero) && Costs().Solvent()
    }

    /** The elements in order of age. */
    ghost function Contents(): seq<T>
      requires Valid()
      reads this, elements
    {
      Window(elements[..], head, tail)
    }

    ghost function Costs(): Account
      requires head <= elements.Length && tail <= elements.Length
      reads this, elements
    {
      Account(elements.Length, |Window(elements[..], head, tail)|, floor, copied, pushes)
    }

    /** NewRingBuffer. */
    constructor (size: int, zero: T)
      ensures Valid() && fresh(elements)
      ensures Contents() == [] && this.zero == zero && Costs() == NewAccount(size)
      ensures elements.Length == size || (size <= RINGBUFFER_MIN == elements.Length)
    {
      var n := if size <= RINGBUFFER_MIN then RINGBUFFER_MIN else size;
      this.zero := zero;
      head, tail := 0, 0;
      elements := new T[n](_ => zero);
      floor, copied, pushes := 0, 0, 0;
    }

    method Len() returns (n: nat)
      requires Valid()
      ensures n == |Contents()|
    {
      n := if head <= tail then tail - head else elements.Length - head + tail;
    }

    method IsEmpty() returns (b: bool)
      requires Valid()
      ensures b <==> Contents() == []
    {
      b := head == tail;
    }

    predicate IsFull()
      requires Valid()
      reads this, elements
      ensures IsFull() <==> |Contents()| + 1 == elements.Length
    {
      Next(tail, elements.Length) == head
    }

    method Push(v: T)
      requires Valid()
      modifies this, elements
      ensures Valid() && (elements == old(elements) || fresh(elements))
      ensures Contents() == old(Contents()) + [v]
      ensures Costs() == old(Costs()).Push()
    {
      PushStaysSolvent(Costs());
      var full := IsFull();
      if full {
        Grow();
      }
      label Ready:
      WindowPush(elements[..], head, tail, zero, v);
      hide Window, Good;
      elements[tail] := v;
      assert elements[..] == old@Ready(elements[..])[tail := v];
      tail := Next(tail, elements.Length);
      pushes := pushes + 1;
    }

    /** Moves the elements to the start of a larger array. */
    method Grow()
      requires Valid() && IsFull()
      modifies this
      ensures fresh(elements) && Good(elements[..], head, tail, zero)
      ensures Window(elements[..], head, tail) == old(Contents())
      ensures elements.Length == NewSize(old(elements.Length)) && Next(tail, elements.Length) != head
      ensures pushes == old(pushes)
      ensures copied == old(copied) + |old(Contents())| && floor == |old(Contents())|
    {
      var currentLength := Len();
      var newSize := NewSize(elements.Length);
      var newElements := new T[newSize](_ => zero);
      CopyLive(newElements);
      FreshWindow(Contents(), newElements[..], zero);
      hide Window, Good, Vacant;
      head, tail, elements := 0, currentLength, newElements;
      copied, floor := copied + currentLength, currentLength;
    }

    /** Copies the live slots to the start of a larger array, in order. */
    method CopyLive(newElements: array<T>)
      requires Valid() && newElements != elements && |Contents()| <= newElements.Length
      requires head < tail || tail < head
      modifies newElements
      ensures newElements[..|Contents()|] == Contents()
      ensures newElements[|Contents()|..] == old(newElements[|Contents()|..])
    {
      if head < tail {
        CopySlots(newElements, 0, elements, head, tail);
      } else {
        CopySlots(newElements, 0, elements, head, elements.Length);
        ghost var n, first := elements.Length - head, newElements[..];
        CopySlots(newElements, elements.Length - head, elements, 0, tail);
        assert newElements[..n] == first[..n] == elements[head..];
        assert newElements[n + tail..] == first[n + tail..] == old(newElements[..])[n..][tail..];
      }
    }

    method Pop() returns (value: T, ok: bool)
      requires Valid()
      modifies this, elements
      ensures Valid() && elements == old(elements)
      ensures ok <==> old(Contents()) != []
      ensures if ok then [value] + Contents() == old(Contents()) else value == zero && Contents() == []
      ensures Costs() == old(Costs()).Remove(1)
    {
      var n := Len();
      if n == 0 {
        return zero, false;
      }
      WindowPop(elements[..], head, tail, zero);
      value := elements[head];
      ok := true;
      assert Contents() == [value] + Contents()[1..];
      Advance();
    }

    /** Clears the oldest slot and moves the head past it. */
    method Advance()
      requires Valid() && Contents() != []
      modifies this`head, elements
      ensures Valid() && Contents() == old(Contents())[1..]
      ensures Costs() == old(Costs()).Remove(1)
    {
      WindowPop(elements[..], head, tail, zero);
      hide Window, Good;
      elements[head] := zero;
      assert elements[..] == old(elements[..])[head := zero];
      head := Next(head, elements.Length);
    }

    /** A pointer to the oldest element, if there is one. */
    method Peek() returns (r: Option<Pointer<T>>)
      requires Valid()
      ensures r.None? <==> Contents() == []
      ensures r.Some? ==> r.value == Pointer(elements, head) && head < elements.Length && elements[head] == Contents()[0]
    {
      var n := Len();
      r := if n == 0 then None else Some(Pointer(elements, head));
    }

    /** What a caller who writes through the pointer of Peek changes: the oldest element. */
    method WriteThrough(p: Pointer<T>, v: T)
      requires Valid() && Contents() != [] && p == Pointer(elements, head)
      modifies elements
      ensures Valid() && Costs() == old(Costs())
      ensures Contents() == [v] + old(Contents())[1..]
    {
      p.slots[p.index] := v;
      assert elements[..] == old(elements[..])[head := v];
    }

    /** Drops the oldest `n` elements, or all if there are fewer; a negative `n` is returned
        as it is and drops nothing. */
    method Discard(n: int) returns (r: int)
      requires Valid()
      modifies this, elements
      ensures Valid() && elements == old(elements)
      ensures r == if n < |old(Contents())| then n else |old(Contents())|
      ensures Contents() == old(Contents())[if r < 0 then 0 else r..]
      ensures Costs() == old(Costs()).Remove(if r < 0 then 0 else r)
    {
      var currentLen := Len();
      r := if n < currentLen then n else currentLen;
      if r == currentLen {
        Clear();
        return;
      }
      var count := if r < 0 then 0 else r;
      for i := 0 to count
        invariant elements == old(elements)
        invariant Valid() && Contents() == old(Contents())[i..]
        invariant Costs() == old(Costs()).Remove(i)
      {
        hide Window, Good, Account.Solvent;
        Advance();
      }
    }

    method Clear()
      requires Valid()
      modifies this, elements
      ensures Valid() && elements == old(elements)
      ensures Contents() == []
      ensures Costs() == old(Costs()).Remove(|old(Contents())|)
    {
      if head <= tail {
        ZeroOut(head, tail);
      } else {
        ZeroOut(head, elements.Length);
        ZeroOut(0, tail);
      }
      head := 0;
      tail := 0;
    }

    /** One of the clearing loops. */
    method ZeroOut(lo: nat, hi: nat)
      requires lo <= hi <= elements.Length
      modifies elements
      ensures forall i | 0 <= i < elements.Length :: elements[i] == if lo <= i < hi then zero else old(elements[i])
    {
      for i := lo to hi
        invariant forall k | 0 <= k < elements.Length :: elements[k] == if lo <= k < i then zero else old(elements[k])
      {
        elements[i] := zero;
      }
    }

    /** Visits the elements from the oldest to the newest, up to the first refusal. */
    method ForEach<S>(fn: (S, T) -> (S, T, bool), s: S) returns (s': S)
      requires Valid()
      modifies elements
      ensures Valid() && Costs() == old(Costs())
      ensures var v := Visit(fn, s, old(Contents())); s' == v.state && Contents() == v.items
    {
      var n := Len();
      if n == 0 {
        return s;
      }
      hide VisitedUp, Good, Window, Vacant;
      ghost var e := elements[..];
      var more;
      if head < tail {
        s', more := VisitUp(fn, s, head, tail);
        VisitedUpContiguous(fn, s, e, head, tail, zero, elements[..], s', more);
      } else {
        s', more := VisitUp(fn, s, head, elements.Length);
        ghost var mid, u := elements[..], s';
        assert e[head..|e|] == e[head..];
        if more {
          s', more := VisitUp(fn, s', 0, tail);
        }
        VisitedUpWrapped(fn, s, e, head, tail, zero, mid, u, elements[..], s', more);
      }
    }

    /** Visits the elements from the newest to the oldest, up to the first refusal. */
    method ForEachReverse<S>(fn: (S, T) -> (S, T, bool), s: S) returns (s': S)
      requires Valid()
      modifies elements
      ensures Valid() && Costs() == old(Costs())
      ensures var v := Visit(fn, s, Reverse(old(Contents()))); s' == v.state && Contents() == Reverse(v.items)
    {
      var n := Len();
      if n == 0 {
        return s;
      }
      hide VisitedDown, Good, Window, Vacant;
      ghost var e := elements[..];
      var more;
      if head < tail {
        s', more := VisitDown(fn, s, head, tail);
        VisitedDownContiguous(fn, s, e, head, tail, zero, elements[..], s', more);
      } else {
        s', more := VisitDown(fn, s, 0, tail);
        ghost var mid, u := elements[..], s';
        assert e[0..tail] == e[..tail];
        if more {
          s', more := VisitDown(fn, s', head, elements.Length);
        }
        VisitedDownWrapped(fn, s, e, head, tail, zero, mid, u, elements[..], s', more);
      }
    }

    /** One of the upward loops over a stretch of slots. */
    method VisitUp<S>(fn: (S, T) -> (S, T, bool), s: S, lo: nat, hi: nat) returns (s': S, more: bool)
      requires lo <= hi <= elements.Length
      modifies elements
      ensures VisitedUp(fn, s, old(elements[..]), lo, hi, elements[..], s', more)
    {
      ghost var e := elements[..];
      s', more := s, true;
      for i := lo to hi
        invariant VisitedUp(fn, s, e, lo, i, elements[..], s', true)
      {
        VisitUpStep(fn, s, e, lo, i, hi, elements[..], s');
        hide VisitedUp;
        ghost var before := elements[..];
        var out := fn(s', elements[i]);
        elements[i] := out.1;
        assert elements[..] == before[i := out.1];
        s' := out.0;
        if !out.2 {
          return s', false;
        }
      }
    }

    /** One of the downward loops over a stretch of slots. */
    method VisitDown<S>(fn: (S, T) -> (S, T, bool), s: S, lo: nat, hi: nat) returns (s': S, more: bool)
      requires lo <= hi <= elements.Length
      modifies elements
      ensures VisitedDown(fn, s, old(elements[..]), lo, hi, elements[..], s', more)
    {
      ghost var e := elements[..];
      s', more := s, true;
      for i := hi downto lo
        invariant VisitedDown(fn, s, e, i, hi, elements[..], s', true)
      {
        VisitDownStep(fn, s, e, lo, i, hi, elements[..], s');
        hide VisitedDown;
        ghost var before := elements[..];
        var out := fn(s', elements[i]);
        elements[i] := out.1;
        assert elements[..] == before[i := out.1];
        s' := out.0;
        if !out.2 {
          return s', false;
        }
      }
    }
  }

  /** Go's copy(to[at:], from[lo:hi]) with enough room. */
  method CopySlots<T>(to: array<T>, at: nat, from: array<T>, lo: nat, hi: nat)
    requires to != from && lo <= hi <= from.Length && at + (hi - lo) <= to.Length
    modifies to
    ensures to[at..at + (hi - lo)] == from[lo..hi]
    ensures to[..at] == old(to[..at]) && to[at + (hi - lo)..] == old(to[at + (hi - lo)..])
  {
    forall i | 0 <= i < hi - lo {
      to[at + i] := from[lo + i];
    }
  }
}
