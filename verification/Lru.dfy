/** The least-recently-used cache: what it holds as a sequence of items, most recent first,
    and the map, list and byte counter that represent it. */
module LruModel {
  import opened Sequences
  import opened Wrappers

  datatype Item<V> = Item(key: string, value: V)

  /** Bytes charged for some items: the key and what Value.Len says. */
  function Weight<V>(size: V -> nat, s: seq<Item<V>>): nat {
    if s == [] then 0 else |s[0].key| + size(s[0].value) + Weight(size, s[1..])
  }

  ghost predicate HasKey<V>(s: seq<Item<V>>, key: string) {
    exists i :: 0 <= i < |s| && s[i].key == key
  }

  ghost predicate UniqueKeys<V>(s: seq<Item<V>>) {
    forall i, j | 0 <= i < j < |s| :: s[i].key != s[j].key
  }

  ghost function Find<V>(s: seq<Item<V>>, key: string): (i: nat)
    requires HasKey(s, key)
    ensures i < |s| && s[i].key == key
  {
    var i: nat :| i < |s| && s[i].key == key;
    i
  }

  function Without<T>(s: seq<T>, i: nat): seq<T>
    requires i < |s|
  {
    s[..i] + s[i + 1..]
  }

  /** What eviction from the back leaves when the limit is `max`, 0 meaning none. */
  function Evict<V>(size: V -> nat, s: seq<Item<V>>, max: nat): (r: seq<Item<V>>)
    ensures |r| <= |s|
  {
    if max != 0 && s != [] && max < Weight(size, s) then Evict(size, s[..|s| - 1], max) else s
  }

  /** One turn of the eviction loop, `s` being what is left of `all`. */
  lemma EvictStep<V>(size: V -> nat, all: seq<Item<V>>, s: seq<Item<V>>, max: nat)
    requires s <= all && max != 0 && max < Weight(size, s)
    ensures s != [] && Evict(size, s[..|s| - 1], max) == Evict(size, s, max)
    ensures Reverse(all[|s| - 1..]) == Reverse(all[|s|..]) + [s[|s| - 1]]
  {
  }

  lemma EvictEnd<V>(size: V -> nat, all: seq<Item<V>>, max: nat)
    ensures Reverse(all[|all|..]) == []
    ensures forall s | max == 0 || Weight(size, s) <= max :: Evict(size, s, max) == s
  {
  }

  lemma {:induction false} WeightConcat<V>(size: V -> nat, s: seq<Item<V>>, t: seq<Item<V>>)
    ensures Weight(size, s + t) == Weight(size, s) + Weight(size, t)
    decreases |s|
  {
    if s == [] {
      assert s + t == t;
    } else {
      assert (s + t)[1..] == s[1..] + t;
      WeightConcat(size, s[1..], t);
    }
  }

  lemma WeightWithout<V>(size: V -> nat, s: seq<Item<V>>, i: nat)
    requires i < |s|
    ensures Weight(size, s) == Weight(size, Without(s, i)) + |s[i].key| + size(s[i].value)
  {
    assert s == s[..i] + ([s[i]] + s[i + 1..]);
    WeightConcat(size, s[..i], [s[i]] + s[i + 1..]);
    WeightConcat(size, s[..i], s[i + 1..]);
  }

  /** The survivors of an eviction are the longest most-recent prefix that fits. */
  lemma {:induction false} EvictIsLongestFit<V>(size: V -> nat, s: seq<Item<V>>, max: nat)
    ensures Evict(size, s, max) <= s
    ensures max == 0 ==> Evict(size, s, max) == s
    ensures max != 0 ==> Weight(size, Evict(size, s, max)) <= max
    ensures max != 0 ==>
              forall n | |Evict(size, s, max)| < n <= |s| :: Weight(size, s[..n]) > max
    decreases |s|
  {
    if max != 0 && s != [] && max < Weight(size, s) {
      var init := s[..|s| - 1];
      EvictIsLongestFit(size, init, max);
      forall n | |Evict(size, s, max)| < n <= |s|
        ensures Weight(size, s[..n]) > max
      {
        assert if n < |s| then s[..n] == init[..n] else s[..n] == s;
      }
    }
  }

  // ---- Operations on the items ----

  ghost function Add<V>(size: V -> nat, max: nat, s: seq<Item<V>>, key: string, value: V): seq<Item<V>> {
    if HasKey(s, key) then [Item(key, value)] + Without(s, Find(s, key))
    else Evict(size, [Item(key, value)] + s, max)
  }

  ghost function Touch<V>(s: seq<Item<V>>, key: string): seq<Item<V>> {
    if HasKey(s, key) then [s[Find(s, key)]] + Without(s, Find(s, key)) else s
  }

  /** `r` is what an Add leaves of `s`. An item with the key gives way to the new one in
      front, all others keep their order, and nothing is evicted. A new key leaves the
      longest beginning of the new item and `s` that the limit allows. */
  ghost predicate Added<V>(size: V -> nat, max: nat, s: seq<Item<V>>, key: string, value: V, r: seq<Item<V>>) {
    var all := [Item(key, value)] + s;
    if HasKey(s, key) then
      exists i | 0 <= i < |s| :: s[i].key == key && r == [Item(key, value)] + s[..i] + s[i + 1..]
    else
      && r <= all
      && (max == 0 ==> r == all)
      && (max != 0 ==> Weight(size, r) <= max && forall n | |r| < n <= |all| :: Weight(size, all[..n]) > max)
  }

  lemma AddExactly<V>(size: V -> nat, max: nat, s: seq<Item<V>>, key: string, value: V)
    ensures Added(size, max, s, key, value, Add(size, max, s, key, value))
  {
    if HasKey(s, key) {
      var i := Find(s, key);
      assert [Item(key, value)] + Without(s, i) == [Item(key, value)] + s[..i] + s[i + 1..];
    } else {
      EvictIsLongestFit(size, [Item(key, value)] + s, max);
    }
  }

  /** `r` is what a Get leaves of `s`: the item with the key, if any, in front of the others. */
  ghost predicate Touched<V>(s: seq<Item<V>>, key: string, r: seq<Item<V>>) {
    if HasKey(s, key) then
      exists i | 0 <= i < |s| :: s[i].key == key && r == [s[i]] + s[..i] + s[i + 1..]
    else r == s
  }

  lemma TouchExactly<V>(s: seq<Item<V>>, key: string)
    ensures Touched(s, key, Touch(s, key))
  {
    if HasKey(s, key) {
      var i := Find(s, key);
      assert [s[i]] + Without(s, i) == [s[i]] + s[..i] + s[i + 1..];
    }
  }

  /** Of the keys that are unique there is one position to find. */
  lemma FindIs<V>(s: seq<Item<V>>, i: nat)
    requires UniqueKeys(s) && i < |s|
    ensures HasKey(s, s[i].key) && Find(s, s[i].key) == i
  {
  }

  /** Replacing the value of a key evicts nothing, so the byte limit is met after an Add
      exactly when the key is new or the items with the replaced value still fit. */
  lemma LimitAfterAdd<V>(size: V -> nat, max: nat, s: seq<Item<V>>, key: string, value: V)
    requires max != 0 && UniqueKeys(s)
    ensures Weight(size, Add(size, max, s, key, value)) <= max
            <==> (HasKey(s, key) ==> Weight(size, s) - size(s[Find(s, key)].value) + size(value) <= max)
  {
    if HasKey(s, key) {
      WeightWithout(size, s, Find(s, key));
      WeightConcat(size, [Item(key, value)], Without(s, Find(s, key)));
    } else {
      EvictIsLongestFit(size, [Item(key, value)] + s, max);
    }
  }

  /** Two bytes are allowed, the key and its value take two, and a longer value replaces it. */
  lemma LimitExceeded()
    ensures var size := (v: string) => |v|;
            var s := Add(size, 2, [], "k", "1");
            Weight(size, s) <= 2 && Weight(size, Add(size, 2, s, "k", "123")) == 4
  {
  }

  // ---- Recency over a run ----

  datatype Op<V> = Put(key: string, value: V) | Get(key: string)

  ghost function Run<V>(size: V -> nat, max: nat, ops: seq<Op<V>>): seq<Item<V>> {
    if ops == [] then []
    else
      var s, last := Run(size, max, ops[..|ops| - 1]), ops[|ops| - 1];
      Step(size, max, s, last)
  }

  ghost function Step<V>(size: V -> nat, max: nat, s: seq<Item<V>>, op: Op<V>): seq<Item<V>> {
    match op
    case Put(key, value) => Add(size, max, s, key, value)
    case Get(key) => Touch(s, key)
  }

  /** The number of operations up to and including the last one on `key`. */
  function LastUse<V>(ops: seq<Op<V>>, key: string): nat {
    if ops == [] then 0
    else if ops[|ops| - 1].key == key then |ops|
    else LastUse(ops[..|ops| - 1], key)
  }

  lemma {:induction false} LastUseBound<V>(ops: seq<Op<V>>, key: string)
    ensures LastUse(ops, key) <= |ops|
    decreases |ops|
  {
    if ops != [] {
      LastUseBound(ops[..|ops| - 1], key);
    }
  }

  ghost predicate ByRecency<V>(ops: seq<Op<V>>, s: seq<Item<V>>) {
    forall i, j | 0 <= i < j < |s| :: LastUse(ops, s[i].key) > LastUse(ops, s[j].key)
  }

  lemma RecencyIsUnique<V>(ops: seq<Op<V>>, s: seq<Item<V>>)
    requires ByRecency(ops, s)
    ensures UniqueKeys(s)
  {
  }

  /** An operation on a key puts it in front of all others. */
  lemma UsedComesFirst<V>(ops: seq<Op<V>>, op: Op<V>, s: seq<Item<V>>, x: Item<V>)
    requires ByRecency(ops, s) && !HasKey(s, op.key) && x.key == op.key
    ensures ByRecency(ops + [op], [x] + s)
  {
    var ops', t := ops + [op], [x] + s;
    assert ops'[..|ops|] == ops;
    forall i, j | 0 <= i < j < |t|
      ensures LastUse(ops', t[i].key) > LastUse(ops', t[j].key)
    {
      assert t[j] == s[j - 1] && s[j - 1].key != op.key;
      LastUseBound(ops, t[j].key);
      assert i > 0 ==> t[i] == s[i - 1] && s[i - 1].key != op.key;
    }
  }

  lemma UnusedKeepOrder<V>(ops: seq<Op<V>>, op: Op<V>, s: seq<Item<V>>)
    requires ByRecency(ops, s) && !HasKey(s, op.key)
    ensures ByRecency(ops + [op], s)
  {
  }

  lemma SubsequenceByRecency<V>(ops: seq<Op<V>>, s: seq<Item<V>>, i: nat)
    requires ByRecency(ops, s) && i < |s|
    ensures ByRecency(ops, Without(s, i)) && !HasKey(Without(s, i), s[i].key)
  {
  }

  /** After every run, from the front to the back of the list the last uses get older: what
      is evicted from the back is what has not been used for the longest time. */
  lemma {:induction false} RunIsByRecency<V>(size: V -> nat, max: nat, ops: seq<Op<V>>)
    ensures ByRecency(ops, Run(size, max, ops)) && UniqueKeys(Run(size, max, ops))
    decreases |ops|
  {
    if ops != [] {
      var init, last := ops[..|ops| - 1], ops[|ops| - 1];
      var s := Run(size, max, init);
      RunIsByRecency(size, max, init);
      assert ops == init + [last];
      if HasKey(s, last.key) {
        var i := Find(s, last.key);
        SubsequenceByRecency(init, s, i);
        var x := if last.Put? then Item(last.key, last.value) else s[i];
        UsedComesFirst(init, last, Without(s, i), x);
      } else if last.Put? {
        var x := Item(last.key, last.value);
        UsedComesFirst(init, last, s, x);
        EvictIsLongestFit(size, [x] + s, max);
      } else {
        UnusedKeepOrder(init, last, s);
      }
    }
    RecencyIsUnique(ops, Run(size, max, ops));
  }

  // ---- Values over a run ----

  /** The value last put under a key, if any. */
  function LastPut<V>(ops: seq<Op<V>>, key: string): Option<V> {
    if ops == [] then None
    else if ops[|ops| - 1].Put? && ops[|ops| - 1].key == key then Some(ops[|ops| - 1].value)
    else LastPut(ops[..|ops| - 1], key)
  }

  /** What one operation leaves: the value just put, and items that were there before. */
  lemma StepKeepsItems<V>(size: V -> nat, max: nat, s: seq<Item<V>>, op: Op<V>)
    requires UniqueKeys(s)
    ensures forall x <- Step(size, max, s, op) ::
              if op.Put? && x.key == op.key then x.value == op.value else x in s
  {
    if HasKey(s, op.key) {
      var i := Find(s, op.key);
      assert forall x <- Without(s, i) :: x in s && x.key != op.key;
    } else if op.Put? {
      EvictIsLongestFit(size, [Item(op.key, op.value)] + s, max);
      assert forall x <- s :: x.key != op.key;
    }
  }

  /** Without a limit an operation drops no key. */
  lemma StepKeepsKeys<V>(size: V -> nat, s: seq<Item<V>>, op: Op<V>, key: string)
    requires HasKey(s, key) || (op.Put? && op.key == key)
    ensures HasKey(Step(size, 0, s, op), key)
  {
    var s' := Step(size, 0, s, op);
    if HasKey(s, op.key) {
      var i := Find(s, op.key);
      assert s'[0].key == op.key;
      if key != op.key {
        var k := Find(s, key);
        assert s'[if k < i then k + 1 else k] == s[k];
      }
    } else if op.Put? {
      assert s' == [Item(op.key, op.value)] + s;
      assert s'[0].key == op.key;
      if key != op.key {
        var k := Find(s, key);
        assert s'[k + 1] == s[k];
      }
    }
  }

  /** After every run each cached value is the one last put under its key, and without a
      limit every key ever put is still there. */
  lemma {:induction false} RunHoldsLastValues<V>(size: V -> nat, max: nat, ops: seq<Op<V>>)
    ensures forall x <- Run(size, max, ops) :: LastPut(ops, x.key) == Some(x.value)
    ensures max == 0 ==> forall key :: LastPut(ops, key).Some? ==> HasKey(Run(size, max, ops), key)
    decreases |ops|
  {
    if ops != [] {
      var init, last := ops[..|ops| - 1], ops[|ops| - 1];
      var s := Run(size, max, init);
      RunHoldsLastValues(size, max, init);
      RunIsByRecency(size, max, init);
      StepKeepsItems(size, max, s, last);
      if max == 0 {
        forall key | LastPut(ops, key).Some?
          ensures HasKey(Run(size, max, ops), key)
        {
          StepKeepsKeys(size, s, last, key);
        }
      }
    }
  }
}

module Lru {
  import opened LruModel
  import opened Sequences
  import opened Wrappers

  /** A list element: its entry keeps its key, the value is replaced in place. */
  class Element<V> {
    const key: string
    var value: V

    constructor (key: string, value: V)
      ensures this.key == key && this.value == value
    {
      this.key, this.value := key, value;
    }
  }

  /** List and map link the same elements under distinct keys, and `items` is what the
      elements of the list hold. */
  ghost predicate Linked<V>(ll: seq<Element<V>>, cache: map<string, Element<V>>, items: seq<Item<V>>)
    reads ll
  {
    Listed(ll, items) && Indexed(ll, cache)
  }

  ghost predicate Listed<V>(ll: seq<Element<V>>, items: seq<Item<V>>)
    reads ll
  {
    && |items| == |ll|
    && (forall i, j | 0 <= i < j < |ll| :: ll[i].key != ll[j].key)
    && (forall i | 0 <= i < |ll| :: items[i] == Item(ll[i].key, ll[i].value))
  }

  ghost predicate Indexed<V>(ll: seq<Element<V>>, cache: map<string, Element<V>>) {
    && (forall i | 0 <= i < |ll| :: ll[i].key in cache && cache[ll[i].key] == ll[i])
    && (forall k <- cache :: cache[k].key == k && cache[k] in ll)
  }

  lemma LinkedKeys<V>(ll: seq<Element<V>>, cache: map<string, Element<V>>, items: seq<Item<V>>)
    requires Linked(ll, cache, items)
    ensures UniqueKeys(items)
    ensures forall k :: HasKey(items, k) <==> k in cache
  {
  }

  /** The entry at `i` in front of all the others. */
  function Promote<T>(s: seq<T>, i: nat): (r: seq<T>)
    requires i < |s|
    ensures |r| == |s|
    ensures forall a | 0 <= a < |s| :: r[a] == s[if a == 0 then i else if a <= i then a - 1 else a]
  {
    [s[i]] + Without(s, i)
  }

  lemma PromoteKeeps<T>(s: seq<T>, i: nat)
    requires i < |s|
    ensures forall x :: x in Promote(s, i) <==> x in s
  {
  }

  lemma LinkedFront<V>(ll: seq<Element<V>>, cache: map<string, Element<V>>, items: seq<Item<V>>, i: nat)
    requires Linked(ll, cache, items) && i < |ll| == |items|
    ensures Linked(Promote(ll, i), cache, Promote(items, i))
    ensures forall e :: e in Promote(ll, i) <==> e in ll
    ensures items[i].key == ll[i].key
  {
    PromoteKeeps(ll, i);
    ListedFront(ll, items, i);
    IndexedFront(ll, cache, i);
    hide Promote, Listed, Indexed;
  }

  lemma ListedFront<V>(ll: seq<Element<V>>, items: seq<Item<V>>, i: nat)
    requires Listed(ll, items) && i < |ll|
    ensures Listed(Promote(ll, i), Promote(items, i))
  {
  }

  lemma IndexedFront<V>(ll: seq<Element<V>>, cache: map<string, Element<V>>, i: nat)
    requires Indexed(ll, cache) && i < |ll|
    ensures Indexed(Promote(ll, i), cache)
  {
  }

  lemma LinkedPush<V>(ll: seq<Element<V>>, cache: map<string, Element<V>>, items: seq<Item<V>>, e: Element<V>)
    requires Linked(ll, cache, items) && e.key !in cache
    ensures Linked([e] + ll, cache[e.key := e], [Item(e.key, e.value)] + items)
  {
  }

  lemma LinkedPop<V>(ll: seq<Element<V>>, cache: map<string, Element<V>>, items: seq<Item<V>>, size: V -> nat)
    requires Linked(ll, cache, items)
    ensures |items| == |ll|
    ensures ll != [] ==>
              var e := ll[|ll| - 1];
              && items[|ll| - 1] == Item(e.key, e.value)
              && Linked(ll[..|ll| - 1], cache - {e.key}, items[..|ll| - 1])
              && Weight(size, items[..|ll| - 1]) == Weight(size, items) - (|e.key| + size(e.value))
  {
    if ll != [] {
      UnlinkLast(ll, cache, items);
      hide Linked;
      WeightConcat(size, items[..|ll| - 1], [items[|ll| - 1]]);
      assert items == items[..|ll| - 1] + [items[|ll| - 1]];
    }
  }

  lemma UnlinkLast<V>(ll: seq<Element<V>>, cache: map<string, Element<V>>, items: seq<Item<V>>)
    requires Linked(ll, cache, items) && ll != []
    ensures |items| == |ll| && items[|ll| - 1] == Item(ll[|ll| - 1].key, ll[|ll| - 1].value)
    ensures Linked(ll[..|ll| - 1], cache - {ll[|ll| - 1].key}, items[..|ll| - 1])
  {
  }

  lemma FrontIsTouch<V>(ll: seq<Element<V>>, cache: map<string, Element<V>>, items: seq<Item<V>>,
                        size: V -> nat, i: nat)
    requires Linked(ll, cache, items) && i < |ll| == |items|
    ensures var (l, s) := (Promote(ll, i), Promote(items, i));
            && Linked(l, cache, s) && (forall e :: e in l <==> e in ll)
            && s == Touch(items, ll[i].key) && Weight(size, s) == Weight(size, items)
    ensures HasKey(items, ll[i].key) && ll[i].key in cache
  {
    LinkedKeys(ll, cache, items);
    LinkedFront(ll, cache, items, i);
    FindIs(items, i);
    hide Linked;
    WeightWithout(size, items, i);
    WeightConcat(size, [items[i]], Without(items, i));
  }

  /** The position of an element in the list it is linked into. */
  method IndexOf<T(==)>(s: seq<T>, x: T) returns (i: nat)
    requires x in s
    ensures i < |s| && s[i] == x && x !in s[..i]
  {
    i := 0;
    while s[i] != x
      invariant i < |s| && x !in s[..i]
      decreases |s| - i
    {
      i := i + 1;
    }
  }

  class Cache<V> {
    const maxBytes: nat
    const size: V -> nat
    // Whether an OnEvicted callback is set.
    const notify: bool
    var nBytes: int
    var ll: seq<Element<V>>
    var cache: map<string, Element<V>>

    // The entries, most recently used first, and the ones OnEvicted has been called with.
    ghost var items: seq<Item<V>>
    ghost var evicted: seq<Item<V>>

    constructor (maxBytes: nat, size: V -> nat, notify: bool)
      ensures Valid() && items == [] && evicted == [] && ll == []
      ensures this.maxBytes == maxBytes && this.size == size && this.notify == notify
    {
      this.maxBytes, this.size, this.notify := maxBytes, size, notify;
      nBytes, ll, cache := 0, [], map[];
      items, evicted := [], [];
    }

    /** Map, list and byte counter describe the same entries. */
    ghost predicate Valid()
      reads this, ll
    {
      Linked(ll, cache, items) && |items| == |ll| && nBytes == Weight(size, items)
    }

    method MoveToFront(e: Element<V>)
      requires Valid() && e in ll
      modifies this`ll, this`items
      ensures Valid() && ll != [] && ll[0] == e && e.key in cache
      ensures forall x :: x in ll <==> x in old(ll)
      ensures HasKey(old(items), e.key) && items == Touch(old(items), e.key)
    {
      hide Linked, Touch, Find, HasKey, Promote;
      var i := IndexOf(ll, e);
      FrontIsTouch(ll, cache, items, size, i);
      ll, items := Promote(ll, i), Promote(items, i);
    }

    /** A known key only gets the new value and the front place; a new one is put in front
        and the least recently used entries are evicted, oldest first, as far as needed. */
    method Add(key: string, value: V)
      requires Valid()
      modifies this, ll
      ensures Valid() && (forall e <- ll :: e in old(ll) || fresh(e))
      ensures items == LruModel.Add(size, maxBytes, old(items), key, value)
      ensures Added(size, maxBytes, old(items), key, value, items)
      ensures evicted == old(evicted) +
                         if HasKey(old(items), key) || !notify then []
                         else Reverse(([Item(key, value)] + old(items))[|items|..])
    {
      hide Linked, Evict, Weight, Reverse, Added;
      AddExactly(size, maxBytes, items, key, value);
      LinkedKeys(ll, cache, items);
      if key in cache {
        Replace(key, value);
        return;
      }
      EvictEnd(size, [Item(key, value)] + items, maxBytes);
      ghost var all := [Item(key, value)] + items;
      Insert(key, value);
      while maxBytes != 0 && maxBytes < nBytes
        invariant Valid() && (forall x <- ll :: x in old(ll) || fresh(x))
        invariant items <= all && Evict(size, items, maxBytes) == Evict(size, all, maxBytes)
        invariant evicted == old(evicted) + if notify then Reverse(all[|items|..]) else []
        decreases |items|
      {
        EvictStep(size, all, items, maxBytes);
        RemoveOldest();
      }
    }

    /** The update path of Add, which never evicts. */
    method Replace(key: string, value: V)
      requires Valid() && key in cache
      modifies this, ll
      ensures Valid() && (forall e :: e in ll <==> e in old(ll)) && evicted == old(evicted)
      ensures HasKey(old(items), key)
      ensures items == [Item(key, value)] + Without(old(items), Find(old(items), key))
    {
      var e := cache[key];
      MoveToFront(e);
      WeightConcat(size, [items[0]], items[1..]);
      WeightConcat(size, [Item(key, value)], items[1..]);
      assert items == [items[0]] + items[1..];
      nBytes := nBytes + size(value) - size(e.value);
      e.value := value;
      items := [Item(key, value)] + items[1..];
    }

    /** The insertion path of Add, before eviction. */
    method Insert(key: string, value: V)
      requires Valid() && key !in cache
      modifies this
      ensures Valid() && (forall e <- ll :: e in old(ll) || fresh(e)) && evicted == old(evicted)
      ensures items == [Item(key, value)] + old(items)
    {
      hide Linked;
      var e := new Element(key, value);
      LinkedPush(ll, cache, items, e);
      ll, items := [e] + ll, [Item(key, value)] + items;
      cache := cache[key := e];
      nBytes := nBytes + |key| + size(value);
    }

    /** Unlinks the last entry, if any, and reports it. */
    method RemoveOldest()
      requires Valid()
      modifies this
      ensures Valid() && ll <= old(ll)
      ensures old(items) == [] ==> items == [] && evicted == old(evicted)
      ensures old(items) != [] ==>
                && items == old(items)[..|old(items)| - 1]
                && evicted == old(evicted) + if notify then [old(items)[|old(items)| - 1]] else []
    {
      hide Linked, Weight;
      LinkedPop(ll, cache, items, size);
      if ll == [] {
        return;
      }
      var ele := ll[|ll| - 1];
      if notify {
        evicted := evicted + [Item(ele.key, ele.value)];
      }
      cache := cache - {ele.key};
      nBytes := nBytes - (|ele.key| + size(ele.value));
      ll, items := ll[..|ll| - 1], items[..|ll| - 1];
    }

    method Get(key: string) returns (r: Option<V>)
      requires Valid()
      modifies this`ll, this`items
      ensures Valid() && (forall e :: e in ll <==> e in old(ll))
      ensures items == Touch(old(items), key) && Touched(old(items), key, items)
      ensures r == if HasKey(old(items), key) then Some(old(items)[Find(old(items), key)].value) else None
    {
      LinkedKeys(ll, cache, items);
      TouchExactly(items, key);
      hide Touched;
      if key !in cache {
        return None;
      }
      var e := cache[key];
      MoveToFront(e);
      r := Some(e.value);
      assert items[0].value == e.value;
    }

    method Len() returns (n: nat)
      requires Valid()
      ensures n == |items|
    {
      n := |ll|;
    }
  }
}
