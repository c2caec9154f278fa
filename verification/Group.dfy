/** The Group above the cache: byte views, the lazily created cache, and the read path that
    falls back to the getter. */
module Group {
  import opened Bytes
  import opened LruModel
  import opened Wrappers
  import Lru

  /** The getter's own failures, and the refusal of an empty key. */
  datatype Error = KeyIsEmpty | Source(code: int)

  /** An immutable view: its array is never written to after it has been filled. */
  datatype ByteView = ByteView(b: array<byte>) {
    function Len(): nat { b.Length }

    /** A copy for the caller to keep. */
    method ByteSlice() returns (c: array<byte>)
      ensures fresh(c) && c[..] == b[..]
    {
      c := CloneBytes(b);
    }
  }

  method CloneBytes(b: array<byte>) returns (c: array<byte>)
    ensures fresh(c) && c[..] == b[..]
  {
    c := new byte[b.Length](i requires 0 <= i < b.Length reads b => b[i]);
  }

  const ViewLen: ByteView -> nat := (v: ByteView) => v.Len()

  /** The cache struct: the LRU cache comes into being with the first add. */
  class Cache {
    const cacheBytes: nat
    var lru: Lru.Cache?<ByteView>

    constructor (cacheBytes: nat)
      ensures Valid() && this.cacheBytes == cacheBytes && lru == null
    {
      this.cacheBytes := cacheBytes;
      lru := null;
    }

    ghost function Objects(): set<object>
      reads this, lru
    {
      {this as object} + if lru == null then {} else {lru as object} + set e | e in lru.ll :: e as object
    }

    ghost predicate Valid()
      reads this, lru, if lru == null then [] else lru.ll
    {
      lru != null ==> lru.Valid() && lru.maxBytes == cacheBytes && lru.size == ViewLen && !lru.notify
    }

    ghost function Items(): seq<Item<ByteView>>
      reads this, lru
    {
      if lru == null then [] else lru.items
    }

    method Add(key: string, value: ByteView)
      requires Valid()
      modifies Objects()
      ensures Valid() && fresh(Objects() - old(Objects()))
      ensures Items() == LruModel.Add(ViewLen, cacheBytes, old(Items()), key, value)
    {
      if lru == null {
        lru := new Lru.Cache(cacheBytes, ViewLen, false);
      }
      lru.Add(key, value);
    }

    method Get(key: string) returns (r: Option<ByteView>)
      requires Valid()
      modifies Objects()
      ensures Valid() && Objects() == old(Objects())
      ensures Items() == Touch(old(Items()), key)
      ensures r == if HasKey(old(Items()), key) then Some(old(Items())[Find(old(Items()), key)].value)
                   else None
    {
      if lru == null {
        return None;
      }
      r := lru.Get(key);
    }
  }

  /** What a Get with answer `r` leaves of the cache: a known key comes to the front, and of
      an unknown one the answer is added if it is no error. */
  ghost function Read(max: nat, items: seq<Item<ByteView>>, key: string, r: Result<ByteView, Error>): seq<Item<ByteView>> {
    if key == "" then items
    else if HasKey(items, key) then Touch(items, key)
    else if r.Ok? then LruModel.Add(ViewLen, max, items, key, r.value)
    else items
  }

  /** Since Get never updates a cached key, the cache keeps to its limit. */
  lemma ReadStaysWithin(max: nat, items: seq<Item<ByteView>>, key: string, r: Result<ByteView, Error>)
    requires max != 0 && Weight(ViewLen, items) <= max
    ensures Weight(ViewLen, Read(max, items, key, r)) <= max
  {
    if HasKey(items, key) {
      var i := Find(items, key);
      WeightWithout(ViewLen, items, i);
      WeightConcat(ViewLen, [items[i]], Without(items, i));
    } else if r.Ok? {
      EvictIsLongestFit(ViewLen, [Item(key, r.value)] + items, max);
    }
  }

  /** A group caches what its getter, a function of the key, returns. */
  class Group {
    const getter: string -> Result<seq<byte>, Error>
    const mainCache: Cache

    // The arrays behind the views this group has ever cached.
    ghost var views: set<array<byte>>

    constructor (cacheBytes: nat, getter: string -> Result<seq<byte>, Error>)
      ensures Valid() && fresh(Objects()) && views == {} && this.getter == getter
    {
      this.getter := getter;
      mainCache := new Cache(cacheBytes);
      views := {};
    }

    ghost function Objects(): set<object>
      reads this, mainCache, mainCache.lru
    {
      {this as object} + mainCache.Objects()
    }

    /** Every cached view shows what the getter returns for its key. */
    ghost predicate Valid()
      reads this, mainCache, mainCache.lru
      reads if mainCache.lru == null then [] else mainCache.lru.ll
      reads views
    {
      && mainCache.Valid()
      && Transparent(mainCache.Items(), views)
    }

    ghost predicate Transparent(items: seq<Item<ByteView>>, views: set<array<byte>>)
      reads views
    {
      forall item <- items :: item.value.b in views && getter(item.key) == Ok(item.value.b[..])
    }

    lemma AddStaysTransparent(items: seq<Item<ByteView>>, views: set<array<byte>>, key: string, value: ByteView)
      requires Transparent(items, views) && getter(key) == Ok(value.b[..])
      ensures Transparent(LruModel.Add(ViewLen, mainCache.cacheBytes, items, key, value), views + {value.b})
    {
      AddKeepsItems(ViewLen, mainCache.cacheBytes, items, key, value);
    }

    lemma HitIsTransparent(items: seq<Item<ByteView>>, key: string)
      requires Transparent(items, views)
      ensures Transparent(Touch(items, key), views) && (!HasKey(items, key) ==> Touch(items, key) == items)
      ensures HasKey(items, key) ==> Loads(key, Ok(items[Find(items, key)].value))
    {
    }

    /** What the getter returns when it is asked now: an array of its own, or an error. */
    ghost predicate Fetched(key: string, fetched: Result<array<byte>, Error>)
      reads if fetched.Ok? then {fetched.value} else {}
    {
      match fetched
      case Ok(bytes) => getter(key) == Ok(bytes[..])
      case Err(e) => getter(key) == Err(e)
    }

    /** The getter's bytes as an array the group owns, or its error. */
    ghost predicate Loads(key: string, r: Result<ByteView, Error>)
      reads this, if r.Ok? then {r.value.b} else {}
    {
      match getter(key)
      case Ok(bytes) => r.Ok? && r.value.b in views && r.value.b[..] == bytes
      case Err(e) => r == Err(e)
    }

    /** The same, but the empty key is refused. */
    ghost predicate Answers(key: string, r: Result<ByteView, Error>)
      reads this, if r.Ok? then {r.value.b} else {}
    {
      if key == "" then r == Err(KeyIsEmpty) else Loads(key, r)
    }

    /** Whatever has been cached or evicted before, the answer is the getter's: the bytes as
        an array the group owns, or the error. A hit is served from the cache. */
    method Get(key: string, fetched: Result<array<byte>, Error>) returns (r: Result<ByteView, Error>)
      requires Valid() && Fetched(key, fetched)
      modifies Objects()
      ensures Valid() && fresh(Objects() - old(Objects())) && fresh(views - old(views))
      ensures old(views) <= views
      ensures Answers(key, r)
      ensures key != "" && HasKey(old(mainCache.Items()), key) ==>
                r == Ok(old(mainCache.Items())[Find(old(mainCache.Items()), key)].value)
      ensures mainCache.Items() == Read(mainCache.cacheBytes, old(mainCache.Items()), key, r)
    {
      hide Cache.Valid, Transparent, Loads, Fetched, Lru.Cache.Valid, LruModel.Touch, LruModel.HasKey, LruModel.Find;
      if key == "" {
        return Err(KeyIsEmpty);
      }
      HitIsTransparent(mainCache.Items(), key);
      var hit := mainCache.Get(key);
      if hit.Some? {
        return Ok(hit.value);
      }
      r := GetLocally(key, fetched);
    }

    method GetLocally(key: string, fetched: Result<array<byte>, Error>) returns (r: Result<ByteView, Error>)
      requires Valid() && Fetched(key, fetched)
      modifies Objects()
      ensures Valid() && fresh(Objects() - old(Objects())) && fresh(views - old(views))
      ensures old(views) <= views
      ensures Loads(key, r)
      ensures r.Ok? ==> fresh(r.value.b)
      ensures mainCache.Items() ==
              if r.Ok? then LruModel.Add(ViewLen, mainCache.cacheBytes, old(mainCache.Items()), key, r.value)
              else old(mainCache.Items())
    {
      hide Valid, LruModel.Add;
      if fetched.Err? {
        return Err(fetched.error);
      }
      var b := CloneBytes(fetched.value);
      var value := ByteView(b);
      PopulateCache(key, value);
      r := Ok(value);
    }

    method PopulateCache(key: string, value: ByteView)
      requires Valid() && getter(key) == Ok(value.b[..])
      modifies Objects()
      ensures Valid() && fresh(Objects() - old(Objects())) && views == old(views) + {value.b}
      ensures mainCache.Items() == LruModel.Add(ViewLen, mainCache.cacheBytes, old(mainCache.Items()), key, value)
    {
      hide Cache.Valid, Transparent, LruModel.Add, Lru.Cache.Valid;
      AddStaysTransparent(mainCache.Items(), views, key, value);
      views := views + {value.b};
      mainCache.Add(key, value);
    }
  }

  lemma AddKeepsItems<V>(size: V -> nat, max: nat, s: seq<Item<V>>, key: string, value: V)
    ensures forall x <- LruModel.Add(size, max, s, key, value) :: x == Item(key, value) || x in s
  {
    if !HasKey(s, key) {
      EvictIsLongestFit(size, [Item(key, value)] + s, max);
    }
  }

  // ---- Callers who write to what they hold ----

  /** A caller asks for a key and keeps the slice its getter returned and a ByteSlice of the
      answer, or overwrites a byte of any slice it holds. */
  datatype Action = Ask(key: string) | Overwrite(which: nat, i: nat, x: byte)

  /** The keys asked for, in order. */
  function Keys(actions: seq<Action>): seq<string> {
    if actions == [] then []
    else Keys(actions[..|actions| - 1]) + match actions[|actions| - 1] case Ask(key) => [key] case _ => []
  }

  /** What the getter returns: a slice of the caller's. */
  method Fetch(g: Group, key: string) returns (fetched: Result<array<byte>, Error>)
    ensures g.Fetched(key, fetched) && (fetched.Ok? ==> fresh(fetched.value))
  {
    var got := g.getter(key);
    match got
    case Ok(bytes) =>
      var b := new byte[|bytes|](i requires 0 <= i < |bytes| => bytes[i]);
      assert b[..] == bytes;
      fetched := Ok(b);
    case Err(e) =>
      fetched := Err(e);
  }

  /** One Get, with the slices that the caller has afterwards. */
  method AskOnce(g: Group, key: string) returns (r: Result<ByteView, Error>, slices: seq<array<byte>>)
    requires g.Valid()
    modifies g.Objects()
    ensures g.Valid() && fresh(g.Objects() - old(g.Objects())) && old(g.views) <= g.views
    ensures fresh(g.views - old(g.views))
    ensures g.Answers(key, r)
    ensures forall i | 0 <= i < |slices| :: fresh(slices[i]) && slices[i] !in g.views
  {
    hide Group.Valid, Read;
    slices := [];
    var fetched := Fetch(g, key);
    if fetched.Ok? {
      slices := [fetched.value];
    }
    assert g.Objects() == old(g.Objects());
    r := g.Get(key, fetched);
    assert fresh(g.Objects() - old(g.Objects()));
    if r.Ok? {
      var copy := r.value.ByteSlice();
      slices := slices + [copy];
    }
  }

  /** Writing to an array that is not behind a cached view leaves the group as it is. */
  method OverwriteByte(g: Group, a: array<byte>, i: nat, x: byte)
    requires g.Valid() && a !in g.views && i < a.Length
    modifies a
    ensures g.Valid() && a[..] == old(a[..])[i := x]
  {
    hide Cache.Valid;
    a[i] := x;
  }

  lemma ArraysAreNoObjects(g: Group, a: array<byte>)
    ensures a !in g.Objects()
  {
  }

  /** One action of the caller, and the slices it has afterwards. */
  method Act(g: Group, action: Action, slices: seq<array<byte>>)
      returns (r: Result<ByteView, Error>, more: seq<array<byte>>)
    requires g.Valid() && forall i | 0 <= i < |slices| :: slices[i] !in g.views
    modifies g.Objects(), set a | a in slices
    ensures g.Valid() && fresh(g.Objects() - old(g.Objects())) && old(g.views) <= g.views
    ensures forall v <- old(g.views) :: v[..] == old(v[..])
    ensures action.Ask? ==> g.Answers(action.key, r)
    ensures forall i | 0 <= i < |slices| :: slices[i] !in g.views
    ensures forall i | 0 <= i < |more| :: fresh(more[i]) && more[i] !in g.views
  {
    hide Group.Valid, Group.Answers;
    r, more := Err(KeyIsEmpty), [];
    match action
    case Ask(key) =>
      r, more := AskOnce(g, key);
    case Overwrite(which, i, x) =>
      if which < |slices| && i < slices[which].Length {
        ArraysAreNoObjects(g, slices[which]);
        OverwriteByte(g, slices[which], i, x);
      }
  }

  /** Whatever its caller asks and overwrites, in any order, the group answers as the getter
      does, and every view it has answered with shows those bytes to the end. `held` are
      slices the caller has from the start. */
  method Session(g: Group, actions: seq<Action>, held: seq<array<byte>>) returns (rs: seq<Result<ByteView, Error>>)
    requires g.Valid() && forall i | 0 <= i < |held| :: held[i] !in g.views
    modifies g.Objects(), set a | a in held
    ensures g.Valid() && |rs| == |Keys(actions)|
    ensures forall k | 0 <= k < |rs| :: g.Answers(Keys(actions)[k], rs[k])
  {
    hide Group.Valid;
    rs := [];
    var slices := held;
    for n := 0 to |actions|
      invariant g.Valid() && fresh(g.Objects() - old(g.Objects()))
      invariant |rs| == |Keys(actions[..n])|
      invariant forall k | 0 <= k < |rs| :: g.Answers(Keys(actions[..n])[k], rs[k])
      invariant forall i | 0 <= i < |slices| :: slices[i] !in g.views && (fresh(slices[i]) || slices[i] in held)
    {
      assert actions[..n + 1][..n] == actions[..n];
      var r, more := Act(g, actions[n], slices);
      slices := slices + more;
      if actions[n].Ask? {
        rs := rs + [r];
      }
    }
    assert actions[..|actions|] == actions;
  }
}
