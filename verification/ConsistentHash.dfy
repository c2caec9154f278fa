/** The consistent-hash ring: sorted points, their owners, and the lookup that goes to the
    next point clockwise. */
module ConsistentHash {

  ghost predicate Sorted(s: seq<int>) {
    forall i, j | 0 <= i < j < |s| :: s[i] <= s[j]
  }

  // ---- The lookup on any ring ----

  /** `p` is the least point at or after `h`, or the least point of all if there is none. */
  ghost predicate NextPoint(points: set<int>, h: int, p: int) {
    && p in points
    && if exists q <- points :: q >= h
       then p >= h && forall q <- points | q >= h :: p <= q
       else forall q <- points :: p <= q
  }

  /** Of a larger ring the next point is a new one, or the old one. */
  lemma NextPointOfLarger(points: set<int>, more: set<int>, h: int, p: int, q: int)
    requires NextPoint(points, h, p) && NextPoint(points + more, h, q)
    ensures q == p || q in more
  {
  }

  // ---- The map ----

  function Insert(s: seq<int>, x: int): seq<int> {
    if s == [] then [x]
    else if x <= s[0] then [x] + s
    else [s[0]] + Insert(s[1..], x)
  }

  /** sort.Ints. */
  function Sort(s: seq<int>): seq<int> {
    if s == [] then [] else Insert(Sort(s[1..]), s[0])
  }

  lemma SortedCons(x: int, s: seq<int>)
    requires Sorted(s) && forall y <- s :: x <= y
    ensures Sorted([x] + s)
  {
    assert forall j | 0 < j < |s| + 1 :: ([x] + s)[j] == s[j - 1] && s[j - 1] in s;
  }

  lemma {:induction false} InsertSorts(s: seq<int>, x: int)
    requires Sorted(s)
    ensures Sorted(Insert(s, x)) && multiset(Insert(s, x)) == multiset(s) + multiset{x}
    decreases |s|
  {
    if s == [] {
    } else if x <= s[0] {
      SortedCons(x, s);
    } else {
      assert s == [s[0]] + s[1..];
      InsertSorts(s[1..], x);
      var t := Insert(s[1..], x);
      forall y <- t
        ensures s[0] <= y
      {
        assert y in multiset(t);
        assert y in multiset(s[1..]) + multiset{x};
      }
      SortedCons(s[0], t);
    }
  }

  lemma {:induction false} SortSorts(s: seq<int>)
    ensures Sorted(Sort(s)) && multiset(Sort(s)) == multiset(s)
    decreases |s|
  {
    if s != [] {
      assert s == [s[0]] + s[1..];
      SortSorts(s[1..]);
      InsertSorts(Sort(s[1..]), s[0]);
    }
  }

  /** sort.Search: the first index from which on `keys[i] >= h`. */
  method Search(keys: seq<int>, h: int) returns (i: nat)
    requires Sorted(keys)
    ensures i <= |keys|
    ensures forall k | 0 <= k < i :: keys[k] < h
    ensures forall k | i <= k < |keys| :: keys[k] >= h
  {
    i := 0;
    var j: nat := |keys|;
    while i < j
      invariant i <= j <= |keys|
      invariant forall k | 0 <= k < i :: keys[k] < h
      invariant forall k | j <= k < |keys| :: keys[k] >= h
    {
      var m := i + (j - i) / 2;
      if !(keys[m] >= h) {
        i := m + 1;
      } else {
        j := m;
      }
    }
  }

  /** Who answers for `key`: the owner of the next point, and nobody on an empty ring. */
  ghost predicate Answers(hashMap: map<int, string>, h: int, answer: string) {
    if hashMap == map[] then answer == ""
    else exists p :: NextPoint(hashMap.Keys, h, p) && hashMap[p] == answer
  }

  /** A ring gives one answer for a hash. */
  lemma AnswerIsUnique(hashMap: map<int, string>, h: int, a: string, b: string)
    requires Answers(hashMap, h, a) && Answers(hashMap, h, b)
    ensures a == b
  {
  }

  /** The owners after `names` have been added, each under `replicas` equal points. */
  function AddAll(hash: string -> nat, replicas: int, m: map<int, string>, names: seq<string>): map<int, string>
    decreases |names|
  {
    if names == [] || replicas <= 0 then m
    else AddAll(hash, replicas, m[hash(names[0]) := names[0]], names[1..])
  }

  /** The owner of a point after an Add: the last of the names that hash to it, or whoever
      had it before. Without replicas nothing is added. */
  lemma {:induction false} AddAllOwners(hash: string -> nat, m: map<int, string>, names: seq<string>, replicas: int, p: int)
    ensures replicas <= 0 ==> AddAll(hash, replicas, m, names) == m
    ensures replicas > 0 ==>
              var m' := AddAll(hash, replicas, m, names);
              && (p in m' <==> p in m || exists i :: 0 <= i < |names| && hash(names[i]) == p)
              && (forall i | 0 <= i < |names| && hash(names[i]) == p && (forall j | i < j < |names| :: hash(names[j]) != p)
                    :: p in m' && m'[p] == names[i])
              && ((forall i | 0 <= i < |names| :: hash(names[i]) != p) && p in m ==> m'[p] == m[p])
    decreases |names|
  {
    if names != [] && replicas > 0 {
      var rest, first := names[1..], m[hash(names[0]) := names[0]];
      AddAllOwners(hash, first, rest, replicas, p);
      assert forall i | 0 < i < |names| :: names[i] == rest[i - 1];
      forall i | 0 <= i < |names| && hash(names[i]) == p && forall j | i < j < |names| :: hash(names[j]) != p
        ensures AddAll(hash, replicas, m, names)[p] == names[i]
      {
        if i > 0 {
          assert rest[i - 1] == names[i];
          assert forall j | i - 1 < j < |rest| :: rest[j] == names[j + 1];
        } else {
          assert forall j | 0 <= j < |rest| :: rest[j] == names[j + 1];
        }
      }
    }
  }

  lemma {:induction false} AddAllKeepsOrReplaces(hash: string -> nat, replicas: int, m: map<int, string>, names: seq<string>)
    ensures var m' := AddAll(hash, replicas, m, names);
            && m.Keys <= m'.Keys
            && (forall p <- m' :: (p in m && m'[p] == m[p]) || m'[p] in names)
    decreases |names|
  {
    if names != [] && replicas > 0 {
      AddAllKeepsOrReplaces(hash, replicas, m[hash(names[0]) := names[0]], names[1..]);
      assert names == [names[0]] + names[1..];
    }
  }

  /** After names are added, every lookup is answered by whoever answered it before or by
      one of the names, whatever points collide. */
  lemma AddMovesKeysToNewcomersOnly(hash: string -> nat, replicas: int, m: map<int, string>, names: seq<string>,
                                    h: int, before: string, after: string)
    requires Answers(m, h, before) && Answers(AddAll(hash, replicas, m, names), h, after)
    ensures after == before || after in names
  {
    var m' := AddAll(hash, replicas, m, names);
    AddAllKeepsOrReplaces(hash, replicas, m, names);
    if m' != map[] {
      var q :| NextPoint(m'.Keys, h, q) && m'[q] == after;
      if m != map[] && after !in names {
        var p :| NextPoint(m.Keys, h, p) && m[p] == before;
        assert m.Keys + (m'.Keys - m.Keys) == m'.Keys;
        NextPointOfLarger(m.Keys, m'.Keys - m.Keys, h, p, q);
      }
    }
  }

  class Map {
    const hash: string -> nat
    const replicas: int
    var keys: seq<int>
    var hashMap: map<int, string>

    constructor (replicas: int, hash: string -> nat)
      ensures Valid() && hashMap == map[] && this.replicas == replicas && this.hash == hash
    {
      this.replicas, this.hash := replicas, hash;
      keys, hashMap := [], map[];
    }

    /** The points are sorted, with duplicates, and all of them have an owner. */
    ghost predicate Valid()
      reads this
    {
      Sorted(keys) && forall p :: p in keys <==> p in hashMap
    }

    method Add(names: seq<string>)
      requires Valid()
      modifies this
      ensures Valid() && hashMap == AddAll(hash, replicas, old(hashMap), names)
      ensures |keys| == |old(keys)| + if replicas > 0 then |names| * replicas else 0
    {
      assert names[0..] == names;
      for n := 0 to |names|
        invariant forall p :: p in keys <==> p in hashMap
        invariant AddAll(hash, replicas, hashMap, names[n..]) == AddAll(hash, replicas, old(hashMap), names)
        invariant replicas <= 0 ==> hashMap == old(hashMap) && |keys| == |old(keys)|
        invariant replicas > 0 ==> |keys| == |old(keys)| + n * replicas
      {
        assert names[n..][1..] == names[n + 1..] && names[n..][0] == names[n];
        AddReplicas(names[n]);
        assert (n + 1) * replicas == n * replicas + replicas;
      }
      SortSorts(keys);
      assert |Sort(keys)| == |multiset(Sort(keys))| == |multiset(keys)|;
      assert forall p :: p in Sort(keys) <==> p in multiset(Sort(keys));
      keys := Sort(keys);
    }

    /** The inner loop of Add: every replica of a name hashes to the same point. */
    method AddReplicas(name: string)
      requires forall p :: p in keys <==> p in hashMap
      modifies this
      ensures forall p :: p in keys <==> p in hashMap
      ensures hashMap == if replicas <= 0 then old(hashMap) else old(hashMap)[hash(name) := name]
      ensures |keys| == |old(keys)| + if replicas <= 0 then 0 else replicas
    {
      var i := 0;
      while i < replicas
        invariant 0 <= i && if replicas > 0 then i <= replicas else i == 0
        invariant forall p :: p in keys <==> p in hashMap
        invariant hashMap == if i == 0 then old(hashMap) else old(hashMap)[hash(name) := name]
        invariant |keys| == |old(keys)| + i
      {
        var h := hash(name);
        keys := keys + [h];
        hashMap := hashMap[h := name];
        i := i + 1;
      }
    }

    method Get(key: string) returns (owner: string)
      requires Valid()
      ensures Answers(hashMap, hash(key), owner)
    {
      if |keys| == 0 {
        assert forall p <- hashMap :: p in keys;
        return "";
      }
      var h := hash(key);
      var idx := Search(keys, h);
      SearchedIsNext(keys, hashMap.Keys, h, idx);
      WrapIndex(idx, |keys|);
      owner := hashMap[keys[idx % |keys|]];
    }
  }

  lemma WrapIndex(i: nat, n: nat)
    requires i <= n && n > 0
    ensures i % n == if i < n then i else 0
  {
  }

  lemma SearchedIsNext(keys: seq<int>, points: set<int>, h: int, idx: nat)
    requires Sorted(keys) && keys != [] && idx <= |keys|
    requires forall p :: p in keys <==> p in points
    requires forall k | 0 <= k < idx :: keys[k] < h
    requires forall k | idx <= k < |keys| :: keys[k] >= h
    ensures NextPoint(points, h, keys[if idx < |keys| then idx else 0])
  {
  }
}
