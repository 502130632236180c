/** The fixed-capacity least-recently-set cache: a dictionary from keys to
    list nodes, and a doubly linked list whose head is the most recently set
    entry and whose tail is the next to be evicted. */
module Lru {

  type Bytes = seq<bv8>

  /** The error a lookup of an absent key reports. */
  datatype Error = ErrNotFound

  datatype Result<T> = Ok(value: T) | Err(error: Error)

  /** A list node. Its neighbours are named by their keys, which are unique in the cache. */
  datatype Node = Node(key: string, val: Bytes, prev: Option<string>, next: Option<string>)

  datatype Option<T> = None | Some(value: T)

  predicate Distinct(s: seq<string>) {
    forall i, j :: 0 <= i < j < |s| ==> s[i] != s[j]
  }

  /** What a cache holds, seen from outside: its capacity, its keys from most
      to least recently set, and the value stored under each key. */
  datatype CacheState = CacheState(capacity: int, order: seq<string>, vals: map<string, Bytes>)

  /** Every key once in the order, the order and the stored keys agree, and
      there are never more entries than the capacity allows. */
  ghost predicate Consistent(c: CacheState) {
    && Distinct(c.order)
    && c.vals.Keys == Elems(c.order)
    && (c.order == [] || |c.order| <= c.capacity)
  }

  /** The set of keys in an order. */
  function Elems(order: seq<string>): set<string>
  {
    if order == [] then {} else {order[0]} + Elems(order[1..])
  }

  lemma {:induction false} ElemsIndex(order: seq<string>, k: string) returns (i: nat)
    requires k in Elems(order)
    ensures i < |order| && order[i] == k
  {
    if order[0] == k {
      i := 0;
    } else {
      var j := ElemsIndex(order[1..], k);
      i := j + 1;
    }
  }

  lemma {:induction false} ElemsContains(order: seq<string>, i: nat)
    requires i < |order|
    ensures order[i] in Elems(order)
  {
    if i > 0 {
      ElemsContains(order[1..], i - 1);
    }
  }

  lemma ElemsCons(k: string, order: seq<string>)
    ensures Elems([k] + order) == {k} + Elems(order)
  {
    assert ([k] + order)[1..] == order;
  }

  lemma {:induction false} ElemsCard(order: seq<string>)
    requires Distinct(order)
    ensures |Elems(order)| == |order|
  {
    if order != [] {
      assert Distinct(order[1..]) by {
        forall a, b | 0 <= a < b < |order[1..]| ensures order[1..][a] != order[1..][b] {
          assert order[1..][a] == order[a + 1] && order[1..][b] == order[b + 1];
        }
      }
      ElemsCard(order[1..]);
      if order[0] in Elems(order[1..]) {
        var i := ElemsIndex(order[1..], order[0]);
        assert false;
      }
    }
  }

  /** The order with every occurrence of `key` dropped. */
  function Without(order: seq<string>, key: string): (r: seq<string>)
    ensures |r| <= |order|
  {
    if order == [] then []
    else (if order[0] == key then [] else [order[0]]) + Without(order[1..], key)
  }

  function Empty(capacity: int): CacheState {
    CacheState(capacity, [], map[])
  }

  /** Lookup: the stored value, or ErrNotFound. */
  function GetState(c: CacheState, key: string): Result<Bytes> {
    if key in c.vals then Ok(c.vals[key]) else Err(ErrNotFound)
  }

  /** Unlinking one entry. */
  function RemoveState(c: CacheState, key: string): CacheState {
    c.(order := Without(c.order, key), vals := c.vals - {key})
  }

  /** Linking an entry at the head, first evicting the tail when the cache is full. */
  function AddState(c: CacheState, key: string, val: Bytes): CacheState
    requires c.capacity >= 1
  {
    Push(Evict(c), key, val)
  }

  /** A full cache drops its least recently set key; any other is left alone. */
  function Evict(c: CacheState): CacheState
    requires c.capacity >= 1
  {
    if |c.order| == c.capacity then RemoveState(c, c.order[|c.order| - 1]) else c
  }

  /** A key stored as the most recently set one. */
  function Push(c: CacheState, key: string, val: Bytes): CacheState
  {
    c.(order := [key] + c.order, vals := c.vals[key := val])
  }

  /** Setting a key: nothing at all without capacity; an existing key is
      unlinked and relinked at the head with its old value kept; a new one
      is added. */
  function SetState(c: CacheState, key: string, val: Bytes): CacheState {
    if c.capacity < 1 then c
    else if key in c.vals then AddState(RemoveState(c, key), key, c.vals[key])
    else AddState(c, key, val)
  }

  lemma {:induction false} WithoutAbsent(order: seq<string>, key: string)
    requires key !in order
    ensures Without(order, key) == order
  {
    if order != [] {
      WithoutAbsent(order[1..], key);
    }
  }

  /** In an order without repeats, dropping the key at position `i` splices
      it out and keeps every other key in its place relative to the rest. */
  lemma {:induction false} WithoutSplice(order: seq<string>, i: nat)
    requires Distinct(order) && i < |order|
    ensures Without(order, order[i]) == order[..i] + order[i + 1..]
  {
    if i == 0 {
      WithoutAbsent(order[1..], order[0]);
    } else {
      assert Distinct(order[1..]) by {
        forall a, b | 0 <= a < b < |order[1..]| ensures order[1..][a] != order[1..][b] {
          assert order[1..][a] == order[a + 1] && order[1..][b] == order[b + 1];
        }
      }
      WithoutSplice(order[1..], i - 1);
      assert order[1..][i - 1] == order[i];
      assert order[..i] == [order[0]] + order[1..][..i - 1];
      assert order[i + 1..] == order[1..][i..];
    }
  }

  /** Dropping a key drops exactly that key from the set of keys. */
  lemma {:induction false} WithoutElems(order: seq<string>, key: string)
    ensures Elems(Without(order, key)) == Elems(order) - {key}
  {
    if order != [] {
      WithoutElems(order[1..], key);
      var rest := Without(order[1..], key);
      if order[0] != key {
        ElemsCons(order[0], rest);
      } else {
        assert [] + rest == rest;
      }
    }
  }

  lemma DistinctWithout(order: seq<string>, i: nat)
    requires Distinct(order) && i < |order|
    ensures Distinct(order[..i] + order[i + 1..])
  {
    var r := order[..i] + order[i + 1..];
    forall a, b | 0 <= a < b < |r| ensures r[a] != r[b] {
      var a', b' := if a < i then a else a + 1, if b < i then b else b + 1;
      assert r[a] == order[a'] && r[b] == order[b'];
    }
  }

  /** Unlinking a present key from a consistent state leaves a consistent
      state with one entry fewer. */
  lemma RemoveConsistent(c: CacheState, key: string)
    requires Consistent(c) && key in c.vals
    ensures Consistent(RemoveState(c, key))
    ensures |RemoveState(c, key).order| == |c.order| - 1
  {
    var i := ElemsIndex(c.order, key);
    WithoutSplice(c.order, i);
    DistinctWithout(c.order, i);
    WithoutElems(c.order, key);
  }

  /** Linking a new key into a consistent state leaves a consistent state. */
  lemma AddConsistent(c: CacheState, key: string, val: Bytes)
    requires Consistent(c) && c.capacity >= 1 && key !in c.vals
    ensures Consistent(AddState(c, key, val))
  {
    var c' := Evict(c);
    if |c.order| == c.capacity {
      ElemsContains(c.order, |c.order| - 1);
      RemoveConsistent(c, c.order[|c.order| - 1]);
    }
    var r := AddState(c, key, val);
    assert r.order == [key] + c'.order;
    ElemsCons(key, c'.order);
    forall a, b | 0 <= a < b < |r.order| ensures r.order[a] != r.order[b] {
      assert r.order[b] == c'.order[b - 1];
      ElemsContains(c'.order, b - 1);
      if a > 0 {
        assert r.order[a] == c'.order[a - 1];
      }
    }
  }

  /** Set keeps the cache consistent: never more entries than the capacity,
      and the stored keys and the order agree, each key once. */
  lemma SetConsistent(c: CacheState, key: string, val: Bytes)
    requires Consistent(c)
    ensures Consistent(SetState(c, key, val))
  {
    if c.capacity >= 1 {
      if key in c.vals {
        RemoveConsistent(c, key);
        AddConsistent(RemoveState(c, key), key, c.vals[key]);
      } else {
        AddConsistent(c, key, val);
      }
    }
  }

  /** Without capacity nothing is ever stored: Set changes nothing and every lookup fails. */
  lemma NoCapacity(c: CacheState, key: string, val: Bytes, k: string)
    requires Consistent(c) && c.capacity < 1
    ensures SetState(c, key, val) == c
    ensures GetState(SetState(c, key, val), k) == Err(ErrNotFound)
  {
    assert c.order == [];
  }

  /** Setting a key that is present moves it to the head and leaves the
      stored keys, their number and every value unchanged. */
  lemma SetExisting(c: CacheState, key: string, val: Bytes)
    requires Consistent(c) && c.capacity >= 1 && key in c.vals
    ensures var r := SetState(c, key, val);
            && r.order == [key] + Without(c.order, key)
            && |r.order| == |c.order|
            && r.vals == c.vals
  {
    RemoveConsistent(c, key);
    var r := SetState(c, key, val);
    assert |Without(c.order, key)| < c.capacity;
    assert r.vals.Keys == c.vals.Keys;
  }

  /** Setting a new key in a full cache evicts the tail, the least recently
      set key, and puts the new key at the head with its value. */
  lemma SetNewFull(c: CacheState, key: string, val: Bytes)
    requires Consistent(c) && c.capacity >= 1 && key !in c.vals && |c.order| == c.capacity
    ensures var r := SetState(c, key, val);
            var last := c.order[|c.order| - 1];
            && r.order == [key] + c.order[..|c.order| - 1]
            && |r.order| == |c.order|
            && GetState(r, last) == Err(ErrNotFound)
            && GetState(r, key) == Ok(val)
            && forall k :: k in c.vals && k != last ==> GetState(r, k) == GetState(c, k)
  {
    var n := |c.order| - 1;
    WithoutSplice(c.order, n);
    ElemsContains(c.order, n);
    assert c.order[n + 1..] == [];
    assert c.order[..n] + [] == c.order[..n];
  }

  /** Setting a new key in a cache with room puts it at the head and evicts nothing. */
  lemma SetNewRoom(c: CacheState, key: string, val: Bytes)
    requires Consistent(c) && c.capacity >= 1 && key !in c.vals && |c.order| < c.capacity
    ensures var r := SetState(c, key, val);
            && r.order == [key] + c.order
            && r.vals == c.vals[key := val]
  {
  }

  /** After a Set with capacity, the key is found; it holds the new value
      only if it was absent before. */
  lemma SetThenGet(c: CacheState, key: string, val: Bytes)
    requires Consistent(c) && c.capacity >= 1
    ensures GetState(SetState(c, key, val), key) == Ok(if key in c.vals then c.vals[key] else val)
  {
  }

  /** Capacity two: set one, two, one, three. Touching one made two the least
      recently set, so three evicts two. */
  lemma CapacityTwo()
    ensures var one, two, three: Bytes := [0x31], [0x32], [0x33];
            var c := SetState(SetState(SetState(SetState(Empty(2), "one", one), "two", two), "one", one), "three", three);
            && GetState(c, "one") == Ok(one)
            && GetState(c, "two") == Err(ErrNotFound)
            && GetState(c, "three") == Ok(three)
  {
    var one, two, three: Bytes := [0x31], [0x32], [0x33];
    var c1 := SetState(Empty(2), "one", one);
    assert c1 == CacheState(2, ["one"], map["one" := one]);
    var c2 := SetState(c1, "two", two);
    assert Evict(c1) == c1;
    assert c2 == CacheState(2, ["two", "one"], map["one" := one, "two" := two]);
    var c3 := SetState(c2, "one", one);
    var r3 := RemoveState(c2, "one");
    assert Without(c2.order, "one") == ["two"];
    assert r3 == CacheState(2, ["two"], map["two" := two]);
    assert Evict(r3) == r3;
    assert c3 == CacheState(2, ["one", "two"], map["one" := one, "two" := two]);
    var c4 := SetState(c3, "three", three);
    assert Without(c3.order, "two") == ["one"];
    assert Evict(c3) == CacheState(2, ["one"], map["one" := one]);
    assert c4.vals == map["one" := one, "three" := three];
  }

  /** Capacity one: a second key evicts the first. */
  lemma CapacityOne()
    ensures var one, two: Bytes := [0x31], [0x32];
            var c := SetState(SetState(Empty(1), "one", one), "two", two);
            && GetState(c, "one") == Err(ErrNotFound)
            && GetState(c, "two") == Ok(two)
  {
    var one, two: Bytes := [0x31], [0x32];
    var c1 := SetState(Empty(1), "one", one);
    assert c1.order == ["one"];
    assert Without(c1.order, "one") == [];
  }

  /** The values stored under the cache's keys. */
  ghost function Values(cache: map<string, Node>): map<string, Bytes>
  {
    map k | k in cache :: cache[k].val
  }

  /** A consistent cache has one node per key of its order. */
  lemma SizeMatches(cache: map<string, Node>, order: seq<string>)
    requires Distinct(order) && Values(cache).Keys == Elems(order)
    ensures |cache| == |order|
  {
    ElemsCard(order);
    assert cache.Keys == Values(cache).Keys;
  }

  /** The neighbours the node at position `i` of an order must name. */
  function Prev(order: seq<string>, i: nat): Option<string>
    requires i < |order|
  {
    if i == 0 then None else Some(order[i - 1])
  }

  function Next(order: seq<string>, i: nat): Option<string>
    requires i < |order|
  {
    if i == |order| - 1 then None else Some(order[i + 1])
  }

  /** The node stored for position `i` carries its own key and names its neighbours in the order. */
  ghost predicate NodeAt(cache: map<string, Node>, order: seq<string>, i: nat)
  {
    && i < |order| && order[i] in cache
    && cache[order[i]] == Node(order[i], cache[order[i]].val, Prev(order, i), Next(order, i))
  }

  /** The list threads the nodes of `order` through the cache: each names
      its neighbours, the head has no predecessor and the tail no successor.
      (That the cache holds no other key is part of Consistent.) */
  ghost predicate Threaded(cache: map<string, Node>, head: Option<string>, tail: Option<string>, order: seq<string>)
  {
    && head == (if order == [] then None else Some(order[0]))
    && tail == (if order == [] then None else Some(order[|order| - 1]))
    && forall i :: 0 <= i < |order| ==> NodeAt(cache, order, i)
  }

  /** The node under `at`, when there is one, made to point forward to `next`. */
  function PatchNext(cache: map<string, Node>, at: Option<string>, next: Option<string>): map<string, Node>
  {
    if at.Some? && at.value in cache then cache[at.value := cache[at.value].(next := next)] else cache
  }

  /** The node under `at`, when there is one, made to point back to `prev`. */
  function PatchPrev(cache: map<string, Node>, at: Option<string>, prev: Option<string>): map<string, Node>
  {
    if at.Some? && at.value in cache then cache[at.value := cache[at.value].(prev := prev)] else cache
  }

  /** The nodes once the node stored under `key` is unlinked: it is gone,
      its predecessor takes its successor and its successor its predecessor. */
  ghost function Unlinked(cache: map<string, Node>, key: string): map<string, Node>
    requires key in cache
  {
    var n := cache[key];
    PatchPrev(PatchNext(cache - {key}, n.prev, n.next), n.next, n.prev)
  }

  /** Where the node at position `i` and its neighbours sit in a threaded list with distinct keys. */
  lemma UnlinkEnds(cache: map<string, Node>, head: Option<string>, tail: Option<string>, order: seq<string>, i: nat)
    requires Threaded(cache, head, tail, order) && Distinct(order) && i < |order|
    ensures NodeAt(cache, order, i)
    ensures head.Some? && tail.Some?
    ensures (head.value == order[i] <==> i == 0) && (tail.value == order[i] <==> i == |order| - 1)
    ensures i > 0 ==> order[i - 1] in cache && order[i - 1] != order[i]
    ensures i + 1 < |order| ==> order[i + 1] in cache && order[i + 1] != order[i] && (i > 0 ==> order[i + 1] != order[i - 1])
  {
    assert NodeAt(cache, order, i);
    assert NodeAt(cache, order, 0) && NodeAt(cache, order, |order| - 1);
    if i > 0 {
      assert NodeAt(cache, order, i - 1);
    }
    if i + 1 < |order| {
      assert NodeAt(cache, order, i + 1);
    }
  }

  /** Unlinking position `i` of a threaded list with distinct keys leaves the
      rest threaded in the same order, the head and tail moved off it when
      they were on it. */
  lemma Unlink(cache: map<string, Node>, head: Option<string>, tail: Option<string>, order: seq<string>, i: nat)
    requires Threaded(cache, head, tail, order) && Distinct(order) && i < |order|
    ensures order[i] in cache
    ensures Threaded(Unlinked(cache, order[i]),
                     if i == 0 then Next(order, i) else head,
                     if i == |order| - 1 then Prev(order, i) else tail,
                     order[..i] + order[i + 1..])
    ensures Values(Unlinked(cache, order[i])) == Values(cache) - {order[i]}
  {
    UnlinkEnds(cache, head, tail, order, i);
    var u := Unlinked(cache, order[i]);
    var r := order[..i] + order[i + 1..];
    UnlinkKeys(cache, order[i]);
    forall j | 0 <= j < |r| ensures NodeAt(u, r, j) {
      UnlinkNode(cache, head, tail, order, i, j);
    }
    if r != [] {
      if i == 0 {
        assert r[0] == order[1];
      } else {
        assert r[0] == order[0];
      }
      if i == |order| - 1 {
        assert r[|r| - 1] == order[|order| - 2];
      } else {
        assert r[|r| - 1] == order[|order| - 1];
      }
    }
  }

  /** Unlinking changes no stored value and drops exactly the unlinked key. */
  lemma UnlinkKeys(cache: map<string, Node>, key: string)
    requires key in cache
    ensures forall k :: k in Unlinked(cache, key) <==> k in cache && k != key
    ensures forall k :: k in Unlinked(cache, key) ==> Unlinked(cache, key)[k].val == cache[k].val
    ensures Values(Unlinked(cache, key)) == Values(cache) - {key}
    ensures Unlinked(cache, key).Keys == cache.Keys - {key} && |Unlinked(cache, key)| == |cache| - 1
  {
    assert Unlinked(cache, key).Keys == cache.Keys - {key};
  }

  /** After unlinking position `i`, the node at position `j` of the shortened order is threaded. */
  lemma UnlinkNode(cache: map<string, Node>, head: Option<string>, tail: Option<string>, order: seq<string>, i: nat, j: nat)
    requires Threaded(cache, head, tail, order) && Distinct(order) && i < |order|
    requires j < |order| - 1
    ensures order[i] in cache
    ensures NodeAt(Unlinked(cache, order[i]), order[..i] + order[i + 1..], j)
  {
    UnlinkEnds(cache, head, tail, order, i);
    var r := order[..i] + order[i + 1..];
    var u := Unlinked(cache, order[i]);
    var c1 := cache - {order[i]};
    assert cache[order[i]].prev == Prev(order, i) && cache[order[i]].next == Next(order, i);
    assert u == PatchPrev(PatchNext(c1, Prev(order, i), Next(order, i)), Next(order, i), Prev(order, i));
    if j + 1 < i {
      assert r[j] == order[j] && r[j + 1] == order[j + 1];
      assert NodeAt(cache, order, j);
      assert order[j] != order[i] && order[j] != order[i - 1];
      assert i + 1 < |order| ==> order[j] != order[i + 1];
      assert u[r[j]] == cache[order[j]];
      if j > 0 {
        assert r[j - 1] == order[j - 1];
      }
    } else if j + 1 == i {
      assert r[j] == order[j];
      assert NodeAt(cache, order, j);
      assert i + 1 < |order| ==> r[j + 1] == order[i + 1];
      assert u[r[j]] == cache[order[j]].(next := Next(order, i));
      if j > 0 {
        assert r[j - 1] == order[j - 1];
      }
    } else if j == i {
      assert r[j] == order[i + 1];
      assert NodeAt(cache, order, i + 1);
      assert i > 0 ==> r[j - 1] == order[i - 1];
      assert j + 1 < |r| ==> r[j + 1] == order[i + 2];
      var c2 := if i > 0 && order[i - 1] in c1 then c1[order[i - 1] := c1[order[i - 1]].(next := Next(order, i))] else c1;
      assert c2[order[i + 1]] == cache[order[i + 1]];
      assert u[r[j]] == cache[order[i + 1]].(prev := Prev(order, i));
    } else {
      assert r[j] == order[j + 1] && r[j - 1] == order[j];
      assert NodeAt(cache, order, j + 1);
      assert order[j + 1] != order[i] && order[j + 1] != order[i + 1];
      assert i > 0 ==> order[j + 1] != order[i - 1];
      assert u[r[j]] == cache[order[j + 1]];
      assert j + 1 < |r| ==> r[j + 1] == order[j + 2];
    }
  }

  /** The whole invariant of a cache with these fields: the list is threaded
      through the nodes and the keys and values are consistent. */
  ghost predicate Sound(capacity: int, cache: map<string, Node>, head: Option<string>, tail: Option<string>, order: seq<string>)
  {
    Threaded(cache, head, tail, order) && Consistent(CacheState(capacity, order, Values(cache)))
  }

  /** A stored key's neighbours are stored too, and the list has ends. */
  lemma Locate(capacity: int, cache: map<string, Node>, head: Option<string>, tail: Option<string>, order: seq<string>, key: string)
    requires Sound(capacity, cache, head, tail, order) && key in cache
    ensures head.Some? && tail.Some? && cache[key].key == key
    ensures cache[key].prev.Some? ==> cache[key].prev.value in cache && cache[key].prev.value != key
    ensures cache[key].next.Some? ==> cache[key].next.value in cache && cache[key].next.value != key
    ensures cache[key].next.Some? && cache[key].prev.Some? ==> cache[key].next.value != cache[key].prev.value
  {
    assert key in Values(cache);
    var i := ElemsIndex(order, key);
    UnlinkEnds(cache, head, tail, order, i);
  }

  /** Unlinking a stored key, and moving the head or tail off it when they
      are on it, keeps the invariant with the key dropped from the order. */
  lemma RemoveSound(capacity: int, cache: map<string, Node>, head: Option<string>, tail: Option<string>, order: seq<string>,
                    key: string, cache': map<string, Node>, head': Option<string>, tail': Option<string>)
    requires Sound(capacity, cache, head, tail, order) && key in cache
    requires cache' == Unlinked(cache, key)
    requires head' == (if head == Some(key) then cache[key].next else head)
    requires tail' == (if tail == Some(key) then cache[key].prev else tail)
    ensures Sound(capacity, cache', head', tail', Without(order, key))
    ensures CacheState(capacity, Without(order, key), Values(cache')) == RemoveState(CacheState(capacity, order, Values(cache)), key)
  {
    assert key in Values(cache);
    var i := ElemsIndex(order, key);
    UnlinkEnds(cache, head, tail, order, i);
    Unlink(cache, head, tail, order, i);
    WithoutSplice(order, i);
    RemoveConsistent(CacheState(capacity, order, Values(cache)), key);
  }

  /** The nodes once the detached `n` is linked in front of the head: the
      old head points back to it and it points forward to the old head. */
  ghost function Linked(cache: map<string, Node>, head: Option<string>, n: Node): map<string, Node>
  {
    if head.Some? && head.value in cache then cache[head.value := cache[head.value].(prev := Some(n.key))][n.key := n.(next := head)]
    else cache[n.key := n]
  }

  /** Linking a detached node with a new key in front of the head threads it first. */
  lemma LinkHead(cache: map<string, Node>, head: Option<string>, tail: Option<string>, order: seq<string>, n: Node)
    requires Threaded(cache, head, tail, order) && n.key !in cache && n.prev == None && n.next == None
    ensures Threaded(Linked(cache, head, n), Some(n.key), if order == [] then Some(n.key) else tail, [n.key] + order)
    ensures Values(Linked(cache, head, n)) == Values(cache)[n.key := n.val]
  {
    var r := [n.key] + order;
    var l := Linked(cache, head, n);
    if order != [] {
      assert NodeAt(cache, order, 0) && order[0] != n.key;
    }
    forall j | 0 <= j < |r| ensures NodeAt(l, r, j) {
      if j > 0 {
        assert r[j] == order[j - 1] && NodeAt(cache, order, j - 1);
        if j + 1 < |r| {
          assert r[j + 1] == order[j];
        }
        if j > 1 {
          assert r[j - 1] == order[j - 2];
        }
      }
    }
    assert r[|r| - 1] == if order == [] then n.key else order[|order| - 1];
  }

  /** The ends of a sound list: both are stored, and both are missing
      exactly when the cache is empty. */
  lemma Ends(capacity: int, cache: map<string, Node>, head: Option<string>, tail: Option<string>, order: seq<string>)
    requires Sound(capacity, cache, head, tail, order)
    ensures |cache| == |order|
    ensures (head == None <==> order == []) && (tail == None <==> order == [])
    ensures head.Some? ==> head.value in cache
    ensures tail.Some? ==> tail.value in cache
  {
    SizeMatches(cache, order);
    if order != [] {
      assert NodeAt(cache, order, 0) && NodeAt(cache, order, |order| - 1);
    }
  }

  /** Linking a detached node with a new key at the head of a sound cache
      with room keeps it sound, with the key first in the order. */
  lemma LinkSound(capacity: int, cache: map<string, Node>, head: Option<string>, tail: Option<string>, order: seq<string>,
                  n: Node, cache': map<string, Node>, head': Option<string>, tail': Option<string>)
    requires Sound(capacity, cache, head, tail, order) && |order| < capacity
    requires n.key !in cache && n.prev == None && n.next == None
    requires cache' == Linked(cache, head, n)
    requires head' == Some(n.key)
    requires tail' == (if order == [] then Some(n.key) else tail)
    ensures Sound(capacity, cache', head', tail', [n.key] + order)
    ensures CacheState(capacity, [n.key] + order, Values(cache'))
            == Push(CacheState(capacity, order, Values(cache)), n.key, n.val)
  {
    LinkHead(cache, head, tail, order, n);
    AddConsistent(CacheState(capacity, order, Values(cache)), n.key, n.val);
    assert AddState(CacheState(capacity, order, Values(cache)), n.key, n.val)
        == Push(CacheState(capacity, order, Values(cache)), n.key, n.val);
  }

  class Lru {
    var capacity: int
    /** Each stored key's list node. */
    var cache: map<string, Node>
    /** The most recently set key. */
    var head: Option<string>
    /** The least recently set key, the next to be evicted. */
    var tail: Option<string>
    /** The keys from head to tail. */
    ghost var order: seq<string>

    ghost function State(): CacheState
      reads this
    {
      CacheState(capacity, order, Values(cache))
    }

    ghost predicate Valid()
      reads this
    {
      Sound(capacity, cache, head, tail, order)
    }

    /** An empty cache of the given capacity. */
    constructor (capacity: int)
      ensures Valid() && State() == Empty(capacity)
      ensures this.capacity == capacity && cache == map[] && head == None && tail == None
    {
      this.capacity := capacity;
      cache := map[];
      head, tail := None, None;
      order := [];
      assert Values(map[]) == map[];
    }

    /** Lookup; it neither promotes the key nor changes anything else. */
    method Get(key: string) returns (r: Result<Bytes>)
      requires Valid()
      ensures r == GetState(State(), key)
    {
      if key !in cache {
        return Err(ErrNotFound);
      }
      return Ok(cache[key].val);
    }

    /** Stores a value unless there is no capacity; see SetState. */
    method Set(key: string, val: Bytes)
      requires Valid()
      modifies this
      ensures Valid()
      ensures State() == SetState(old(State()), key, val)
    {
      if capacity < 1 {
        return;
      }
      if key in cache {
        Promote(key);
      } else {
        Add(Node(key, val, None, None));
      }
    }

    /** Moves a present key to the head. */
    method Promote(key: string)
      requires Valid() && key in cache
      modifies this
      ensures Valid()
      ensures State() == AddState(RemoveState(old(State()), key), key, old(State()).vals[key])
    {
      var node := Remove(key);
      Add(node);
    }

    /** Unlinks a present key: drops it from the cache, moves the head or
        tail off it, and joins its neighbours to each other. The node comes
        back detached. */
    method Remove(key: string) returns (node: Node)
      requires Valid() && key in cache
      modifies this
      ensures Valid()
      ensures State() == RemoveState(old(State()), key)
      ensures node == old(cache[key]).(prev := None, next := None)
      ensures node.key == key && node.val == old(State()).vals[key]
    {
      Locate(capacity, cache, head, tail, order, key);
      node := cache[key];
      var c, h, t := cache - {node.key}, head, tail;
      if h.value == node.key {
        h := node.next;
      }
      if t.value == node.key {
        t := node.prev;
      }
      if node.prev.Some? {
        var p := node.prev.value;
        c := c[p := c[p].(next := node.next)];
      }
      assert c == PatchNext(cache - {key}, node.prev, node.next);
      if node.next.Some? {
        var n := node.next.value;
        c := c[n := c[n].(prev := node.prev)];
      }
      assert c == Unlinked(cache, key);
      ghost var c0, h0, t0, o0 := cache, head, tail, order;
      cache, head, tail, order := c, h, t, Without(order, key);
      RemoveSound(capacity, c0, h0, t0, o0, key, cache, head, tail);
      node := node.(prev := None, next := None);
      assert State() == RemoveState(old(State()), key);
    }

    /** Links a detached node at the head, first evicting the tail when the
        cache is full. Set only calls it with capacity. */
    method Add(node: Node)
      requires Valid() && capacity >= 1 && node.key !in cache && node.prev == None && node.next == None
      modifies this
      ensures Valid()
      ensures State() == AddState(old(State()), node.key, node.val)
    {
      ghost var s := State();
      Ends(capacity, cache, head, tail, order);
      if |cache| == capacity {
        RemoveConsistent(s, tail.value);
        var evicted := Remove(tail.value);
      }
      assert State() == Evict(s);
      assert node.key !in Values(cache) && |order| < capacity;
      LinkFront(node);
    }

    /** Add's second half: the node becomes the head (and the tail too when
        the cache is empty), in front of the old head, and is stored. */
    method LinkFront(node: Node)
      requires Valid() && |order| < capacity && node.key !in cache && node.prev == None && node.next == None
      modifies this
      ensures Valid()
      ensures State() == Push(old(State()), node.key, node.val)
    {
      Ends(capacity, cache, head, tail, order);
      ghost var c0, h0, t0, o0 := cache, head, tail, order;
      var n := node;
      if |cache| == 0 {
        head, tail := Some(n.key), Some(n.key);
      } else {
        n := n.(next := head);
        var h := head.value;
        cache := cache[h := cache[h].(prev := Some(n.key))];
        head := Some(n.key);
      }
      cache := cache[n.key := n];
      order := [n.key] + o0;
      LinkSound(capacity, c0, h0, t0, o0, node, cache, head, tail);
    }
  }
}
