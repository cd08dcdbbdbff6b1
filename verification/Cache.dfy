/**
  The expiring cache: a hash map with access stamps. It behaves as a list by recency that loses
  its over-age tail and is cut to size at every insert; with a clock that advances from one
  operation to the next that list is exactly the move-to-front list.
*/
module Cache {
  import opened Common

  /** A value and the time of its last access. */
  datatype Slot<V> = Slot(value: V, stamp: nat)

  // ----- recency lists -----

  /** The keys without `k`. */
  function Without<K(==,!new)>(order: seq<K>, k: K): (r: seq<K>)
    ensures k !in r && forall x :: x in r <==> x in order && x != k
  {
    if order == [] then []
    else if order[0] == k then Without(order[1..], k)
    else [order[0]] + Without(order[1..], k)
  }

  function MoveToFront<K(==,!new)>(order: seq<K>, k: K): seq<K> {
    [k] + Without(order, k)
  }

  ghost predicate AllIn<K(!new), V(!new)>(order: seq<K>, m: map<K, Slot<V>>) {
    forall k :: k in order ==> k in m
  }

  /** No key twice, and the stamps do not rise from the front to the back. */
  ghost predicate Falling<K(!new), V(!new)>(order: seq<K>, m: map<K, Slot<V>>)
    requires AllIn(order, m)
  {
    forall i, j :: 0 <= i < j < |order| ==> order[i] != order[j] && m[order[i]].stamp >= m[order[j]].stamp
  }

  /** No two entries were last accessed at the same time. */
  ghost predicate NoTies<K(!new), V(!new)>(m: map<K, Slot<V>>) {
    forall x, y :: x in m && y in m && x != y ==> m[x].stamp != m[y].stamp
  }

  /** `order` lists the keys of `m` once each, most recently accessed first. */
  ghost predicate ByRecency<K(!new), V(!new)>(order: seq<K>, m: map<K, Slot<V>>) {
    AllIn(order, m) && (forall k :: k in m ==> k in order) && Falling(order, m)
  }

  predicate TooOld<V(!new)>(slot: Slot<V>, now: nat, ttl: nat) {
    now > slot.stamp && now - slot.stamp > ttl
  }

  /** How many keys at the front are not too old. */
  ghost function FreshCount<K(!new), V(!new)>(order: seq<K>, m: map<K, Slot<V>>, now: nat, ttl: nat): (n: nat)
    requires AllIn(order, m)
    ensures n <= |order|
    ensures forall i :: 0 <= i < n ==> !TooOld(m[order[i]], now, ttl)
    ensures n < |order| ==> TooOld(m[order[n]], now, ttl)
  {
    if order == [] || TooOld(m[order[0]], now, ttl) then 0
    else 1 + FreshCount(order[1..], m, now, ttl)
  }

  /** How many keys stay: the fresh front, cut to size. */
  ghost function Kept<K(!new), V(!new)>(order: seq<K>, m: map<K, Slot<V>>, now: nat, ttl: nat, size: nat): (n: nat)
    requires AllIn(order, m)
    ensures n <= |order|
  {
    Min(FreshCount(order, m, now, ttl), size)
  }

  ghost function Pairs<K(!new), V(!new)>(keys: seq<K>, m: map<K, Slot<V>>): seq<(K, V)>
    requires AllIn(keys, m)
  {
    seq(|keys|, i requires 0 <= i < |keys| => (keys[i], m[keys[i]].value))
  }

  /** No key occurs twice. */
  ghost predicate OncePerKey<K(!new), V(!new)>(removed: seq<(K, V)>) {
    forall i, j :: 0 <= i < j < |removed| ==> removed[i].0 != removed[j].0
  }

  /** `removed` holds the entries of `keys`, once each and in any order. */
  ghost predicate Returns<K(!new), V(!new)>(removed: seq<(K, V)>, keys: seq<K>, m: map<K, Slot<V>>)
    requires AllIn(keys, m)
  {
    && |removed| == |keys| && OncePerKey(removed)
    && forall p :: p in removed <==> p in Pairs(keys, m)
  }

  lemma FallingCons<K(!new), V(!new)>(head: K, rest: seq<K>, m: map<K, Slot<V>>)
    requires AllIn(rest, m) && Falling(rest, m) && head in m
    requires forall k :: k in rest ==> k != head && m[k].stamp <= m[head].stamp
    ensures AllIn([head] + rest, m) && Falling([head] + rest, m)
  {
    var all := [head] + rest;
    forall i, j | 0 <= i < j < |all|
      ensures all[i] != all[j] && m[all[i]].stamp >= m[all[j]].stamp
    {
      assert all[j] == rest[j - 1] && rest[j - 1] in rest;
      if i > 0 { assert all[i] == rest[i - 1]; }
    }
  }

  lemma FallingTail<K(!new), V(!new)>(order: seq<K>, m: map<K, Slot<V>>)
    requires order != [] && AllIn(order, m) && Falling(order, m)
    ensures AllIn(order[1..], m) && Falling(order[1..], m)
    ensures forall k :: k in order[1..] ==> k != order[0] && m[k].stamp <= m[order[0]].stamp
  {
  }

  lemma {:induction false} WithoutFalling<K(!new), V(!new)>(order: seq<K>, m: map<K, Slot<V>>, k: K)
    requires AllIn(order, m) && Falling(order, m)
    ensures AllIn(Without(order, k), m) && Falling(Without(order, k), m)
  {
    hide Falling;
    if order != [] {
      FallingTail(order, m);
      WithoutFalling(order[1..], m, k);
      if order[0] != k { FallingCons(order[0], Without(order[1..], k), m); }
    } else {
      NothingFalls(order, m);
    }
  }

  lemma NothingFalls<K(!new), V(!new)>(order: seq<K>, m: map<K, Slot<V>>)
    requires order == []
    ensures AllIn(order, m) && Falling(order, m)
  {
  }

  lemma FallingElsewhere<K(!new), V(!new)>(order: seq<K>, m: map<K, Slot<V>>, m': map<K, Slot<V>>)
    requires AllIn(order, m) && Falling(order, m)
    requires forall k :: k in order ==> k in m' && m'[k] == m[k]
    ensures AllIn(order, m') && Falling(order, m')
  {
    assert forall i :: 0 <= i < |order| ==> order[i] in order;
  }

  /** Touching a key with a stamp that is not earlier moves it to the front of the recency list. */
  lemma TouchOrders<K(!new), V(!new)>(order: seq<K>, m: map<K, Slot<V>>, k: K, slot: Slot<V>)
    requires ByRecency(order, m) && forall x :: x in m ==> m[x].stamp <= slot.stamp
    ensures ByRecency(MoveToFront(order, k), m[k := slot])
  {
    hide Falling;
    WithoutFalling(order, m, k);
    var r, m' := Without(order, k), m[k := slot];
    FallingElsewhere(r, m, m');
    FallingCons(k, r, m');
  }

  lemma RemoveOrders<K(!new), V(!new)>(order: seq<K>, m: map<K, Slot<V>>, k: K)
    requires ByRecency(order, m)
    ensures ByRecency(Without(order, k), m - {k})
  {
    hide Falling;
    WithoutFalling(order, m, k);
    FallingElsewhere(Without(order, k), m, m - {k});
  }

  lemma RecencyUnique<K(!new), V(!new)>(order: seq<K>, m: map<K, Slot<V>>)
    requires ByRecency(order, m)
    ensures forall i, j :: 0 <= i < j < |order| ==> order[i] != order[j]
  {
  }

  /** The too old keys are exactly the tail after the fresh front. */
  lemma OldTail<K(!new), V(!new)>(order: seq<K>, m: map<K, Slot<V>>, now: nat, ttl: nat, i: nat)
    requires ByRecency(order, m) && i < |order|
    ensures TooOld(m[order[i]], now, ttl) <==> FreshCount(order, m, now, ttl) <= i
  {
    hide FreshCount;
    var n := FreshCount(order, m, now, ttl);
    if n < i { assert m[order[n]].stamp >= m[order[i]].stamp; }
  }

  /** The keys that are too old. */
  function OldKeys<K(!new), V(!new)>(m: map<K, Slot<V>>, now: nat, ttl: nat): set<K> {
    set k | k in m && TooOld(m[k], now, ttl)
  }

  lemma FallingFront<K(!new), V(!new)>(order: seq<K>, m: map<K, Slot<V>>, n: nat)
    requires n <= |order| && AllIn(order, m) && Falling(order, m)
    ensures AllIn(order[..n], m) && Falling(order[..n], m)
  {
  }

  lemma OldInTail<K(!new), V(!new)>(order: seq<K>, m: map<K, Slot<V>>, now: nat, ttl: nat, k: K)
    requires ByRecency(order, m) && k in m
    ensures var n := FreshCount(order, m, now, ttl);
            && (TooOld(m[k], now, ttl) <==> k in order[n..])
            && (!TooOld(m[k], now, ttl) <==> k in order[..n])
  {
    hide FreshCount, Falling;
    var n := FreshCount(order, m, now, ttl);
    var i :| 0 <= i < |order| && order[i] == k;
    OldTail(order, m, now, ttl, i);
    if i < n {
      assert order[..n][i] == k;
    } else {
      assert order[n..][i - n] == k;
    }
    RecencyUnique(order, m);
  }

  /** Dropping the too old keys leaves the fresh front. */
  lemma FreshFront<K(!new), V(!new)>(order: seq<K>, m: map<K, Slot<V>>, now: nat, ttl: nat)
    requires ByRecency(order, m)
    ensures ByRecency(order[..FreshCount(order, m, now, ttl)], m - OldKeys(m, now, ttl))
    ensures forall k :: k in order[FreshCount(order, m, now, ttl)..] <==> k in OldKeys(m, now, ttl)
  {
    hide FreshCount, Falling, TooOld;
    var n := FreshCount(order, m, now, ttl);
    var front, m' := order[..n], m - OldKeys(m, now, ttl);
    forall k | k in m
      ensures (k in OldKeys(m, now, ttl) <==> k in order[n..]) && (k in m' <==> k in front)
    {
      OldInTail(order, m, now, ttl, k);
    }
    assert forall k :: k in front ==> k in order;
    assert forall k :: k in order[n..] ==> k in order;
    FallingFront(order, m, n);
    FallingElsewhere(front, m, m');
  }

  lemma DropLast<K(!new), V(!new)>(order: seq<K>, m: map<K, Slot<V>>)
    requires ByRecency(order, m) && order != []
    ensures ByRecency(order[..|order| - 1], m - {order[|order| - 1]})
  {
    hide Falling;
    RecencyUnique(order, m);
    var front, last := order[..|order| - 1], order[|order| - 1];
    assert order == front + [last];
    FallingFront(order, m, |order| - 1);
    FallingElsewhere(front, m, m - {last});
  }

  /** Without ties the entry with the smallest stamp is the last of the list. */
  lemma LeastRecent<K(!new), V(!new)>(order: seq<K>, m: map<K, Slot<V>>, k: K)
    requires ByRecency(order, m) && NoTies(m) && k in m && forall x :: x in m ==> m[k].stamp <= m[x].stamp
    ensures order != [] && order[|order| - 1] == k
  {
    var i :| 0 <= i < |order| && order[i] == k;
    var last := order[|order| - 1];
    assert last in m;
    assert m[order[i]].stamp <= m[last].stamp;
    assert i < |order| - 1 ==> m[order[i]].stamp >= m[order[|order| - 1]].stamp;
  }

  /** An entry with the smallest stamp can be listed last. */
  lemma SinkOldest<K(!new), V(!new)>(order: seq<K>, m: map<K, Slot<V>>, k: K)
    requires ByRecency(order, m) && k in m && forall x :: x in m ==> m[k].stamp <= m[x].stamp
    ensures ByRecency(Without(order, k) + [k], m)
  {
    hide Without;
    WithoutFalling(order, m, k);
    var front := Without(order, k);
    forall i, j | 0 <= i < j < |front + [k]|
      ensures (front + [k])[i] != (front + [k])[j] && m[(front + [k])[i]].stamp >= m[(front + [k])[j]].stamp
    {
      assert (front + [k])[i] == front[i] && front[i] in front;
      if j < |front| { assert (front + [k])[j] == front[j]; }
    }
  }

  lemma {:induction false} RecencySize<K(!new), V(!new)>(order: seq<K>, m: map<K, Slot<V>>)
    requires ByRecency(order, m)
    ensures |order| == |m|
    decreases |order|
  {
    if order == [] {
      assert m.Keys == {};
    } else {
      DropLast(order, m);
      RecencySize(order[..|order| - 1], m - {order[|order| - 1]});
      assert (m - {order[|order| - 1]}).Keys == m.Keys - {order[|order| - 1]};
    }
  }

  // ----- the cache -----

  class Cache<K(==,!new), V(!new)> {
    var store: map<K, Slot<V>>
    const size: nat
    const ttl: nat
    /** The keys, most recently accessed first. */
    ghost var order: seq<K>
    /** The time of the last operation. */
    ghost var clock: nat

    ghost predicate Valid()
      reads this
    {
      && ByRecency(order, store)
      && |order| <= size
      && forall k :: k in store ==> store[k].stamp <= clock
    }

    constructor (size: nat, ttl: nat)
      ensures Valid() && store == map[] && order == [] && this.size == size && this.ttl == ttl && clock == 0
    {
      store, order, clock := map[], [], 0;
      this.size, this.ttl := size, ttl;
    }

    /** A hit moves the key to the front. */
    method Get(k: K, now: nat) returns (r: Option<V>)
      requires Valid() && clock <= now
      modifies this
      ensures Valid() && clock == now
      ensures k in old(store) ==> r == Some(old(store)[k].value) && order == MoveToFront(old(order), k)
                                  && store == old(store)[k := Slot(old(store)[k].value, now)]
      ensures k !in old(store) ==> r == None && order == old(order) && store == old(store)
    {
      clock := now;
      if k in store {
        var slot := Slot(store[k].value, now);
        TouchOrders(order, store, k, slot);
        MoveSize(order, store, k, slot);
        store := store[k := slot];
        order := MoveToFront(order, k);
        r := Some(slot.value);
      } else {
        r := None;
      }
    }

    method Remove(k: K) returns (r: Option<V>)
      requires Valid()
      modifies this
      ensures Valid() && clock == old(clock)
      ensures r == if k in old(store) then Some(old(store)[k].value) else None
      ensures order == Without(old(order), k) && store == old(store) - {k}
    {
      r := if k in store then Some(store[k].value) else None;
      RemoveOrders(order, store, k);
      RemoveSize(order, store, k);
      store := store - {k};
      order := Without(order, k);
    }

    /**
      Inserts at the front; then a list of the entries by recency loses its too old tail and is cut
      to size. What is returned is exactly what was dropped. Without accesses at the same time that
      list is the move-to-front list.
    */
    method Insert(k: K, v: V, now: nat) returns (removed: seq<(K, V)>, ghost all: seq<K>)
      requires Valid() && clock <= now
      modifies this
      ensures Valid() && clock == now
      ensures var m := old(store)[k := Slot(v, now)];
              && ByRecency(all, m)
              && order == all[..Kept(all, m, now, ttl, size)]
              && (forall x :: x in store ==> x in m && store[x] == m[x])
              && Returns(removed, all[|order|..], m)
      ensures old(clock) < now && NoTies(old(store)) ==> all == MoveToFront(old(order), k) && NoTies(store)
    {
      hide Kept, FreshCount, Returns, MoveToFront, Without, ByRecency, NoTies;
      TouchOrders(order, store, k, Slot(v, now));
      TouchTies(store, k, Slot(v, now), clock);
      clock := now;
      ghost var list := MoveToFront(order, k);
      MoveToFrontSize(order, k);
      store := store[k := Slot(v, now)];
      order := list;
      removed, all := DiscardOld(now);
    }

    /** Drops what is too old and, when the cache is over its size by one, a least recently used entry. */
    method DiscardOld(now: nat) returns (removed: seq<(K, V)>, ghost all: seq<K>)
      requires ByRecency(order, store) && |order| <= size + 1
      requires forall x :: x in store ==> store[x].stamp <= clock
      modifies this`store, this`order
      ensures Valid() && ByRecency(all, old(store))
      ensures order == all[..Kept(all, old(store), now, ttl, size)]
      ensures forall x :: x in store ==> x in old(store) && store[x] == old(store)[x]
      ensures Returns(removed, all[|order|..], old(store))
      ensures NoTies(old(store)) ==> all == old(order) && NoTies(store)
    {
      hide FreshCount, Returns, ByRecency, Without;
      ghost var m, list := store, order;
      removed := ExpireTail(now);
      ghost var n := |order|;
      all := list;
      if |store| > size {
        ghost var before, kept := removed, store;
        var victim, value := DropOldest();
        all := (order + [victim]) + list[n..];
        Reordered(list, m, now, ttl, n, kept, victim, all);
        assert all[..n - 1] == order && all[n..] == list[n..];
        removed := removed + [(victim, value)];
        VictimPairs(all, m, n, before, removed);
      }
    }

    /** Drops what is too old: the tail of the recency list. */
    method ExpireTail(now: nat) returns (removed: seq<(K, V)>)
      requires ByRecency(order, store)
      modifies this`store, this`order
      ensures ByRecency(order, store) && AllIn(old(order), old(store)) && |store| == |order|
      ensures order == old(order)[..FreshCount(old(order), old(store), now, ttl)]
      ensures forall x :: x in store ==> x in old(store) && store[x] == old(store)[x]
      ensures Returns(removed, old(order)[|order|..], old(store))
    {
      hide FreshCount, Returns, OldKeys, Falling;
      ghost var m, list := store, order;
      FreshFront(order, store, now, ttl);
      removed := RemoveExpired(now);
      ghost var n := FreshCount(order, m, now, ttl);
      order := order[..n];
      RecencySize(order, store);
      RecencySize(list, m);
      ExpiredPairs(list, m, n, now, ttl, removed);
    }

    /** Removes a least recently used entry. */
    method DropOldest() returns (victim: K, value: V)
      requires ByRecency(order, store) && store != map[]
      modifies this`store, this`order
      ensures old(victim in store) && value == old(store)[victim].value
      ensures forall x :: x in old(store) ==> old(store)[victim].stamp <= old(store)[x].stamp
      ensures store == old(store) - {victim} && order == Without(old(order), victim) && ByRecency(order, store)
    {
      hide Falling, Without;
      victim := Oldest();
      RemoveOrders(order, store, victim);
      value := store[victim].value;
      store := store - {victim};
      order := Without(order, victim);
    }

    /** The first half of `discard_old_descriptors`. */
    method RemoveExpired(now: nat) returns (removed: seq<(K, V)>)
      modifies this`store
      ensures store == old(store) - OldKeys(old(store), now, ttl)
      ensures |removed| == |OldKeys(old(store), now, ttl)| && OncePerKey(removed)
      ensures forall p :: p in removed <==> p.0 in OldKeys(old(store), now, ttl) && p.1 == old(store)[p.0].value
    {
      hide TooOld;
      var m := store;
      var keys := CollectExpired(now);
      ghost var gone: set<K> := {};
      removed := [];
      while keys != {}
        invariant keys !! gone && keys + gone == OldKeys(m, now, ttl)
        invariant store == m - gone && |removed| == |gone| && OncePerKey(removed)
        invariant forall p :: p in removed <==> p.0 in gone && p.1 == m[p.0].value
        decreases keys
      {
        var k :| k in keys;
        assert forall i :: 0 <= i < |removed| ==> removed[i] in removed;
        removed := removed + [(k, store[k].value)];
        store := store - {k};
        keys := keys - {k};
        gone := gone + {k};
      }
    }

    method CollectExpired(now: nat) returns (keys: set<K>)
      ensures keys == OldKeys(store, now, ttl)
    {
      hide TooOld;
      var left := store.Keys;
      keys := {};
      while left != {}
        invariant left <= store.Keys
        invariant forall k :: k in keys <==> k in store && k !in left && TooOld(store[k], now, ttl)
        decreases left
      {
        var k :| k in left;
        if TooOld(store[k], now, ttl) { keys := keys + {k}; }
        left := left - {k};
      }
    }

    /** The second half: an entry with the smallest stamp. */
    method Oldest() returns (oldest: K)
      requires store != map[]
      ensures oldest in store && forall x :: x in store ==> store[oldest].stamp <= store[x].stamp
    {
      var left := store.Keys;
      var k :| k in left;
      oldest := k;
      left := left - {k};
      while left != {}
        invariant left <= store.Keys && oldest in store
        invariant forall x :: x in store && x !in left ==> store[oldest].stamp <= store[x].stamp
        decreases left
      {
        k :| k in left;
        if store[k].stamp < store[oldest].stamp { oldest := k; }
        left := left - {k};
      }
    }
  }

  lemma TouchTies<K(!new), V(!new)>(m: map<K, Slot<V>>, k: K, slot: Slot<V>, clock: nat)
    requires forall x :: x in m ==> m[x].stamp <= clock
    ensures NoTies(m) && clock < slot.stamp ==> NoTies(m[k := slot])
  {
  }

  lemma {:induction false} WithoutLast<K(!new)>(order: seq<K>, k: K)
    requires order != [] && order[|order| - 1] == k && forall i, j :: 0 <= i < j < |order| ==> order[i] != order[j]
    ensures Without(order, k) == order[..|order| - 1]
  {
    if |order| > 1 {
      WithoutLast(order[1..], k);
      assert order[0] != k;
      assert order[1..][..|order| - 2] == order[1..|order| - 1];
    } else {
      assert order[1..] == [];
    }
  }

  /** The fresh front with its oldest entry last, then the too old tail, is the same list up to ties. */
  lemma Reordered<K(!new), V(!new)>(list: seq<K>, m: map<K, Slot<V>>, now: nat, ttl: nat, n: nat, kept: map<K, Slot<V>>, k: K, all: seq<K>)
    requires ByRecency(list, m) && n == FreshCount(list, m, now, ttl) && ByRecency(list[..n], kept) && 0 < n
    requires forall x :: x in kept ==> x in m && kept[x] == m[x]
    requires k in kept && forall x :: x in kept ==> kept[k].stamp <= kept[x].stamp
    requires all == (Without(list[..n], k) + [k]) + list[n..]
    ensures ByRecency(all, m) && FreshCount(all, m, now, ttl) == n && |all| == |list| && |Without(list[..n], k)| == n - 1
    ensures NoTies(m) ==> all == list
  {
    hide FreshCount, Without, TooOld, Falling, NoTies;
    SinkOldest(list[..n], kept, k);
    var front := Without(list[..n], k) + [k];
    RecencySize(list[..n], kept);
    RecencySize(front, kept);
    JoinOrders(list, m, n, kept, front, all);
    FreshAgain(list, m, now, ttl, n, front, all);
    if NoTies(m) { OldestLast(list[..n], m, kept, k); }
    assert list == list[..n] + list[n..];
  }

  lemma OldestLast<K(!new), V(!new)>(order: seq<K>, m: map<K, Slot<V>>, kept: map<K, Slot<V>>, k: K)
    requires ByRecency(order, kept) && NoTies(m) && forall x :: x in kept ==> x in m && kept[x] == m[x]
    requires k in kept && forall x :: x in kept ==> kept[k].stamp <= kept[x].stamp
    ensures Without(order, k) + [k] == order
  {
    hide Without;
    LeastRecent(order, kept, k);
    RecencyUnique(order, kept);
    WithoutLast(order, k);
  }

  lemma JoinFalling<K(!new), V(!new)>(list: seq<K>, m: map<K, Slot<V>>, n: nat, front: seq<K>, all: seq<K>)
    requires AllIn(list, m) && Falling(list, m) && n <= |list| && AllIn(front, m) && Falling(front, m) && |front| == n
    requires forall x :: x in front ==> x in list[..n]
    requires all == front + list[n..]
    ensures AllIn(all, m) && Falling(all, m)
  {
    forall i | 0 <= i < |all|
      ensures all[i] in m
    {
      if i < n { assert all[i] == front[i] && front[i] in front; } else { assert all[i] == list[i] && list[i] in list; }
    }
    forall i, j | 0 <= i < j < |all|
      ensures all[i] != all[j] && m[all[i]].stamp >= m[all[j]].stamp
    {
      if j < n {
        assert all[i] == front[i] && all[j] == front[j];
      } else {
        assert all[j] == list[j];
        var i' := SameElement(list, n, front, i, all);
        assert i' < j && all[i] == list[i'];
      }
    }
  }

  lemma SameElement<K(!new)>(list: seq<K>, n: nat, front: seq<K>, i: nat, all: seq<K>) returns (i': nat)
    requires n <= |list| && |front| == n && all == front + list[n..] && i < |all|
    requires forall x :: x in front ==> x in list[..n]
    ensures i' < |list| && all[i] == list[i'] && (if i < n then i' < n else i' == i)
  {
    if i < n {
      assert front[i] in front && front[i] in list[..n];
      i' :| 0 <= i' < n && list[..n][i'] == front[i];
    } else {
      i' := i;
    }
  }

  lemma JoinOrders<K(!new), V(!new)>(list: seq<K>, m: map<K, Slot<V>>, n: nat, kept: map<K, Slot<V>>, front: seq<K>, all: seq<K>)
    requires ByRecency(list, m) && n <= |list| && ByRecency(list[..n], kept) && ByRecency(front, kept) && |front| == n
    requires forall x :: x in kept ==> x in m && kept[x] == m[x]
    requires all == front + list[n..]
    ensures ByRecency(all, m)
  {
    hide Falling;
    FallingElsewhere(front, kept, m);
    JoinFalling(list, m, n, front, all);
    forall x | x in m
      ensures x in all
    {
      assert list == list[..n] + list[n..];
      assert x in list[..n] ==> x in kept;
    }
  }

  lemma FreshAgain<K(!new), V(!new)>(list: seq<K>, m: map<K, Slot<V>>, now: nat, ttl: nat, n: nat, front: seq<K>, all: seq<K>)
    requires ByRecency(list, m) && n == FreshCount(list, m, now, ttl) && |front| == n
    requires forall x :: x in front ==> x in list[..n]
    requires all == front + list[n..] && ByRecency(all, m)
    ensures FreshCount(all, m, now, ttl) == n
  {
    hide FreshCount, TooOld, Falling;
    forall i | 0 <= i < n
      ensures !TooOld(m[all[i]], now, ttl)
    {
      assert all[i] == front[i] && front[i] in front;
      var i' :| 0 <= i' < n && list[..n][i'] == front[i];
      assert list[i'] == front[i];
    }
    var c := FreshCount(all, m, now, ttl);
    if n < |list| { assert all[n] == list[n]; }
  }

  lemma MoveToFrontSize<K(!new)>(order: seq<K>, k: K)
    ensures |MoveToFront(order, k)| <= |order| + 1
  {
    WithoutSize(order, k);
  }

  lemma {:induction false} WithoutSize<K(!new)>(order: seq<K>, k: K)
    ensures |Without(order, k)| <= |order|
    ensures k in order ==> |Without(order, k)| < |order|
  {
    if order != [] { WithoutSize(order[1..], k); }
  }

  lemma MoveSize<K(!new), V(!new)>(order: seq<K>, m: map<K, Slot<V>>, k: K, slot: Slot<V>)
    requires ByRecency(order, m) && k in m
    ensures |MoveToFront(order, k)| <= |order|
  {
    WithoutSize(order, k);
  }

  lemma RemoveSize<K(!new), V(!new)>(order: seq<K>, m: map<K, Slot<V>>, k: K)
    ensures |Without(order, k)| <= |order|
  {
    WithoutSize(order, k);
  }

  lemma ExpiredPairs<K(!new), V(!new)>(list: seq<K>, m: map<K, Slot<V>>, n: nat, now: nat, ttl: nat, removed: seq<(K, V)>)
    requires ByRecency(list, m) && n <= |list| && |m| == |list| && |m - OldKeys(m, now, ttl)| == n
    requires forall k :: k in list[n..] <==> k in OldKeys(m, now, ttl)
    requires |removed| == |OldKeys(m, now, ttl)| && OncePerKey(removed)
    requires forall p :: p in removed <==> p.0 in OldKeys(m, now, ttl) && p.1 == m[p.0].value
    ensures Returns(removed, list[n..], m)
  {
    assert (m - OldKeys(m, now, ttl)).Keys == m.Keys - OldKeys(m, now, ttl);
    forall p
      ensures p in removed <==> p in Pairs(list[n..], m)
    {
      PairsMember(list[n..], m, p);
    }
  }

  lemma PairsMember<K(!new), V(!new)>(keys: seq<K>, m: map<K, Slot<V>>, p: (K, V))
    requires AllIn(keys, m)
    ensures p in Pairs(keys, m) <==> p.0 in keys && p.1 == m[p.0].value
  {
    if p.0 in keys && p.1 == m[p.0].value {
      var i :| 0 <= i < |keys| && keys[i] == p.0;
      assert Pairs(keys, m)[i] == p;
    }
  }

  lemma VictimPairs<K(!new), V(!new)>(list: seq<K>, m: map<K, Slot<V>>, n: nat, before: seq<(K, V)>, removed: seq<(K, V)>)
    requires ByRecency(list, m) && 0 < n <= |list|
    requires removed == before + [(list[n - 1], m[list[n - 1]].value)]
    requires Returns(before, list[n..], m)
    ensures Returns(removed, list[n - 1..], m)
  {
    hide Pairs, Falling;
    RecencyUnique(list, m);
    assert list[n - 1..] == [list[n - 1]] + list[n..];
    forall i | 0 <= i < |before|
      ensures before[i].0 != list[n - 1]
    {
      assert before[i] in before;
      PairsMember(list[n..], m, before[i]);
    }
    forall p
      ensures p in removed <==> p in Pairs(list[n - 1..], m)
    {
      PairsMember(list[n - 1..], m, p);
      PairsMember(list[n..], m, p);
    }
  }

  /** Whoever stays was used no earlier than whoever goes, and later if nothing was used at the same time. */
  lemma SurvivorsAreNewer<K(!new), V(!new)>(order: seq<K>, m: map<K, Slot<V>>, now: nat, ttl: nat, size: nat, i: nat, j: nat)
    requires ByRecency(order, m)
    requires i < Kept(order, m, now, ttl, size) <= j < |order|
    ensures m[order[i]].stamp >= m[order[j]].stamp && order[i] != order[j]
    ensures NoTies(m) ==> m[order[i]].stamp > m[order[j]].stamp
    ensures TooOld(m[order[j]], now, ttl) || size <= j
  {
    hide FreshCount;
    OldTail(order, m, now, ttl, j);
  }

  /** A key stays if and only if it is among the most recent ones that fit and was used within the time to live. */
  lemma KeptIff<K(!new), V(!new)>(order: seq<K>, m: map<K, Slot<V>>, now: nat, ttl: nat, size: nat, i: nat)
    requires ByRecency(order, m) && i < |order|
    ensures i < Kept(order, m, now, ttl, size) <==> i < size && now <= m[order[i]].stamp + ttl
  {
    hide FreshCount;
    OldTail(order, m, now, ttl, i);
  }
}
