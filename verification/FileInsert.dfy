/**
  Caching an opened file: what the cache discards to make room is uploaded first if it is dirty;
  a discarded file that is in use goes back into the cache, and what that drops is forgotten.
*/
module FileInsert {
  import opened Common
  import opened BackendFile
  import opened FileSync
  import C = Cache

  type Store = map<string, C.Slot<Handle>>

  type Dropped = seq<(string, Handle)>

  /** The remote copies by path. */
  type Storage = map<string, Option<Content>>

  function RemoteCopy(storage: Storage, p: string): Option<Content> {
    if p in storage then storage[p] else None
  }

  predicate Dirty(h: Handle) {
    h.mode == ReadWrite && !h.synced
  }

  /** A discarded file after it was closed. */
  function Closed(h: Handle, attempt: Attempt): Handle {
    if Dirty(h) then Attempted(h, attempt) else h
  }

  /** The clock readings after `now`, one for every discarded file. */
  ghost predicate Rising(at: nat -> nat, now: nat) {
    now < at(0) && forall i: nat, j: nat :: i < j ==> at(i) < at(j)
  }

  // ----- what the cache and the storage hold -----

  /** The paths, most recently used first, and their slots. */
  datatype Contents = Contents(order: seq<string>, store: Store)

  ghost predicate Sound(c: Contents) {
    C.AllIn(c.order, c.store)
  }

  lemma FrontSound(c: Contents, path: string, slot: C.Slot<Handle>)
    requires Sound(c)
    ensures C.AllIn(C.MoveToFront(c.order, path), c.store[path := slot])
  {
    hide C.Without;
  }

  /** What the cache holds after an insert. */
  ghost function Inserted(c: Contents, path: string, h: Handle, now: nat, ttl: nat, size: nat): (r: Contents)
    requires Sound(c)
    ensures Sound(r)
  {
    FrontSound(c, path, C.Slot(h, now));
    var all, m := C.MoveToFront(c.order, path), c.store[path := C.Slot(h, now)];
    var front := all[..C.Kept(all, m, now, ttl, size)];
    assert forall p :: p in front ==> p in all;
    Contents(front, map p | p in front :: m[p])
  }

  /** What the cache holds after a look-up. */
  function Touched(c: Contents, path: string, now: nat): Contents {
    if path in c.store then Contents(C.MoveToFront(c.order, path), c.store[path := C.Slot(c.store[path].value, now)]) else c
  }

  /** What an insert discards: the tail of the files by recency, in some order. */
  ghost predicate Discards(c: Contents, path: string, h: Handle, now: nat, ttl: nat, size: nat, dropped: Dropped) {
    var all, before := C.MoveToFront(c.order, path), c.store[path := C.Slot(h, now)];
    Sound(c) && C.ByRecency(all, before) && C.Returns(dropped, all[C.Kept(all, before, now, ttl, size)..], before)
  }

  /** What it holds after the discarded files that are in use were put back. */
  ghost function PutBack(c: Contents, dropped: Dropped, inUse: set<string>, at: nat -> nat, ttl: nat, size: nat): (r: Contents)
    requires Sound(c)
    ensures Sound(r)
  {
    if dropped == [] then c
    else
      var last := dropped[|dropped| - 1];
      var before := PutBack(c, dropped[..|dropped| - 1], inUse, at, ttl, size);
      if last.0 in inUse then Inserted(before, last.0, last.1, at(|dropped| - 1), ttl, size) else before
  }

  /** The other discarded files, closed after an attempt to upload them. */
  function ClosedOf(dropped: Dropped, inUse: set<string>, tries: string -> Attempt): map<string, Handle> {
    if dropped == [] then map[]
    else
      var last := dropped[|dropped| - 1];
      var before := ClosedOf(dropped[..|dropped| - 1], inUse, tries);
      if last.0 in inUse then before else before[last.0 := Closed(last.1, tries(last.0))]
  }

  /** The storage after the uploads of the dirty ones among them. */
  function StoredAfter(storage: Storage, dropped: Dropped, inUse: set<string>, tries: string -> Attempt): Storage {
    if dropped == [] then storage
    else
      var last := dropped[|dropped| - 1];
      var before := StoredAfter(storage, dropped[..|dropped| - 1], inUse, tries);
      if last.0 !in inUse && Dirty(last.1) then before[last.0 := Closed(last.1, tries(last.0)).remote] else before
  }

  /** How many of them were dirty. */
  function DirtyCount(dropped: Dropped, inUse: set<string>): nat {
    if dropped == [] then 0
    else
      var last := dropped[|dropped| - 1];
      DirtyCount(dropped[..|dropped| - 1], inUse) + (if last.0 !in inUse && Dirty(last.1) then 1 else 0)
  }

  /** The files that are written back: writable, not synced and not in use. */
  ghost function WrittenBack(dropped: Dropped, inUse: set<string>): set<int> {
    set i | 0 <= i < |dropped| && dropped[i].0 !in inUse && dropped[i].1.mode == ReadWrite && !dropped[i].1.synced
  }

  lemma {:induction false} DirtyCountIs(dropped: Dropped, inUse: set<string>)
    ensures DirtyCount(dropped, inUse) == |WrittenBack(dropped, inUse)|
  {
    if dropped != [] {
      var n := |dropped| - 1;
      DirtyCountIs(dropped[..n], inUse);
      var last := dropped[n];
      if last.0 !in inUse && last.1.mode == ReadWrite && !last.1.synced {
        assert WrittenBack(dropped, inUse) == WrittenBack(dropped[..n], inUse) + {n};
      } else {
        assert WrittenBack(dropped, inUse) == WrittenBack(dropped[..n], inUse);
      }
    }
  }

  // ----- the code -----

  class DescriptorCache {
    const cache: C.Cache<string, Handle>
    /** The remote storage, which only uploads change. */
    var storage: Storage

    constructor (size: nat, ttl: nat, storage: Storage)
      ensures fresh(cache) && cache.Valid() && cache.store == map[] && this.storage == storage
    {
      cache := new C.Cache(size, ttl);
      this.storage := storage;
    }

    ghost function Holds(): Contents
      reads this, cache
    {
      Contents(cache.order, cache.store)
    }

    /**
      `write_or_create` as far as the cache goes: a cached handle that can write is used, otherwise
      the file is opened and its handle inserted. So one caller at a time never replaces a dirty handle.
    */
    method Acquire(path: string, local: Option<Content>, readOnly: bool, now: nat, later: nat,
                   inUse: set<string>, at: nat -> nat, tries: string -> Attempt)
      returns (r: Option<Handle>, ghost dropped: Dropped)
      requires cache.Valid() && cache.clock < now < later && C.NoTies(cache.store) && Rising(at, later)
      modifies this`storage, cache
      ensures cache.Valid() && C.NoTies(cache.store)
      ensures var c, ttl, size := Touched(old(Holds()), path, now), cache.ttl, cache.size;
              var uses := path in old(cache.store) && old(cache.store)[path].value.mode == ReadWrite;
              var opening := Open(local, RemoteCopy(old(storage), path), path !in old(cache.store), true, readOnly, later);
              if uses then r == Some(old(cache.store)[path].value) && Holds() == c && storage == old(storage)
              else if opening.NotFound? then r == None && Holds() == c && storage == old(storage)
              else
                && r == Some(opening.h) && Discards(c, path, opening.h, later, ttl, size, dropped)
                && Holds() == PutBack(Inserted(c, path, opening.h, later, ttl, size), dropped, inUse, at, ttl, size)
                && storage == StoredAfter(old(storage), dropped, inUse, tries)
      ensures r.Some? && path in old(cache.store) && r.value != old(cache.store)[path].value ==> old(cache.store)[path].value.mode == Read
    {
      hide C.MoveToFront, C.FreshCount, C.Kept, C.Without, C.Falling, C.Returns, C.NoTies, PutBack, Inserted, StoredAfter, ClosedOf, AllFresh, Lost;
      dropped := [];
      if path in cache.store { C.TouchTies(cache.store, path, C.Slot(cache.store[path].value, now), cache.clock); }
      var got := cache.Get(path, now);
      if got.Some? && got.value.mode == ReadWrite {
        return got, [];
      }
      var opening := Open(local, RemoteCopy(storage, path), got.None?, true, readOnly, later);
      if opening.NotFound? {
        return None, [];
      }
      var _, _, _, gone := InsertFile(path, opening.h, later, inUse, at, tries);
      return Some(opening.h), gone;
    }

    /**
      `insert_file_cached`, with a clock that advances: read at `now` for the insert and then once
      for every discarded file. The discarded files that are in use are inserted again, the others
      are closed and, if they are dirty, uploaded; the counts are those of the latter. A full cache
      in which nothing is too old loses track of a file exactly when the one that makes room is in use.
    */
    method InsertFile(path: string, h: Handle, now: nat, inUse: set<string>, at: nat -> nat, tries: string -> Attempt)
      returns (discarded: nat, synced: nat, closed: map<string, Handle>, ghost dropped: Dropped)
      requires cache.Valid() && cache.clock < now && C.NoTies(cache.store) && Rising(at, now)
      modifies this`storage, cache
      ensures cache.Valid() && C.NoTies(cache.store)
      ensures var c := old(Holds());
              && Discards(c, path, h, now, cache.ttl, cache.size, dropped)
              && Holds() == PutBack(Inserted(c, path, h, now, cache.ttl, cache.size), dropped, inUse, at, cache.ttl, cache.size)
      ensures closed == ClosedOf(dropped, inUse, tries) && storage == StoredAfter(old(storage), dropped, inUse, tries)
      ensures discarded == |closed| && synced == DirtyCount(dropped, inUse)
      ensures var before, size := old(cache.store)[path := C.Slot(h, now)], cache.size;
              0 < size == |old(cache.order)| && path !in old(cache.order) && AllFresh(before, at(0), cache.ttl) ==>
                ((exists p :: Lost(before, closed, cache.store, p)) <==> old(cache.order)[size - 1] in inUse)
    {
      hide C.MoveToFront, C.FreshCount, C.Kept, C.Without, C.Falling, C.Returns, Closed, Lost, PutBack, Inserted, ClosedOf, AllFresh,
           StoredAfter, C.NoTies;
      ghost var c, stored := Holds(), storage;
      ghost var before := cache.store[path := C.Slot(h, now)];
      C.TouchOrders(cache.order, cache.store, path, C.Slot(h, now));
      var gone, all := cache.Insert(path, h, now);
      dropped := gone;
      IsInserted(c, path, h, now, cache.ttl, cache.size, Holds());
      OncePerDrop(gone, all[|cache.order|..], before);
      discarded, synced, closed := CloseDropped(gone, now, inUse, at, tries);
      if 0 < cache.size == |c.order| && path !in c.order && AllFresh(before, at(0), cache.ttl) {
        FullCacheLosesIff(c, path, h, now, cache.ttl, cache.size, dropped, inUse, at, tries, stored);
      }
    }

    /** The loop over the discarded files. */
    method CloseDropped(dropped: Dropped, now: nat, inUse: set<string>, at: nat -> nat, tries: string -> Attempt)
      returns (discarded: nat, synced: nat, closed: map<string, Handle>)
      requires cache.Valid() && cache.clock == now && C.NoTies(cache.store) && C.OncePerKey(dropped) && Rising(at, now)
      modifies this`storage, cache
      ensures cache.Valid() && C.NoTies(cache.store) && Sound(old(Holds()))
      ensures Holds() == PutBack(old(Holds()), dropped, inUse, at, cache.ttl, cache.size)
      ensures closed == ClosedOf(dropped, inUse, tries) && storage == StoredAfter(old(storage), dropped, inUse, tries)
      ensures discarded == |closed| && synced == DirtyCount(dropped, inUse)
    {
      hide C.Cache.Valid, C.ByRecency, C.NoTies, Inserted, Closed, PutBack, ClosedOf, DirtyCount, C.OncePerKey, Sound, Dirty, StoredAfter;
      discarded, synced, closed := 0, 0, map[];
      ghost var c, stored := Holds(), storage;
      CacheSound();
      NothingDropped(c, dropped[..0], inUse, at, cache.ttl, cache.size, tries, stored);
      for i := 0 to |dropped|
        invariant cache.Valid() && C.NoTies(cache.store) && cache.clock < at(i)
        invariant Holds() == PutBack(c, dropped[..i], inUse, at, cache.ttl, cache.size)
        invariant closed == ClosedOf(dropped[..i], inUse, tries) && storage == StoredAfter(stored, dropped[..i], inUse, tries)
        invariant discarded == |closed| && synced == DirtyCount(dropped[..i], inUse)
      {
        var (p, file) := dropped[i];
        NextDropped(c, dropped, i, inUse, at, cache.ttl, cache.size, tries, stored);
        assert at(i) < at(i + 1);
        if p !in inUse {
          discarded := discarded + 1;
          var h := Closed(file, tries(p));
          if Dirty(file) {
            storage := storage[p := h.remote];
            synced := synced + 1;
          }
          closed := closed[p := h];
        } else {
          InsertAgain(p, file, at(i));
        }
      }
      assert dropped[..|dropped|] == dropped;
    }

    lemma CacheSound()
      requires cache.Valid()
      ensures Sound(Holds())
    {
    }

    /** Puts a file back; whatever that drops is ignored. */
    method InsertAgain(path: string, file: Handle, now: nat)
      requires cache.Valid() && cache.clock < now && C.NoTies(cache.store)
      modifies cache
      ensures cache.Valid() && C.NoTies(cache.store) && cache.clock == now && Sound(old(Holds()))
      ensures Holds() == Inserted(old(Holds()), path, file, now, cache.ttl, cache.size)
    {
      hide C.MoveToFront, C.FreshCount, C.Kept, C.Without, C.Falling, C.Returns, C.NoTies;
      ghost var held := Holds();
      var _, _ := cache.Insert(path, file, now);
      IsInserted(held, path, file, now, cache.ttl, cache.size, Holds());
    }
  }

  lemma NothingDropped(c: Contents, dropped: Dropped, inUse: set<string>, at: nat -> nat, ttl: nat, size: nat, tries: string -> Attempt,
                       storage: Storage)
    requires Sound(c) && dropped == []
    ensures PutBack(c, dropped, inUse, at, ttl, size) == c && StoredAfter(storage, dropped, inUse, tries) == storage
    ensures ClosedOf(dropped, inUse, tries) == map[] && DirtyCount(dropped, inUse) == 0
  {
  }

  lemma NextDropped(c: Contents, dropped: Dropped, i: nat, inUse: set<string>, at: nat -> nat, ttl: nat, size: nat, tries: string -> Attempt,
                    storage: Storage)
    requires Sound(c) && i < |dropped| && C.OncePerKey(dropped)
    ensures var (p, file) := dropped[i];
            var before := PutBack(c, dropped[..i], inUse, at, ttl, size);
            var closed, stored := ClosedOf(dropped[..i], inUse, tries), StoredAfter(storage, dropped[..i], inUse, tries);
            && PutBack(c, dropped[..i + 1], inUse, at, ttl, size)
               == (if p in inUse then Inserted(before, p, file, at(i), ttl, size) else before)
            && ClosedOf(dropped[..i + 1], inUse, tries) == (if p in inUse then closed else closed[p := Closed(file, tries(p))])
            && StoredAfter(storage, dropped[..i + 1], inUse, tries)
               == (if p !in inUse && Dirty(file) then stored[p := Closed(file, tries(p)).remote] else stored)
            && DirtyCount(dropped[..i + 1], inUse) == DirtyCount(dropped[..i], inUse) + (if p !in inUse && Dirty(file) then 1 else 0)
            && |ClosedOf(dropped[..i + 1], inUse, tries)| == |closed| + (if p in inUse then 0 else 1)
  {
    hide Inserted, Closed;
    assert dropped[..i + 1][..i] == dropped[..i];
    NotClosedYet(dropped, i, inUse, tries);
  }

  /** The cache's own contract fixes what it holds. */
  lemma IsInserted(c: Contents, path: string, h: Handle, now: nat, ttl: nat, size: nat, after: Contents)
    requires Sound(c) && C.ByRecency(after.order, after.store)
    requires var all, m := C.MoveToFront(c.order, path), c.store[path := C.Slot(h, now)];
             && C.AllIn(all, m) && after.order == all[..C.Kept(all, m, now, ttl, size)]
             && forall p :: p in after.store ==> p in m && after.store[p] == m[p]
    ensures after == Inserted(c, path, h, now, ttl, size)
  {
    hide C.MoveToFront, C.Kept, C.Falling;
    assert forall p :: p in after.store <==> p in after.order;
  }

  lemma OncePerDrop(dropped: Dropped, keys: seq<string>, before: Store)
    requires C.AllIn(keys, before) && C.Returns(dropped, keys, before)
    ensures C.OncePerKey(dropped)
  {
  }

  /** Only discarded files are closed. */
  lemma {:induction false} ClosedMembers(dropped: Dropped, inUse: set<string>, tries: string -> Attempt, p: string)
    ensures p in ClosedOf(dropped, inUse, tries) <==> p !in inUse && exists i :: 0 <= i < |dropped| && dropped[i].0 == p
  {
    hide Closed;
    if dropped != [] {
      var front, last := dropped[..|dropped| - 1], dropped[|dropped| - 1];
      ClosedMembers(front, inUse, tries, p);
      assert dropped == front + [last];
      assert (exists i :: 0 <= i < |dropped| && dropped[i].0 == p) <==> last.0 == p || exists i :: 0 <= i < |front| && front[i].0 == p by {
        if i :| 0 <= i < |front| && front[i].0 == p { assert dropped[i] == front[i]; }
      }
    }
  }

  lemma NotClosedYet(dropped: Dropped, i: nat, inUse: set<string>, tries: string -> Attempt)
    requires i < |dropped| && C.OncePerKey(dropped)
    ensures dropped[i].0 !in ClosedOf(dropped[..i], inUse, tries)
  {
    hide ClosedOf;
    ClosedMembers(dropped[..i], inUse, tries, dropped[i].0);
  }

  // ----- when no discarded file is in use -----

  /** The discarded entries are those after the kept front. */
  lemma DroppedAre(all: seq<string>, before: Store, n: nat, dropped: Dropped, p: string)
    requires C.AllIn(all, before) && n <= |all| && C.Returns(dropped, all[n..], before)
    ensures p in all[n..] <==> exists i :: 0 <= i < |dropped| && dropped[i].0 == p
    ensures forall i :: 0 <= i < |dropped| && dropped[i].0 == p ==> p in before && dropped[i].1 == before[p].value
  {
    if p in all[n..] {
      C.PairsMember(all[n..], before, (p, before[p].value));
      var i :| 0 <= i < |dropped| && dropped[i] == (p, before[p].value);
    }
    forall i | 0 <= i < |dropped| && dropped[i].0 == p
      ensures p in all[n..] && dropped[i].1 == before[p].value
    {
      assert dropped[i] in dropped;
      C.PairsMember(all[n..], before, dropped[i]);
    }
  }

  /** A closed file is as its closing left it. */
  lemma {:induction false} ClosedValue(dropped: Dropped, inUse: set<string>, tries: string -> Attempt, p: string, h: Handle)
    requires p in ClosedOf(dropped, inUse, tries)
    requires forall i :: 0 <= i < |dropped| && dropped[i].0 == p ==> dropped[i].1 == h
    ensures ClosedOf(dropped, inUse, tries)[p] == Closed(h, tries(p))
  {
    hide Closed;
    var front, last := dropped[..|dropped| - 1], dropped[|dropped| - 1];
    if last.0 != p || last.0 in inUse { ClosedValue(front, inUse, tries, p, h); }
  }

  lemma {:induction false} NonePutBack(c: Contents, dropped: Dropped, inUse: set<string>, at: nat -> nat, ttl: nat, size: nat)
    requires Sound(c) && forall i :: 0 <= i < |dropped| ==> dropped[i].0 !in inUse
    ensures PutBack(c, dropped, inUse, at, ttl, size) == c
  {
    if dropped != [] { NonePutBack(c, dropped[..|dropped| - 1], inUse, at, ttl, size); }
  }

  /** Neither in the cache any more nor closed. */
  ghost predicate Lost(before: Store, closed: map<string, Handle>, after: Store, p: string) {
    p in before && p !in closed && p !in after
  }

  /** A file that is not lost is in the cache with the handle it had, or was closed. */
  ghost predicate Accounted(before: Store, after: Store, closed: map<string, Handle>, tries: string -> Attempt) {
    forall p :: p in before && !Lost(before, closed, after, p) ==>
      if p in closed then p !in after && closed[p] == Closed(before[p].value, tries(p))
      else after[p].value == before[p].value
  }

  /** What an insert knows when it closes the discarded files. */
  ghost predicate Discarding(all: seq<string>, before: Store, n: nat, kept: Contents, dropped: Dropped) {
    && C.ByRecency(all, before) && n <= |all| && C.Returns(dropped, all[n..], before)
    && kept.order == all[..n] && Sound(kept)
    && (forall p :: p in kept.store ==> p in kept.order && p in before && kept.store[p] == before[p])
  }

  lemma InsertDiscards(c: Contents, path: string, h: Handle, now: nat, ttl: nat, size: nat, dropped: Dropped)
    requires Discards(c, path, h, now, ttl, size, dropped)
    ensures var all, before := C.MoveToFront(c.order, path), c.store[path := C.Slot(h, now)];
            Discarding(all, before, C.Kept(all, before, now, ttl, size), Inserted(c, path, h, now, ttl, size), dropped)
  {
    hide C.MoveToFront, C.Kept, C.Falling, C.Returns;
  }

  /** The files before are those kept and those discarded, and none is both. */
  lemma KeptOrDropped(all: seq<string>, before: Store, n: nat, kept: Contents, dropped: Dropped, p: string)
    requires Discarding(all, before, n, kept, dropped)
    ensures p in before <==> p in kept.order || exists i :: 0 <= i < |dropped| && dropped[i].0 == p
    ensures p in kept.order ==> forall i :: 0 <= i < |dropped| ==> dropped[i].0 != p
  {
    hide C.Falling, C.Returns;
    C.RecencyUnique(all, before);
    DroppedAre(all, before, n, dropped, p);
    assert all == all[..n] + all[n..];
  }

  /** While no discarded file is in use, nothing is lost. */
  lemma UnusedDiscards(all: seq<string>, before: Store, n: nat, kept: Contents, dropped: Dropped, inUse: set<string>,
                       at: nat -> nat, ttl: nat, size: nat, tries: string -> Attempt)
    requires Discarding(all, before, n, kept, dropped)
    requires forall i :: 0 <= i < |dropped| ==> dropped[i].0 !in inUse
    ensures var after, closed := PutBack(kept, dropped, inUse, at, ttl, size), ClosedOf(dropped, inUse, tries);
            after == kept && (forall p :: !Lost(before, closed, after.store, p)) && Accounted(before, after.store, closed, tries)
  {
    hide Discarding, PutBack, ClosedOf, Closed;
    DiscardingSound(all, before, n, kept, dropped);
    NonePutBack(kept, dropped, inUse, at, ttl, size);
    var closed := ClosedOf(dropped, inUse, tries);
    forall p | p in before
      ensures if p in closed then p !in kept.store && closed[p] == Closed(before[p].value, tries(p))
              else p in kept.store && kept.store[p] == before[p]
    {
      KeptOrDropped(all, before, n, kept, dropped, p);
      ClosedMembers(dropped, inUse, tries, p);
      DropValues(all, before, n, kept, dropped, p);
      if p in closed { ClosedValue(dropped, inUse, tries, p, before[p].value); }
    }
  }

  lemma DiscardingSound(all: seq<string>, before: Store, n: nat, kept: Contents, dropped: Dropped)
    requires Discarding(all, before, n, kept, dropped)
    ensures Sound(kept) && C.OncePerKey(dropped)
    ensures forall p :: p in kept.store <==> p in kept.order
    ensures forall p :: p in kept.store ==> p in before && kept.store[p] == before[p]
  {
    hide C.ByRecency;
  }

  lemma DropValues(all: seq<string>, before: Store, n: nat, kept: Contents, dropped: Dropped, p: string)
    requires Discarding(all, before, n, kept, dropped)
    ensures forall i :: 0 <= i < |dropped| && dropped[i].0 == p ==> p in before && dropped[i].1 == before[p].value
    ensures p in kept.order ==> p in kept.store && p in before && kept.store[p] == before[p]
  {
    hide C.Falling, C.Returns;
    DroppedAre(all, before, n, dropped, p);
  }

  /** When the uploads succeed no byte of a writable file that is not lost is only in a file that left the cache. */
  lemma NothingLost(before: Store, after: Store, closed: map<string, Handle>, tries: string -> Attempt, p: string)
    requires Accounted(before, after, closed, tries) && p in before && Succeeds(tries(p)) && !Lost(before, closed, after, p)
    requires Mirrored(before[p].value) && before[p].value.mode == ReadWrite
    requires before[p].value.ignoreWrite ==> before[p].value.synced
    ensures (p in after && after[p].value == before[p].value)
            || (p in closed && RemoteContent(closed[p].remote) == before[p].value.local)
  {
  }

  // ----- when a discarded file is in use -----

  /** The discarded files that are put back, the last one first. */
  function Back(dropped: Dropped, inUse: set<string>): seq<string> {
    if dropped == [] then []
    else
      var last := dropped[|dropped| - 1].0;
      (if last in inUse then [last] else []) + Back(dropped[..|dropped| - 1], inUse)
  }

  /** The slots of the files that are kept or put back. */
  function ClaimedStore(store: Store, dropped: Dropped, inUse: set<string>, at: nat -> nat): Store {
    if dropped == [] then store
    else
      var last := dropped[|dropped| - 1];
      var before := ClaimedStore(store, dropped[..|dropped| - 1], inUse, at);
      if last.0 in inUse then before[last.0 := C.Slot(last.1, at(|dropped| - 1))] else before
  }

  /** The time of the last put-back. */
  function LastTime(dropped: Dropped, inUse: set<string>, at: nat -> nat): nat {
    if dropped == [] then 0
    else if dropped[|dropped| - 1].0 in inUse then at(|dropped| - 1)
    else LastTime(dropped[..|dropped| - 1], inUse, at)
  }

  /** The files that are kept or put back, most recently inserted first. */
  ghost function Claimed(kept: Contents, dropped: Dropped, inUse: set<string>): seq<string> {
    Back(dropped, inUse) + kept.order
  }

  lemma {:induction false} WithoutAbsent(order: seq<string>, path: string)
    requires path !in order
    ensures C.Without(order, path) == order
  {
    if order != [] { WithoutAbsent(order[1..], path); }
  }

  lemma {:induction false} BackMembers(dropped: Dropped, inUse: set<string>, p: string)
    ensures p in Back(dropped, inUse) <==> p in inUse && exists i :: 0 <= i < |dropped| && dropped[i].0 == p
  {
    if dropped != [] {
      var front, last := dropped[..|dropped| - 1], dropped[|dropped| - 1];
      BackMembers(front, inUse, p);
      assert dropped == front + [last];
      if i :| 0 <= i < |front| && front[i].0 == p { assert dropped[i] == front[i]; }
    }
  }

  lemma FrontOnce(dropped: Dropped)
    requires dropped != [] && C.OncePerKey(dropped)
    ensures C.OncePerKey(dropped[..|dropped| - 1])
  {
  }

  lemma NotYetBack(dropped: Dropped, inUse: set<string>)
    requires dropped != [] && C.OncePerKey(dropped)
    ensures dropped[|dropped| - 1].0 !in Back(dropped[..|dropped| - 1], inUse)
    ensures forall i :: 0 <= i < |dropped| - 1 ==> dropped[i].0 != dropped[|dropped| - 1].0
  {
    hide Back;
    BackMembers(dropped[..|dropped| - 1], inUse, dropped[|dropped| - 1].0);
  }

  /** How many of the claimed files stay: all if nothing was put back, otherwise what the last put-back leaves. */
  ghost function Staying(claimed: seq<string>, m: Store, back: seq<string>, time: nat, ttl: nat, size: nat): (n: nat)
    requires C.AllIn(claimed, m)
    ensures n <= |claimed|
  {
    if back == [] then |claimed| else C.Kept(claimed, m, time, ttl, size)
  }

  /** Cutting the tail once more, at a later time, leaves what one cut of the whole list would have left. */
  lemma CutTwice(full: seq<string>, m: Store, n: nat, time: nat, ttl: nat, size: nat, all: seq<string>, m': Store)
    requires C.AllIn(full, m) && n <= |full| && all == full[..n]
    requires forall p :: p in all ==> p in m' && m'[p] == m[p]
    requires n < |full| ==> size < n || C.TooOld(m[full[n]], time, ttl)
    ensures C.AllIn(all, m') && C.Kept(all, m', time, ttl, size) == C.Kept(full, m, time, ttl, size)
  {
    hide C.FreshCount, C.TooOld;
    assert forall i :: 0 <= i < n ==> all[i] == full[i] && all[i] in all;
    FreshAtLeast(full, m, time, ttl, C.FreshCount(all, m', time, ttl));
  }

  lemma FreshAtLeast(order: seq<string>, m: Store, time: nat, ttl: nat, n: nat)
    requires C.AllIn(order, m) && n <= |order|
    requires forall i :: 0 <= i < n ==> !C.TooOld(m[order[i]], time, ttl)
    ensures n <= C.FreshCount(order, m, time, ttl)
    ensures n < |order| && C.TooOld(m[order[n]], time, ttl) ==> C.FreshCount(order, m, time, ttl) == n
  {
    hide C.FreshCount, C.TooOld;
  }

  lemma OldStaysOld(slot: C.Slot<Handle>, time: nat, later: nat, ttl: nat)
    requires time <= later && C.TooOld(slot, time, ttl)
    ensures C.TooOld(slot, later, ttl)
  {
  }

  /** The cache holds the claimed files that stay, with their slots. */
  ghost predicate IsPutBack(c: Contents, dropped: Dropped, inUse: set<string>, at: nat -> nat, ttl: nat, size: nat, r: Contents) {
    var claimed, m := Claimed(c, dropped, inUse), ClaimedStore(c.store, dropped, inUse, at);
    && C.AllIn(claimed, m) && Sound(r)
    && r.order == claimed[..Staying(claimed, m, Back(dropped, inUse), LastTime(dropped, inUse, at), ttl, size)]
    && (forall p :: p in r.store <==> p in r.order)
    && (forall p :: p in r.store ==> r.store[p] == m[p])
  }

  /** Why a file of the list is cut off. */
  lemma StayingCut(claimed: seq<string>, m: Store, back: seq<string>, time: nat, ttl: nat, size: nat, n: nat)
    requires C.AllIn(claimed, m) && n == Staying(claimed, m, back, time, ttl, size) && n < |claimed|
    ensures back != [] && (n == size || C.TooOld(m[claimed[n]], time, ttl))
  {
    hide C.FreshCount, C.TooOld;
  }

  /** Inserting one file more. */
  lemma InsertCuts(held: Contents, full: seq<string>, m: Store, n: nat, path: string, h: Handle, now: nat, ttl: nat, size: nat)
    requires Sound(held) && path !in held.order && (forall p :: p in held.store ==> p in held.order)
    requires full != [] && full[0] == path && C.AllIn(full, m) && n < |full| && held.order == full[1..n + 1]
    requires m[path] == C.Slot(h, now) && forall p :: p in held.order ==> held.store[p] == m[p]
    requires n + 1 < |full| ==> size < n + 1 || C.TooOld(m[full[n + 1]], now, ttl)
    ensures var r := Inserted(held, path, h, now, ttl, size);
            && r.order == full[..C.Kept(full, m, now, ttl, size)]
            && (forall p :: p in r.store <==> p in r.order)
            && (forall p :: p in r.store ==> p in m && r.store[p] == m[p])
  {
    hide C.Without, C.FreshCount, C.TooOld, C.Kept;
    WithoutAbsent(held.order, path);
    FrontSound(held, path, C.Slot(h, now));
    var all, m' := [path] + held.order, held.store[path := C.Slot(h, now)];
    assert C.MoveToFront(held.order, path) == all && all == full[..n + 1];
    CutTwice(full, m, n + 1, now, ttl, size, all, m');
    var k := C.Kept(full, m, now, ttl, size);
    assert all[..k] == full[..k];
    assert forall p :: p in full[..k] ==> p in all;
  }

  /** Inserting a file that is not claimed yet, at a later time, cuts the claimed files with it as one list. */
  lemma CutAgain(held: Contents, list: seq<string>, m: Store, back: seq<string>, before: nat, n: nat,
                 path: string, h: Handle, time: nat, ttl: nat, size: nat)
    requires C.AllIn(list, m) && path !in list && n == Staying(list, m, back, before, ttl, size) && before <= time
    requires Sound(held) && held.order == list[..n]
    requires (forall p :: p in held.store <==> p in held.order) && (forall p :: p in held.store ==> held.store[p] == m[p])
    ensures var full, m' := [path] + list, m[path := C.Slot(h, time)];
            var r := Inserted(held, path, h, time, ttl, size);
            && C.AllIn(full, m') && r.order == full[..C.Kept(full, m', time, ttl, size)]
            && (forall p :: p in r.store <==> p in r.order)
            && (forall p :: p in r.store ==> p in m' && r.store[p] == m'[p])
  {
    hide Inserted, C.TooOld, C.Kept, Staying;
    var full, m' := [path] + list, m[path := C.Slot(h, time)];
    assert full[1..n + 1] == list[..n];
    assert forall p :: p in list[..n] ==> p in list;
    if n < |list| {
      StayingCut(list, m, back, before, ttl, size, n);
      assert full[n + 1] == list[n] && list[n] in list;
      if n != size { OldStaysOld(m[list[n]], before, time, ttl); }
    }
    InsertCuts(held, full, m', n, path, h, time, ttl, size);
  }

  lemma PutBackNext(c: Contents, dropped: Dropped, inUse: set<string>, at: nat -> nat, ttl: nat, size: nat, held: Contents, now: nat)
    requires dropped != [] && dropped[|dropped| - 1].0 in inUse && C.OncePerKey(dropped) && Rising(at, now)
    requires IsPutBack(c, dropped[..|dropped| - 1], inUse, at, ttl, size, held)
    requires forall i :: 0 <= i < |dropped| ==> dropped[i].0 !in c.order
    ensures var last := dropped[|dropped| - 1];
            IsPutBack(c, dropped, inUse, at, ttl, size, Inserted(held, last.0, last.1, at(|dropped| - 1), ttl, size))
  {
    hide Inserted, C.OncePerKey, Back, ClaimedStore, LastTime, Rising, C.Kept, Staying;
    var front, last, time := dropped[..|dropped| - 1], dropped[|dropped| - 1], at(|dropped| - 1);
    var list, m := Claimed(c, front, inUse), ClaimedStore(c.store, front, inUse, at);
    var back, before := Back(front, inUse), LastTime(front, inUse, at);
    NotYetBack(dropped, inUse);
    NextClaimed(c, dropped, inUse, at);
    EarlierBack(dropped, inUse, at, now);
    CutAgain(held, list, m, back, before, Staying(list, m, back, before, ttl, size), last.0, last.1, time, ttl, size);
    StayingBack([last.0] + list, m[last.0 := C.Slot(last.1, time)], Back(dropped, inUse), time, ttl, size);
  }

  lemma StayingBack(claimed: seq<string>, m: Store, back: seq<string>, time: nat, ttl: nat, size: nat)
    requires C.AllIn(claimed, m) && back != []
    ensures Staying(claimed, m, back, time, ttl, size) == C.Kept(claimed, m, time, ttl, size)
  {
  }

  lemma NextClaimed(c: Contents, dropped: Dropped, inUse: set<string>, at: nat -> nat)
    requires dropped != [] && dropped[|dropped| - 1].0 in inUse
    ensures var front, last, time := dropped[..|dropped| - 1], dropped[|dropped| - 1], at(|dropped| - 1);
            && Back(dropped, inUse) != [] && LastTime(dropped, inUse, at) == time
            && Claimed(c, dropped, inUse) == [last.0] + Claimed(c, front, inUse)
            && ClaimedStore(c.store, dropped, inUse, at) == ClaimedStore(c.store, front, inUse, at)[last.0 := C.Slot(last.1, time)]
  {
    var front, last := dropped[..|dropped| - 1], dropped[|dropped| - 1].0;
    assert ([last] + Back(front, inUse)) + c.order == [last] + (Back(front, inUse) + c.order);
  }

  lemma {:induction false} LastTimeAt(dropped: Dropped, inUse: set<string>, at: nat -> nat, now: nat)
    requires Rising(at, now)
    ensures LastTime(dropped, inUse, at) < at(|dropped|)
  {
    if dropped != [] {
      LastTimeAt(dropped[..|dropped| - 1], inUse, at, now);
      assert at(|dropped| - 1) < at(|dropped|);
    }
  }

  lemma EarlierBack(dropped: Dropped, inUse: set<string>, at: nat -> nat, now: nat)
    requires dropped != [] && Rising(at, now)
    ensures LastTime(dropped[..|dropped| - 1], inUse, at) <= at(|dropped| - 1)
  {
    LastTimeAt(dropped[..|dropped| - 1], inUse, at, now);
  }

  lemma PutBackSkips(c: Contents, dropped: Dropped, inUse: set<string>, at: nat -> nat, ttl: nat, size: nat, held: Contents)
    requires dropped != [] && dropped[|dropped| - 1].0 !in inUse
    requires IsPutBack(c, dropped[..|dropped| - 1], inUse, at, ttl, size, held)
    ensures IsPutBack(c, dropped, inUse, at, ttl, size, held)
  {
    var front := dropped[..|dropped| - 1];
    hide C.Kept;
    assert [] + Back(front, inUse) == Back(front, inUse);
  }

  lemma NonePutBackYet(c: Contents, dropped: Dropped, inUse: set<string>, at: nat -> nat, ttl: nat, size: nat)
    requires dropped == [] && Sound(c) && (forall p :: p in c.store <==> p in c.order)
    ensures IsPutBack(c, dropped, inUse, at, ttl, size, c)
  {
    assert [] + c.order == c.order;
  }

  /** The put-backs leave what the last of them alone would leave of all files that are kept or put back. */
  lemma {:induction false} PutBackOrder(c: Contents, dropped: Dropped, inUse: set<string>, at: nat -> nat, ttl: nat, size: nat, now: nat)
    requires Sound(c) && (forall p :: p in c.store <==> p in c.order) && Rising(at, now)
    requires C.OncePerKey(dropped) && forall i :: 0 <= i < |dropped| ==> dropped[i].0 !in c.order
    ensures IsPutBack(c, dropped, inUse, at, ttl, size, PutBack(c, dropped, inUse, at, ttl, size))
    decreases |dropped|
  {
    hide Inserted, C.OncePerKey, IsPutBack, Rising;
    if dropped == [] {
      NonePutBackYet(c, dropped, inUse, at, ttl, size);
    } else {
      var front, last := dropped[..|dropped| - 1], dropped[|dropped| - 1];
      FrontOnce(dropped);
      PutBackOrder(c, front, inUse, at, ttl, size, now);
      var held := PutBack(c, front, inUse, at, ttl, size);
      if last.0 in inUse {
        PutBackNext(c, dropped, inUse, at, ttl, size, held, now);
      } else {
        PutBackSkips(c, dropped, inUse, at, ttl, size, held);
      }
    }
  }

  // ----- exactly which files are lost -----

  lemma {:induction false} BackUnique(dropped: Dropped, inUse: set<string>)
    requires C.OncePerKey(dropped)
    ensures Unique(Back(dropped, inUse))
  {
    if dropped != [] {
      hide C.OncePerKey;
      FrontOnce(dropped);
      BackUnique(dropped[..|dropped| - 1], inUse);
      NotYetBack(dropped, inUse);
    }
  }

  lemma JoinUnique(a: seq<string>, b: seq<string>)
    requires Unique(a) && Unique(b) && forall p :: p in a ==> p !in b
    ensures Unique(a + b)
  {
    forall i, j | 0 <= i < j < |a + b|
      ensures (a + b)[i] != (a + b)[j]
    {
      if i < |a| <= j { assert a[i] in a && b[j - |a|] in b; }
    }
  }

  lemma TakenOrNot(s: seq<string>, n: nat, p: string)
    requires Unique(s) && n <= |s|
    ensures p in s && p !in s[..n] <==> p in s[n..]
  {
    assert s == s[..n] + s[n..];
    if p in s[n..] {
      var j :| 0 <= j < |s| - n && s[n..][j] == p;
      assert s[n + j] == p;
    }
  }

  lemma ClaimedAre(all: seq<string>, before: Store, n: nat, kept: Contents, dropped: Dropped, inUse: set<string>, tries: string -> Attempt)
    requires Discarding(all, before, n, kept, dropped)
    ensures Unique(Claimed(kept, dropped, inUse))
    ensures forall p :: p in Claimed(kept, dropped, inUse) <==> p in before && p !in ClosedOf(dropped, inUse, tries)
  {
    hide Discarding, ClosedOf, Back, Unique;
    DiscardingSound(all, before, n, kept, dropped);
    BackUnique(dropped, inUse);
    KeptUnique(all, before, n, kept, dropped);
    forall p
      ensures p in Claimed(kept, dropped, inUse) <==> p in before && p !in ClosedOf(dropped, inUse, tries)
      ensures p in Back(dropped, inUse) ==> p !in kept.order
    {
      KeptOrDropped(all, before, n, kept, dropped, p);
      ClosedMembers(dropped, inUse, tries, p);
      BackMembers(dropped, inUse, p);
    }
    JoinUnique(Back(dropped, inUse), kept.order);
  }

  lemma KeptUnique(all: seq<string>, before: Store, n: nat, kept: Contents, dropped: Dropped)
    requires Discarding(all, before, n, kept, dropped)
    ensures Unique(kept.order) && forall i :: 0 <= i < |dropped| ==> dropped[i].0 !in kept.order
  {
    hide C.Falling, C.Returns;
    C.RecencyUnique(all, before);
    forall i | 0 <= i < |dropped|
      ensures dropped[i].0 !in kept.order
    {
      KeptOrDropped(all, before, n, kept, dropped, dropped[i].0);
    }
  }

  /** The handle under a claimed path is the one it had. */
  lemma {:induction false} ClaimedValue(store: Store, dropped: Dropped, inUse: set<string>, at: nat -> nat, p: string, h: Handle)
    requires p in ClaimedStore(store, dropped, inUse, at) && (p in store ==> store[p].value == h)
    requires forall i :: 0 <= i < |dropped| && dropped[i].0 == p ==> dropped[i].1 == h
    ensures ClaimedStore(store, dropped, inUse, at)[p].value == h
  {
    if dropped != [] {
      var last := dropped[|dropped| - 1].0;
      if last != p || last !in inUse { ClaimedValue(store, dropped[..|dropped| - 1], inUse, at, p, h); }
    }
  }

  /** Something is cut off exactly when there are too many files or one of them is too old. */
  lemma CutIff(claimed: seq<string>, m: Store, time: nat, ttl: nat, size: nat)
    requires C.AllIn(claimed, m)
    ensures C.Kept(claimed, m, time, ttl, size) < |claimed|
            <==> size < |claimed| || exists p :: p in claimed && C.TooOld(m[p], time, ttl)
  {
    hide C.FreshCount, C.TooOld;
    var n := C.FreshCount(claimed, m, time, ttl);
    if n < |claimed| { assert claimed[n] in claimed; }
  }

  /**
    Inserting a file loses exactly the claimed files, those that are kept or in use, that the last
    put-back cuts off: all behind the first that is too old by then or does not fit. Nothing is
    lost unless a discarded file is in use; then something is if and only if the claimed files are
    more than the cache can hold or one of them is too old. The others are accounted for.
  */
  lemma LostIff(all: seq<string>, before: Store, n: nat, kept: Contents, dropped: Dropped, inUse: set<string>,
                now: nat, at: nat -> nat, ttl: nat, size: nat, tries: string -> Attempt)
    requires Discarding(all, before, n, kept, dropped) && Rising(at, now)
    ensures Sound(kept)
    ensures var after, closed := PutBack(kept, dropped, inUse, at, ttl, size), ClosedOf(dropped, inUse, tries);
            var claimed, m := Claimed(kept, dropped, inUse), ClaimedStore(kept.store, dropped, inUse, at);
            var back, time := Back(dropped, inUse), LastTime(dropped, inUse, at);
            && C.AllIn(claimed, m)
            && (forall p :: Lost(before, closed, after.store, p)
                            <==> back != [] && p in claimed[C.Kept(claimed, m, time, ttl, size)..])
            && ((exists p :: Lost(before, closed, after.store, p))
                <==> back != [] && (size < |claimed| || exists p :: p in claimed && C.TooOld(m[p], time, ttl)))
            && Accounted(before, after.store, closed, tries)
  {
    hide Discarding, PutBack, ClosedOf, Back, Unique, Closed, ClaimedStore, LastTime, C.Kept, C.TooOld, Rising, Accounted, Claimed;
    DiscardingSound(all, before, n, kept, dropped);
    KeptUnique(all, before, n, kept, dropped);
    ClaimedAre(all, before, n, kept, dropped, inUse, tries);
    PutBackOrder(kept, dropped, inUse, at, ttl, size, now);
    var after, closed := PutBack(kept, dropped, inUse, at, ttl, size), ClosedOf(dropped, inUse, tries);
    var claimed, m := Claimed(kept, dropped, inUse), ClaimedStore(kept.store, dropped, inUse, at);
    var back, time := Back(dropped, inUse), LastTime(dropped, inUse, at);
    var k := C.Kept(claimed, m, time, ttl, size);
    forall p
      ensures Lost(before, closed, after.store, p) <==> back != [] && p in claimed[k..]
    {
      TakenOrNot(claimed, if back == [] then |claimed| else k, p);
    }
    CutIff(claimed, m, time, ttl, size);
    if k < |claimed| { assert claimed[k..][0] in claimed[k..]; }
    PutBackAccounts(all, before, n, kept, dropped, inUse, tries, at, ttl, size, after);
  }

  lemma PutBackAccounts(all: seq<string>, before: Store, n: nat, kept: Contents, dropped: Dropped, inUse: set<string>,
                        tries: string -> Attempt, at: nat -> nat, ttl: nat, size: nat, after: Contents)
    requires Discarding(all, before, n, kept, dropped) && IsPutBack(kept, dropped, inUse, at, ttl, size, after)
    requires forall p :: p in Claimed(kept, dropped, inUse) <==> p in before && p !in ClosedOf(dropped, inUse, tries)
    ensures Accounted(before, after.store, ClosedOf(dropped, inUse, tries), tries)
  {
    hide Discarding, ClosedOf, Back, Closed, ClaimedStore, LastTime, Staying, Claimed;
    var closed := ClosedOf(dropped, inUse, tries);
    var claimed := Claimed(kept, dropped, inUse);
    DiscardingSound(all, before, n, kept, dropped);
    forall p | p in before && !Lost(before, closed, after.store, p)
      ensures if p in closed then p !in after.store && closed[p] == Closed(before[p].value, tries(p))
              else after.store[p].value == before[p].value
    {
      assert p in after.order ==> p in claimed;
      DropValues(all, before, n, kept, dropped, p);
      if p in closed { ClosedValue(dropped, inUse, tries, p, before[p].value); }
      else { ClaimedValue(kept.store, dropped, inUse, at, p, before[p].value); }
    }
  }

  // ----- the remote storage -----

  /** Every cached handle knows its remote copy. */
  ghost predicate Agrees(store: Store, storage: Storage) {
    forall p :: p in store ==> RemoteCopy(storage, p) == store[p].value.remote
  }

  /** Closing a dirty file is the only thing that changes a remote copy. */
  lemma {:induction false} StoredValue(storage: Storage, dropped: Dropped, inUse: set<string>, tries: string -> Attempt, p: string, h: Handle)
    requires forall i :: 0 <= i < |dropped| && dropped[i].0 == p ==> dropped[i].1 == h
    ensures RemoteCopy(StoredAfter(storage, dropped, inUse, tries), p)
            == if p in ClosedOf(dropped, inUse, tries) && Dirty(h) then Closed(h, tries(p)).remote else RemoteCopy(storage, p)
  {
    hide Closed, Dirty;
    if dropped != [] {
      var front := dropped[..|dropped| - 1];
      assert forall i :: 0 <= i < |front| && front[i].0 == p ==> dropped[i].1 == h;
      StoredValue(storage, front, inUse, tries, p, h);
    }
  }

  /**
    After an insert the remote copy of a closed file is the one its handle ends with, and every
    other remote copy, of a lost file too, is what it was; the handles still know their copies.
  */
  lemma InsertStores(all: seq<string>, before: Store, n: nat, kept: Contents, dropped: Dropped, inUse: set<string>,
                     now: nat, at: nat -> nat, ttl: nat, size: nat, tries: string -> Attempt, storage: Storage)
    requires Discarding(all, before, n, kept, dropped) && Rising(at, now) && Agrees(before, storage)
    ensures Sound(kept)
    ensures var after, closed := PutBack(kept, dropped, inUse, at, ttl, size), ClosedOf(dropped, inUse, tries);
            var stored := StoredAfter(storage, dropped, inUse, tries);
            && (forall p :: RemoteCopy(stored, p) == if p in closed then closed[p].remote else RemoteCopy(storage, p))
            && Agrees(after.store, stored)
  {
    hide Discarding, PutBack, ClosedOf, Back, ClaimedStore, LastTime, C.Kept, C.TooOld, Rising, StoredAfter, RemoteCopy, Claimed;
    DiscardingSound(all, before, n, kept, dropped);
    LostIff(all, before, n, kept, dropped, inUse, now, at, ttl, size, tries);
    var after, closed := PutBack(kept, dropped, inUse, at, ttl, size), ClosedOf(dropped, inUse, tries);
    var stored := StoredAfter(storage, dropped, inUse, tries);
    forall p
      ensures RemoteCopy(stored, p) == if p in closed then closed[p].remote else RemoteCopy(storage, p)
    {
      DropValues(all, before, n, kept, dropped, p);
      KeptOrDropped(all, before, n, kept, dropped, p);
      ClosedMembers(dropped, inUse, tries, p);
      if p in before { StoredValue(storage, dropped, inUse, tries, p, before[p].value); }
      else { StoredNothing(storage, dropped, inUse, tries, p); }
    }
    AfterWasBefore(all, before, n, kept, dropped, inUse, now, at, ttl, size);
  }

  lemma StoredNothing(storage: Storage, dropped: Dropped, inUse: set<string>, tries: string -> Attempt, p: string)
    requires forall i :: 0 <= i < |dropped| ==> dropped[i].0 != p
    ensures p !in ClosedOf(dropped, inUse, tries)
    ensures RemoteCopy(StoredAfter(storage, dropped, inUse, tries), p) == RemoteCopy(storage, p)
  {
    hide ClosedOf, StoredAfter, RemoteCopy;
    ClosedMembers(dropped, inUse, tries, p);
    StoredValue(storage, dropped, inUse, tries, p, Handle([], None, 0, true, 0, Read, false));
  }

  lemma AfterWasBefore(all: seq<string>, before: Store, n: nat, kept: Contents, dropped: Dropped, inUse: set<string>,
                       now: nat, at: nat -> nat, ttl: nat, size: nat)
    requires Discarding(all, before, n, kept, dropped) && Rising(at, now)
    ensures Sound(kept) && forall p :: p in PutBack(kept, dropped, inUse, at, ttl, size).store ==> p in before
  {
    hide Discarding, PutBack, Back, ClaimedStore, LastTime, Staying, Rising, ClosedOf, Claimed;
    DiscardingSound(all, before, n, kept, dropped);
    KeptUnique(all, before, n, kept, dropped);
    PutBackOrder(kept, dropped, inUse, at, ttl, size, now);
    ClaimedAre(all, before, n, kept, dropped, inUse, _ => Busy);
    var after, claimed := PutBack(kept, dropped, inUse, at, ttl, size), Claimed(kept, dropped, inUse);
    assert forall p :: p in after.order ==> p in claimed;
  }

  /**
    Reopening a lost file: it counts as synced, so that nothing will upload it, and it is what its
    remote copy holds if and only if the lost handle's two copies were the same.
  */
  lemma ReopenLost(all: seq<string>, before: Store, n: nat, kept: Contents, dropped: Dropped, inUse: set<string>,
                   now: nat, at: nat -> nat, ttl: nat, size: nat, tries: string -> Attempt, storage: Storage,
                   p: string, create: bool, write: bool, ignoreWrite: bool, later: nat, attempt: Attempt)
    requires Discarding(all, before, n, kept, dropped) && Rising(at, now) && Agrees(before, storage) && Sound(kept)
    requires Lost(before, ClosedOf(dropped, inUse, tries), PutBack(kept, dropped, inUse, at, ttl, size).store, p)
    ensures var h, stored := before[p].value, StoredAfter(storage, dropped, inUse, tries);
            var opening := Open(Some(h.local), RemoteCopy(stored, p), create, write, ignoreWrite, later);
            && opening.File? && opening.h.local == h.local && opening.h.remote == h.remote && opening.h.synced
            && Closed(opening.h, attempt) == opening.h && Attempted(opening.h, attempt) == opening.h
            && (Mirrored(opening.h) <==> RemoteContent(h.remote) == h.local)
  {
    hide Discarding, PutBack, ClosedOf, StoredAfter, Rising, RemoteCopy;
    InsertStores(all, before, n, kept, dropped, inUse, now, at, ttl, size, tries, storage);
  }

  /**
    Inserting a file just opened where a handle is cached, as two callers that both missed do: the
    replaced handle is neither cached nor closed, and its bytes are in the remote copy if and only
    if they were before.
  */
  lemma ReplacedIff(c: Contents, path: string, h: Handle, now: nat, at: nat -> nat, ttl: nat, size: nat, dropped: Dropped,
                    inUse: set<string>, tries: string -> Attempt, storage: Storage)
    requires Discards(c, path, h, now, ttl, size, dropped) && Rising(at, now) && Agrees(c.store, storage)
    requires path in c.store && h.synced && h.remote == RemoteCopy(storage, path)
    ensures var after := PutBack(Inserted(c, path, h, now, ttl, size), dropped, inUse, at, ttl, size);
            var closed, stored := ClosedOf(dropped, inUse, tries), StoredAfter(storage, dropped, inUse, tries);
            var replaced := c.store[path].value;
            && (path in after.store ==> after.store[path].value == h)
            && (path in closed ==> closed[path] == h)
            && (RemoteContent(RemoteCopy(stored, path)) == replaced.local <==> RemoteContent(replaced.remote) == replaced.local)
  {
    hide Discards, Discarding, PutBack, ClosedOf, StoredAfter, Rising, RemoteCopy, Inserted, C.MoveToFront, C.Kept;
    var all, before := C.MoveToFront(c.order, path), c.store[path := C.Slot(h, now)];
    DiscardsSound(c, path, h, now, ttl, size, dropped);
    var kept := Inserted(c, path, h, now, ttl, size);
    InsertDiscards(c, path, h, now, ttl, size, dropped);
    var n := C.Kept(all, before, now, ttl, size);
    InsertStores(all, before, n, kept, dropped, inUse, now, at, ttl, size, tries, storage);
    LostIff(all, before, n, kept, dropped, inUse, now, at, ttl, size, tries);
  }

  lemma DiscardsSound(c: Contents, path: string, h: Handle, now: nat, ttl: nat, size: nat, dropped: Dropped)
    requires Discards(c, path, h, now, ttl, size, dropped)
    ensures Sound(c) && C.AllIn(C.MoveToFront(c.order, path), c.store[path := C.Slot(h, now)])
  {
    hide C.MoveToFront, C.Kept, C.Returns, C.Falling;
  }

  // ----- a full cache -----

  /** No file is too old at a time. */
  ghost predicate AllFresh(store: Store, time: nat, ttl: nat) {
    forall p :: p in store ==> !C.TooOld(store[p], time, ttl)
  }

  /** In a full cache in which nothing is too old, one file makes room for another. */
  lemma FullCacheDrops(c: Contents, path: string, h: Handle, now: nat, time: nat, ttl: nat, size: nat, dropped: Dropped)
    requires C.ByRecency(c.order, c.store) && 0 < size == |c.order| && path !in c.order && now <= time
    requires AllFresh(c.store[path := C.Slot(h, now)], time, ttl) && Discards(c, path, h, now, ttl, size, dropped)
    ensures var kept, all, before := Inserted(c, path, h, now, ttl, size), C.MoveToFront(c.order, path), c.store[path := C.Slot(h, now)];
            && C.AllIn(all, before) && C.Kept(all, before, now, ttl, size) == size
            && kept.order == [path] + c.order[..size - 1]
            && dropped == [(c.order[size - 1], c.store[c.order[size - 1]].value)]
  {
    hide C.Without, C.FreshCount, C.Kept, C.Falling, C.Returns, AllFresh;
    WithoutAbsent(c.order, path);
    var all, before, victim := [path] + c.order, c.store[path := C.Slot(h, now)], c.order[size - 1];
    assert C.MoveToFront(c.order, path) == all;
    FullKept(all, before, now, time, ttl, size);
    assert all[size..] == [victim] && all[..size] == [path] + c.order[..size - 1];
    SingleDrop(dropped, victim, before, all[size..]);
  }

  lemma FullKept(all: seq<string>, m: Store, now: nat, time: nat, ttl: nat, size: nat)
    requires C.AllIn(all, m) && |all| == size + 1 && now <= time && AllFresh(m, time, ttl)
    ensures C.Kept(all, m, now, ttl, size) == size
  {
    hide C.FreshCount;
    assert forall i :: 0 <= i < |all| ==> all[i] in all && !C.TooOld(m[all[i]], now, ttl);
  }

  lemma SingleDrop(dropped: Dropped, victim: string, before: Store, keys: seq<string>)
    requires keys == [victim] && C.AllIn(keys, before) && C.Returns(dropped, keys, before)
    ensures dropped == [(victim, before[victim].value)]
  {
    assert dropped[0] in dropped;
    C.PairsMember(keys, before, dropped[0]);
  }

  /**
    A full cache in which nothing is too old loses a file if and only if the one that has to make
    room is in use: the file that was used least recently but for that one or, in a cache of one,
    the file just opened. Its remote copy is what it was.
  */
  lemma FullCacheLosesIff(c: Contents, path: string, h: Handle, now: nat, ttl: nat, size: nat, dropped: Dropped,
                          inUse: set<string>, at: nat -> nat, tries: string -> Attempt, storage: Storage)
    requires C.ByRecency(c.order, c.store) && 0 < size == |c.order| && path !in c.order && Rising(at, now)
    requires AllFresh(c.store[path := C.Slot(h, now)], at(0), ttl) && Discards(c, path, h, now, ttl, size, dropped)
    ensures Sound(c)
    ensures var before := c.store[path := C.Slot(h, now)];
            var after := PutBack(Inserted(c, path, h, now, ttl, size), dropped, inUse, at, ttl, size);
            var closed := ClosedOf(dropped, inUse, tries);
            var lost := if size == 1 then path else c.order[size - 2];
            && ((exists p :: Lost(before, closed, after.store, p)) <==> c.order[size - 1] in inUse)
            && (c.order[size - 1] in inUse ==>
                  && (forall p :: Lost(before, closed, after.store, p) <==> p == lost)
                  && RemoteCopy(StoredAfter(storage, dropped, inUse, tries), lost) == RemoteCopy(storage, lost))
  {
    hide C.MoveToFront, C.Kept, C.Falling, Inserted, PutBack, ClosedOf, Discarding, AllFresh, Accounted, Back, ClaimedStore,
         LastTime, Discards, Rising, C.TooOld, RemoteCopy, StoredAfter;
    var all, before, victim := C.MoveToFront(c.order, path), c.store[path := C.Slot(h, now)], c.order[size - 1];
    DiscardsSound(c, path, h, now, ttl, size, dropped);
    var kept := Inserted(c, path, h, now, ttl, size);
    FirstReading(at, now);
    FullCacheDrops(c, path, h, now, at(0), ttl, size, dropped);
    InsertDiscards(c, path, h, now, ttl, size, dropped);
    LostIff(all, before, size, kept, dropped, inUse, now, at, ttl, size, tries);
    OneBack(kept, dropped, victim, c.store[victim].value, inUse, at);
    if victim in inUse {
      OneLost(c.order, path, size, Claimed(kept, dropped, inUse));
      DiscardingSound(all, before, size, kept, dropped);
      BackFresh(before, kept.store, victim, c.store[victim].value, at(0), ttl);
      FullKept(Claimed(kept, dropped, inUse), ClaimedStore(kept.store, dropped, inUse, at), at(0), at(0), ttl, size);
      OneStored(storage, dropped, victim, inUse, tries);
    }
  }

  lemma FirstReading(at: nat -> nat, now: nat)
    requires Rising(at, now)
    ensures now < at(0)
  {
  }

  lemma BackFresh(before: Store, store: Store, victim: string, h: Handle, time: nat, ttl: nat)
    requires AllFresh(before, time, ttl) && forall p :: p in store ==> p in before && store[p] == before[p]
    ensures AllFresh(store[victim := C.Slot(h, time)], time, ttl)
  {
  }

  /** Of the files that are kept or put back, the one for which there is no room. */
  lemma OneLost(order: seq<string>, path: string, size: nat, claimed: seq<string>)
    requires 0 < size == |order| && claimed == [order[size - 1]] + ([path] + order[..size - 1])
    ensures |claimed| == size + 1 && claimed[size..] == [if size == 1 then path else order[size - 2]]
  {
  }

  lemma OneBack(kept: Contents, dropped: Dropped, victim: string, h: Handle, inUse: set<string>, at: nat -> nat)
    requires dropped == [(victim, h)]
    ensures Back(dropped, inUse) == if victim in inUse then [victim] else []
    ensures victim in inUse ==> LastTime(dropped, inUse, at) == at(0)
                                && ClaimedStore(kept.store, dropped, inUse, at) == kept.store[victim := C.Slot(h, at(0))]
  {
    assert dropped[..0] == [];
  }

  lemma OneStored(storage: Storage, dropped: Dropped, victim: string, inUse: set<string>, tries: string -> Attempt)
    requires |dropped| == 1 && dropped[0].0 == victim && victim in inUse
    ensures StoredAfter(storage, dropped, inUse, tries) == storage
  {
    assert dropped[..0] == [];
  }
}
