/**
  The transaction log of an entry: a ring of fixed-size slots in a file, with the write and
  read positions kept in the file's header. It behaves as a queue that lets go of its oldest
  transaction instead of filling its last slot.
*/
module TransactionLog {
  import opened Common
  import opened Replication

  const HEADER_SIZE: nat := 16
  const ENTRY_SIZE: nat := 9

  /** Pushing onto a queue kept below `capacity`: what is dropped, and what is left. */
  function Pushed(q: seq<Txn>, t: Txn, capacity: nat): (Option<Txn>, seq<Txn>) {
    var all := q + [t];
    if |all| < capacity then (None, all) else (Some(all[0]), all[1..])
  }

  // ----- rings -----

  /** The transactions of a ring from slot `r` up to, not including, slot `w`. */
  function Ring(s: seq<Txn>, r: nat, w: nat): seq<Txn>
    requires r < |s| && w < |s|
  {
    if r <= w then s[r..w] else s[r..] + s[..w]
  }

  /** Positions at or behind the end go back to the first slot. */
  function SlotAfter(slot: nat, capacity: nat): (r: nat)
    ensures 0 < capacity ==> r < capacity
  {
    if slot + 1 >= capacity then 0 else slot + 1
  }

  lemma RingLength(s: seq<Txn>, r: nat, w: nat)
    requires r < |s| && w < |s|
    ensures |Ring(s, r, w)| == if r <= w then w - r else |s| - r + w
  {
  }

  lemma RingAt(s: seq<Txn>, r: nat, w: nat, i: nat)
    requires r < |s| && w < |s| && i < |Ring(s, r, w)|
    ensures Ring(s, r, w)[i] == s[if r + i < |s| then r + i else r + i - |s|]
  {
  }

  lemma RingPop(s: seq<Txn>, r: nat, w: nat)
    requires r < |s| && w < |s| && r != w
    ensures Ring(s, r, w) != [] && Ring(s, r, w)[0] == s[r]
    ensures Ring(s, SlotAfter(r, |s|), w) == Ring(s, r, w)[1..]
  {
  }

  lemma RingPushRoom(s: seq<Txn>, r: nat, w: nat, t: Txn)
    requires r < |s| && w < |s| && SlotAfter(w, |s|) != r
    ensures Ring(s[w := t], r, SlotAfter(w, |s|)) == Ring(s, r, w) + [t]
    ensures |Ring(s, r, w)| + 1 < |s|
  {
  }

  /** Writing the last free slot: the oldest transaction is at the read position, the rest follows it. */
  lemma RingPushFull(s: seq<Txn>, r: nat, w: nat, t: Txn)
    requires r < |s| && w < |s| && SlotAfter(w, |s|) == r
    ensures var all := Ring(s, r, w) + [t];
            && |all| == |s| && all[0] == s[w := t][r]
            && Ring(s[w := t], SlotAfter(r, |s|), r) == all[1..]
  {
    var s' := s[w := t];
    var all := Ring(s, r, w) + [t];
    assert all == s'[r..] + s'[..r];
    if |s| > 1 {
      assert Ring(s', SlotAfter(r, |s|), r) == (s'[r..] + s'[..r])[1..];
    }
  }

  // ----- opening a file -----

  /** The header of an opened log, or the refusal of a file that is damaged. */
  datatype Header = Header(capacityInBytes: nat, writePos: nat, readPos: nat) | Refused

  function BytesFor(capacity: nat): nat {
    capacity * ENTRY_SIZE + HEADER_SIZE
  }

  /** A position at the start of a slot. */
  predicate AtSlot(pos: nat, capacityInBytes: nat) {
    HEADER_SIZE <= pos < capacityInBytes && (pos - HEADER_SIZE) % ENTRY_SIZE == 0
  }

  predicate WholeSlots(capacityInBytes: nat) {
    HEADER_SIZE <= capacityInBytes && (capacityInBytes - HEADER_SIZE) % ENTRY_SIZE == 0
  }

  /**
    The branch of `try_load_or_create` for a file of `fileSize` bytes with these positions in its
    header: the integrity check, and the change of the capacity of a log that is empty.
  */
  function OpenExisting(capacity: nat, fileSize: nat, writePos: nat, readPos: nat): Header {
    if !WholeSlots(fileSize) || !AtSlot(writePos, fileSize) || !AtSlot(readPos, fileSize) then Refused
    else Header(if readPos == writePos then BytesFor(capacity) else fileSize, writePos, readPos)
  }

  /** Both positions of an opened log are at slots that it has. */
  predicate WellPlaced(h: Header)
    requires h.Header?
  {
    WholeSlots(h.capacityInBytes) && AtSlot(h.writePos, h.capacityInBytes) && AtSlot(h.readPos, h.capacityInBytes)
  }

  /**
    A file is accepted exactly when its size and positions fit, and then the opened log is sound
    unless it was empty and its new capacity ends before the position it had reached.
  */
  lemma OpenedSoundIff(capacity: nat, fileSize: nat, writePos: nat, readPos: nat)
    ensures var h := OpenExisting(capacity, fileSize, writePos, readPos);
            && (h.Header? <==> WholeSlots(fileSize) && AtSlot(writePos, fileSize) && AtSlot(readPos, fileSize))
            && (h.Header? ==> (WellPlaced(h) <==> readPos != writePos || writePos < BytesFor(capacity)))
  {
  }

  /** One slot fewer is enough: an emptied log that stands at its last slot. */
  lemma ShrinkMisplaces(slots: nat)
    requires 1 < slots
    ensures var last := HEADER_SIZE + ENTRY_SIZE * (slots - 1);
            var h := OpenExisting(slots - 1, BytesFor(slots), last, last);
            h.Header? && !WellPlaced(h)
  {
    SlotAligned(slots - 1);
    SlotAligned(slots);
  }

  lemma SlotAligned(i: nat)
    ensures (ENTRY_SIZE * i) % ENTRY_SIZE == 0 && (ENTRY_SIZE * i) / ENTRY_SIZE == i
  {
  }

  // ----- any pair of positions -----

  /** The slots in the file, the number of slots the log uses, and the slots at its two positions. */
  datatype Raw = Raw(file: seq<Txn>, capacity: nat, w: nat, r: nat)

  predicate Sized(log: Raw) {
    0 < log.capacity <= |log.file|
  }

  /** A file cut or filled with zeros to a number of slots. */
  function Resized(file: seq<Txn>, capacity: nat): (r: seq<Txn>)
    ensures |r| == capacity
  {
    if capacity <= |file| then file[..capacity] else file + seq(capacity - |file|, _ => WriteRecord(0))
  }

  /** Writing behind the end of the file fills the gap with zeros. */
  function WrittenAt(file: seq<Txn>, slot: nat, t: Txn): seq<Txn> {
    if slot < |file| then file[slot := t] else Resized(file, slot) + [t]
  }

  function RawPop(log: Raw): Raw {
    log.(r := SlotAfter(log.r, log.capacity))
  }

  function RawPush(log: Raw, t: Txn): (r: (Raw, Option<Txn>))
    requires Sized(log)
    ensures Sized(r.0) && r.0.capacity == log.capacity
  {
    var next := log.(file := WrittenAt(log.file, log.w, t), w := SlotAfter(log.w, log.capacity));
    if next.w == next.r then (RawPop(next), Some(next.file[next.r])) else (next, None)
  }

  function RawPushAll(log: Raw, ts: seq<Txn>): (r: (Raw, seq<Option<Txn>>))
    requires Sized(log)
    ensures Sized(r.0) && r.0.capacity == log.capacity && |r.1| == |ts|
  {
    if ts == [] then (log, [])
    else
      var (before, ds) := RawPushAll(log, ts[..|ts| - 1]);
      var (last, d) := RawPush(before, ts[|ts| - 1]);
      (last, ds + [d])
  }

  /** The length is computed from byte positions in 64-bit arithmetic that wraps around. */
  function RawLen(log: Raw): nat {
    var writePos, readPos := HEADER_SIZE + ENTRY_SIZE * log.w, HEADER_SIZE + ENTRY_SIZE * log.r;
    (if readPos <= writePos then writePos - readPos
     else (HEADER_SIZE + ENTRY_SIZE * log.capacity - HEADER_SIZE - readPos + writePos) % U64_SIZE) / ENTRY_SIZE
  }

  /** The sizes that are accepted are those of a whole number of slots, and the positions those of these slots. */
  lemma AtSlotIff(pos: nat, slots: nat)
    ensures AtSlot(pos, BytesFor(slots)) <==> exists i: nat :: i < slots && pos == SlotPosition(i)
  {
    if AtSlot(pos, BytesFor(slots)) {
      var i := (pos - HEADER_SIZE) / ENTRY_SIZE;
      assert pos == SlotPosition(i) && i < slots;
    }
    forall i: nat | i < slots && pos == SlotPosition(i)
      ensures AtSlot(pos, BytesFor(slots))
    {
      SlotAligned(i);
    }
  }

  function SlotPosition(i: nat): nat {
    16 + 9 * i
  }

  lemma WholeSlotsIff(size: nat)
    ensures WholeSlots(size) <==> exists n: nat :: size == SlotPosition(n)
  {
    if WholeSlots(size) {
      assert size == SlotPosition((size - HEADER_SIZE) / ENTRY_SIZE);
    }
    forall n: nat | size == SlotPosition(n)
      ensures WholeSlots(size)
    {
      SlotAligned(n);
    }
  }

  class TransactionLog {
    /** The slots of the file after its header. */
    var slots: array<Txn>
    var capacityInBytes: nat
    var writePos: nat
    var readPos: nat
    /** The positions stored in the file's header. */
    var savedWrite: nat
    var savedRead: nat
    /** The slots at the two positions. */
    ghost var w: nat
    ghost var r: nat

    ghost predicate Valid()
      reads this
    {
      && 0 < slots.Length
      && capacityInBytes == HEADER_SIZE + ENTRY_SIZE * slots.Length
      && w < slots.Length && r < slots.Length
      && writePos == HEADER_SIZE + ENTRY_SIZE * w
      && readPos == HEADER_SIZE + ENTRY_SIZE * r
    }

    /** The file's header agrees with the positions in memory. */
    ghost predicate Saved()
      reads this
    {
      savedWrite == writePos && savedRead == readPos
    }

    ghost function Contents(): seq<Txn>
      requires Valid()
      reads this, slots
    {
      Ring(slots[..], r, w)
    }

    ghost function View(): Raw
      reads this, slots
    {
      Raw(slots[..], slots.Length, w, r)
    }

    /** A new log with room for `capacity` slots. */
    constructor Create(capacity: nat)
      requires 0 < capacity
      ensures Valid() && Saved() && Contents() == [] && slots.Length == capacity && fresh(slots)
    {
      slots := new Txn[capacity](_ => WriteRecord(0));
      capacityInBytes := capacity * ENTRY_SIZE + HEADER_SIZE;
      writePos, readPos, savedWrite, savedRead := HEADER_SIZE, HEADER_SIZE, HEADER_SIZE, HEADER_SIZE;
      w, r := 0, 0;
    }

    /**
      Opening the file of a log whose header was saved gives the same transactions; the capacity
      changes only if there are none, which is sound exactly if the position is within the new one.
    */
    constructor Load(file: TransactionLog, capacity: nat)
      requires file.Valid() && file.Saved() && 0 < capacity
      ensures Valid() <==> file.r != file.w || file.w < capacity
      ensures Saved() && (Valid() ==> Contents() == file.Contents())
      ensures file.r != file.w ==> View() == file.View()
      ensures file.r == file.w ==> View() == Raw(Resized(file.slots[..], capacity), capacity, file.w, file.w)
      ensures OpenExisting(capacity, file.capacityInBytes, file.savedWrite, file.savedRead) == Header(capacityInBytes, writePos, readPos)
    {
      SlotAligned(file.slots.Length);
      SlotAligned(file.w);
      SlotAligned(file.r);
      var header := OpenExisting(capacity, file.capacityInBytes, file.savedWrite, file.savedRead);
      capacityInBytes, writePos, readPos := header.capacityInBytes, header.writePos, header.readPos;
      savedWrite, savedRead := file.savedWrite, file.savedRead;
      w, r := file.w, file.r;
      if header.readPos == header.writePos {
        var file' := Resized(file.slots[..], capacity);
        slots := new Txn[capacity](i requires 0 <= i < capacity => file'[i]);
      } else {
        slots := file.slots;
      }
    }

    /** Moves the read position one slot on. */
    method Pop()
      requires Valid() && Saved()
      modifies this
      ensures Valid() && Saved() && slots == old(slots) && capacityInBytes == old(capacityInBytes)
      ensures writePos == old(writePos) && w == old(w) && r == SlotAfter(old(r), slots.Length)
      ensures View() == RawPop(old(View()))
    {
      readPos := readPos + ENTRY_SIZE;
      r := r + 1;
      if readPos >= capacityInBytes {
        readPos := HEADER_SIZE;
        r := 0;
      }
      savedRead := readPos;
    }

    /** Adds a transaction; when that would fill the last slot, the oldest one is dropped and returned. */
    method PushBack(t: Txn) returns (dropped: Option<Txn>)
      requires Valid() && Saved()
      modifies this, slots
      ensures Valid() && Saved() && slots == old(slots) && slots.Length == old(slots.Length)
      ensures (dropped, Contents()) == Pushed(old(Contents()), t, slots.Length)
      ensures (View(), dropped) == RawPush(old(View()), t)
    {
      hide Ring;
      ghost var s, w0 := slots[..], w;
      WriteSlot(t);
      if writePos == readPos {
        RingPushFull(s, r, w0, t);
        dropped := Some(slots[SlotOf(readPos)]);
        Pop();
      } else {
        RingPushRoom(s, r, w0, t);
        dropped := None;
      }
    }

    /** Writes at the write position and moves it one slot on. */
    method WriteSlot(t: Txn)
      requires Valid() && Saved()
      modifies this`writePos, this`savedWrite, this`w, slots
      ensures Valid() && Saved() && slots[..] == old(slots[..])[old(w) := t] && w == SlotAfter(old(w), slots.Length)
    {
      slots[SlotOf(writePos)] := t;
      writePos := writePos + ENTRY_SIZE;
      w := w + 1;
      if writePos >= capacityInBytes {
        writePos := HEADER_SIZE;
        w := 0;
      }
      savedWrite := writePos;
    }

    /** The slot that a position in the file stands for. */
    function SlotOf(pos: nat): (i: nat)
      requires Valid() && exists k: nat :: k < slots.Length && pos == HEADER_SIZE + ENTRY_SIZE * k
      reads this
      ensures i < slots.Length && pos == HEADER_SIZE + ENTRY_SIZE * i
    {
      (pos - HEADER_SIZE) / ENTRY_SIZE
    }

    /** The first `n` transactions, or all of them when there are fewer. */
    method Front(n: nat) returns (txns: seq<Txn>)
      requires Valid()
      ensures txns == Contents()[..Min(n, |Contents()|)]
    {
      hide Ring;
      txns := [];
      RingLength(slots[..], r, w);
      if readPos == writePos { return; }
      var pos := readPos;
      ghost var k := r;
      for i := 0 to n
        invariant k < slots.Length && pos == HEADER_SIZE + ENTRY_SIZE * k
        invariant i < |Contents()| && txns == Contents()[..i]
        invariant k == if r + i < slots.Length then r + i else r + i - slots.Length
      {
        RingAt(slots[..], r, w, i);
        txns := txns + [slots[SlotOf(pos)]];
        pos := pos + ENTRY_SIZE;
        k := k + 1;
        if pos >= capacityInBytes {
          pos := HEADER_SIZE;
          k := 0;
        }
        if pos == writePos { return; }
      }
    }

    /** Removes up to `n` transactions from the front. */
    method PopFront(n: nat) returns (popped: nat)
      requires Valid() && Saved()
      modifies this
      ensures Valid() && Saved() && slots == old(slots)
      ensures popped == Min(n, |old(Contents())|) && Contents() == old(Contents())[popped..]
    {
      hide Ring;
      popped := 0;
      for i := 0 to n
        invariant Valid() && Saved() && slots == old(slots) && popped == i
        invariant popped <= |old(Contents())| && Contents() == old(Contents())[popped..]
      {
        RingLength(slots[..], r, w);
        if readPos == writePos { return; }
        RingPop(slots[..], r, w);
        Pop();
        popped := popped + 1;
      }
    }

    /** The length computed from the positions is the number of transactions. */
    function Len(): (n: nat)
      requires Valid()
      reads this, slots
      ensures n == |Contents()|
      ensures capacityInBytes < U64_SIZE ==> n == RawLen(View())
    {
      (if readPos <= writePos then writePos - readPos else capacityInBytes - HEADER_SIZE - readPos + writePos) / ENTRY_SIZE
    }
  }

  /** A run of pushes onto an empty log of `capacity` slots. */
  function PushAll(q: seq<Txn>, ts: seq<Txn>, capacity: nat): seq<Txn> {
    if ts == [] then q else Pushed(PushAll(q, ts[..|ts| - 1], capacity), ts[|ts| - 1], capacity).1
  }

  /** However much is pushed, the log keeps exactly the newest transactions, one fewer than it has slots. */
  lemma {:induction false} KeepsNewest(ts: seq<Txn>, capacity: nat)
    requires 0 < capacity
    ensures var n := Min(|ts|, capacity - 1);
            PushAll([], ts, capacity) == ts[|ts| - n..]
  {
    if ts != [] {
      var front := ts[..|ts| - 1];
      KeepsNewest(front, capacity);
      assert ts == front + [ts[|ts| - 1]];
    }
  }

  /** What a run of pushes returns. */
  function Returned(q: seq<Txn>, ts: seq<Txn>, capacity: nat): seq<Txn> {
    if ts == [] then []
    else
      var d := Pushed(PushAll(q, ts[..|ts| - 1], capacity), ts[|ts| - 1], capacity).0;
      Returned(q, ts[..|ts| - 1], capacity) + (if d.Some? then [d.value] else [])
  }

  /** No transaction is dropped silently: those returned, in order, and those kept are all there were. */
  lemma {:induction false} NothingDropped(q: seq<Txn>, ts: seq<Txn>, capacity: nat)
    ensures Returned(q, ts, capacity) + PushAll(q, ts, capacity) == q + ts
  {
    if ts == [] {
      assert q + ts == q;
    } else {
      var front, last := ts[..|ts| - 1], ts[|ts| - 1];
      NothingDropped(q, front, capacity);
      var kept := PushAll(q, front, capacity);
      assert q + ts == (q + front) + [last];
      hide PushAll;
      PushReturns(Returned(q, front, capacity), kept, last, capacity);
    }
  }

  lemma PushReturns(returned: seq<Txn>, kept: seq<Txn>, t: Txn, capacity: nat)
    ensures var (d, q) := Pushed(kept, t, capacity);
            (returned + (if d.Some? then [d.value] else [])) + q == (returned + kept) + [t]
  {
  }

  // ----- an emptied log whose new capacity ends before its positions -----

  /** The newest `n` of a list. */
  function Newest(ts: seq<Txn>, n: nat): seq<Txn>
    requires n <= |ts|
  {
    ts[|ts| - n..]
  }

  /** The slots from the write position on, then those before it: the oldest first. */
  function Turned(log: Raw): seq<Txn>
    requires Sized(log) && log.w < log.capacity
  {
    log.file[log.w..log.capacity] + log.file[..log.w]
  }

  /** The first push goes behind the end of the log. */
  lemma FirstPush(log: Raw, t: Txn)
    requires Sized(log) && log.capacity <= log.r == log.w
    ensures var (next, d) := RawPush(log, t);
            && d == None && next.w == 0 && next.r == log.r
            && log.r < |next.file| && next.file[log.r] == t
            && Turned(next) == log.file[..log.capacity]
  {
  }

  /** Every later one overwrites the oldest slot, whatever it holds. */
  lemma LaterPush(log: Raw, t: Txn)
    requires Sized(log) && log.w < log.capacity <= log.r < |log.file|
    ensures var (next, d) := RawPush(log, t);
            && d == None && next.w == SlotAfter(log.w, log.capacity) && next.r == log.r
            && |next.file| == |log.file| && next.file[log.r] == log.file[log.r]
            && Turned(next) == Turned(log)[1..] + [t]
  {
    var next := RawPush(log, t).0;
    assert next.file == log.file[log.w := t];
    if log.w + 1 == log.capacity {
      assert Turned(next) == next.file[..log.capacity];
    }
  }

  lemma NewestNext(ts: seq<Txn>, n: nat, t: Txn)
    requires 0 < n <= |ts|
    ensures Newest(ts, n)[1..] + [t] == Newest(ts + [t], n)
  {
  }

  /**
    An emptied log that was opened with its position behind its new end never returns a
    transaction: the first push stays behind the end, and of the others only the newest, as many
    as there are slots, are not overwritten.
  */
  lemma {:induction false} MisplacedPushes(log: Raw, ts: seq<Txn>)
    requires Sized(log) && log.capacity <= log.r == log.w && ts != []
    ensures var (l, ds) := RawPushAll(log, ts);
            && (forall i :: 0 <= i < |ds| ==> ds[i] == None)
            && l.r == log.r < |l.file| && l.w < l.capacity && l.file[log.r] == ts[0]
            && Turned(l) == Newest(log.file[..log.capacity] + ts[1..], log.capacity)
            && (|ts| <= log.capacity ==> l.w == |ts| - 1)
  {
    hide RawPush, Turned, Newest;
    var front, t, old' := ts[..|ts| - 1], ts[|ts| - 1], log.file[..log.capacity];
    if |ts| == 1 {
      FirstPush(log, t);
      assert old' + ts[1..] == old';
      NewestAll(old');
    } else {
      MisplacedPushes(log, front);
      LaterPush(RawPushAll(log, front).0, t);
      NewestNext(old' + front[1..], log.capacity, t);
      assert old' + front[1..] + [t] == old' + ts[1..];
    }
  }

  lemma NewestAll(ts: seq<Txn>)
    ensures Newest(ts, |ts|) == ts
  {
  }

  /**
    Reading such a log starts behind its end; after that first transaction it holds the others if
    and only if no more were pushed than it has slots. The rest is gone without having been returned.
  */
  lemma MisplacedDeliversIff(log: Raw, ts: seq<Txn>)
    requires Sized(log) && log.capacity <= log.r == log.w && ts != []
    ensures var l := RawPop(RawPushAll(log, ts).0);
            && l.r == 0 && l.w < l.capacity
            && (Ring(l.file[..l.capacity], l.r, l.w) == ts[1..] <==> |ts| <= log.capacity)
  {
    hide RawPushAll;
    MisplacedPushes(log, ts);
    var l := RawPop(RawPushAll(log, ts).0);
    assert Ring(l.file[..l.capacity], 0, l.w) == l.file[..l.w];
    if |ts| <= log.capacity {
      var all := log.file[..log.capacity] + ts[1..];
      assert l.file[..l.w] == Turned(l)[l.capacity - l.w..];
      assert Newest(all, log.capacity)[log.capacity - l.w..] == ts[1..];
    }
  }

  /**
    Until it is read, the length of such a log is never the number of transactions that can be
    popped, one behind its end and those up to its write position; it is more than the log has
    slots if and only if it wrapped around.
  */
  lemma MisplacedLen(log: Raw)
    requires Sized(log) && log.w < log.capacity <= log.r && HEADER_SIZE + ENTRY_SIZE * (log.r + 1) <= U64_SIZE
    ensures var popped := RawPop(log);
            popped.r == 0 && RawLen(log) != 1 + |Ring(popped.file[..popped.capacity], popped.r, popped.w)|
    ensures log.r - log.capacity <= log.w ==> RawLen(log) == log.w - (log.r - log.capacity)
    ensures RawLen(log) > log.capacity <==> log.w < log.r - log.capacity
  {
    var m := log.capacity - log.r + log.w;
    assert RawLen(log) == ((ENTRY_SIZE * m) % U64_SIZE) / ENTRY_SIZE;
    if m < 0 {
      Wrapped(ENTRY_SIZE * -m);
    }
  }

  lemma Wrapped(n: int)
    requires 0 < n < U64_SIZE
    ensures -n % U64_SIZE == U64_SIZE - n
  {
  }
}
