/**
  The synchronisation worker of the file cache: every round uploads the files that are
  overdue, oldest first and at most sixteen of them; a forced round uploads all dirty files.
*/
module FileSync {
  import opened Common
  import opened Sorting
  import opened BackendFile

  const SYNC_BATCH_SIZE: nat := 16

  /** The cached handles by path. */
  type Files = map<string, Handle>

  /** An attempt to sync a file: its lock is taken, or the upload ends at some time. */
  datatype Attempt = Busy | Tried(upload: Upload, at: nat)

  /** A file that is to be synced, with its stamp when it was looked at. */
  datatype Due = Due(path: string, stamp: nat)

  /** What one round meets: the iteration order, the locked files, the clock, the outcomes. */
  datatype Round = Round(order: seq<string>, locked: set<string>, now: nat, tries: string -> Attempt)

  /** `order` lists every cached path once. */
  ghost predicate Lists(order: seq<string>, files: Files) {
    Unique(order) && forall p :: p in order <==> p in files
  }

  /** `Instant::elapsed` */
  function Elapsed(since: nat, now: nat): nat {
    if now < since then 0 else now - since
  }

  predicate Wanted(h: Handle, interval: Option<nat>, now: nat) {
    h.mode == ReadWrite && !h.synced && (interval.None? || interval.value <= Elapsed(h.lastSynced, now))
  }

  /** Writable, dirty, unlocked, and synced at least an interval before the clock reading of the round. */
  predicate OverdueAt(files: Files, round: Round, interval: nat, p: string) {
    && p in files && files[p].mode == ReadWrite && !files[p].synced && p !in round.locked
    && (interval == 0 || files[p].lastSynced + interval <= round.now)
  }

  /** A scheduled round takes what is overdue. Without an interval the round is forced: it waits for locks and takes every dirty file. */
  predicate Takes(files: Files, round: Round, interval: Option<nat>, p: string): (taken: bool)
    ensures interval.Some? ==> (taken <==> OverdueAt(files, round, interval.value, p))
    ensures interval.None? ==> (taken <==> p in files && files[p].mode == ReadWrite && !files[p].synced)
  {
    p in files && (interval.None? || p !in round.locked) && Wanted(files[p], interval, round.now)
  }

  function Collected(files: Files, round: Round, interval: Option<nat>, order: seq<string>): (due: seq<Due>) {
    if order == [] then []
    else
      var p := order[|order| - 1];
      var due := Collected(files, round, interval, order[..|order| - 1]);
      if Takes(files, round, interval, p) then due + [Due(p, files[p].lastSynced)] else due
  }

  predicate NoLater(a: Due, b: Due) {
    a.stamp <= b.stamp
  }

  /** The files a round syncs. */
  function Selected(files: Files, round: Round, interval: Option<nat>): seq<Due> {
    var due := Collected(files, round, interval, round.order);
    if interval.None? then due
    else
      var sorted := Sort(due, NoLater);
      if SYNC_BATCH_SIZE < |sorted| then sorted[..SYNC_BATCH_SIZE] else sorted
  }

  function PathOf(d: Due): string {
    d.path
  }

  function Paths(due: seq<Due>): set<string> {
    set i | 0 <= i < |due| :: due[i].path
  }

  function Attempted(h: Handle, attempt: Attempt): Handle {
    if attempt.Busy? then h else Synced(h, attempt.at, attempt.upload)
  }

  function AfterTrying(files: Files, tried: set<string>, tries: string -> Attempt): Files {
    map p | p in files :: if p in tried then Attempted(files[p], tries(p)) else files[p]
  }

  /** The cached files after a round. */
  function AfterRound(files: Files, round: Round, interval: Option<nat>): Files {
    AfterTrying(files, Paths(Selected(files, round, interval)), round.tries)
  }

  /** The cached files that are not invalidated. */
  function Remaining(files: Files, invalidated: seq<string>): Files {
    map p | p in files && p !in invalidated :: files[p]
  }

  /** The invalidated files after the attempt to upload them. */
  function Uploaded(files: Files, invalidated: seq<string>, tries: string -> Attempt): Files {
    map p | p in files && p in invalidated :: Attempted(files[p], tries(p))
  }

  // ----- the code -----

  class FileCache {
    var files: Files
    const readOnly: bool

    constructor (readOnly: bool)
      ensures files == map[] && this.readOnly == readOnly
    {
      files := map[];
      this.readOnly := readOnly;
    }

    /**
      `sync_rw_and_unused_files`: the invalidated files leave the cache after an attempt to upload
      them, and their local copies are removed; then the round is over the other files.
    */
    method SyncFiles(round: Round, interval: Option<nat>, invalidated: seq<string>) returns (gone: map<string, Handle>)
      requires Lists(round.order, Remaining(files, invalidated))
      modifies this
      ensures readOnly ==> files == old(files) && gone == map[]
      ensures !readOnly ==> files == AfterRound(Remaining(old(files), invalidated), round, interval)
      ensures !readOnly ==> gone == Uploaded(old(files), invalidated, round.tries)
    {
      hide Collected, Takes, AfterTrying, Remaining, Uploaded;
      if readOnly { return map[]; }
      gone := DropInvalidated(invalidated, round.tries);
      var due := CollectDue(round, interval);
      if interval.Some? {
        due := Sort(due, NoLater);
        if SYNC_BATCH_SIZE < |due| { due := due[..SYNC_BATCH_SIZE]; }
      }
      SelectedFacts(files, round, interval);
      SyncEach(due, round.tries);
    }

    method DropInvalidated(invalidated: seq<string>, tries: string -> Attempt) returns (gone: map<string, Handle>)
      modifies this
      ensures files == Remaining(old(files), invalidated) && gone == Uploaded(old(files), invalidated, tries)
    {
      hide Attempted;
      gone := map[];
      for i := 0 to |invalidated|
        invariant files == Remaining(old(files), invalidated[..i])
        invariant gone == Uploaded(old(files), invalidated[..i], tries)
      {
        var p := invalidated[i];
        assert invalidated[..i + 1] == invalidated[..i] + [p];
        if p in files {
          gone := gone[p := Attempted(files[p], tries(p))];
          files := files - {p};
        }
      }
      assert invalidated[..|invalidated|] == invalidated;
    }

    method CollectDue(round: Round, interval: Option<nat>) returns (due: seq<Due>)
      requires Lists(round.order, files)
      ensures due == Collected(files, round, interval, round.order)
    {
      due := [];
      for i := 0 to |round.order|
        invariant due == Collected(files, round, interval, round.order[..i])
      {
        var p := round.order[i];
        assert round.order[..i + 1][..i] == round.order[..i] && p in round.order;
        if interval.Some? && p in round.locked { continue; }
        var h := files[p];
        if h.mode != ReadWrite || h.synced || (interval.Some? && Elapsed(h.lastSynced, round.now) < interval.value) {
          continue;
        }
        due := due + [Due(p, h.lastSynced)];
      }
      assert round.order[..|round.order|] == round.order;
    }

    method SyncEach(due: seq<Due>, tries: string -> Attempt)
      requires DistinctBy(due, PathOf) && Paths(due) <= files.Keys
      modifies this
      ensures files == AfterTrying(old(files), Paths(due), tries)
    {
      assert AfterTrying(files, Paths(due[..0]), tries) == files;
      for i := 0 to |due|
        invariant files == AfterTrying(old(files), Paths(due[..i]), tries)
      {
        var p := due[i].path;
        PathsGrow(due, i);
        if tries(p).Tried? {
          var h := Synced(files[p], tries(p).at, tries(p).upload);
          files := files[p := h];
        }
      }
      assert due[..|due|] == due;
    }
  }

  lemma PathsGrow(due: seq<Due>, i: nat)
    requires i < |due| && DistinctBy(due, PathOf)
    ensures Paths(due[..i + 1]) == Paths(due[..i]) + {due[i].path}
    ensures due[i].path !in Paths(due[..i]) && due[i].path in Paths(due)
  {
    assert forall j :: 0 <= j < i ==> PathOf(due[j]) != PathOf(due[i]);
    forall p
      ensures p in Paths(due[..i + 1]) <==> p in Paths(due[..i]) + {due[i].path}
    {
      assert due[..i + 1] == due[..i] + [due[i]];
    }
  }

  // ----- what a round selects -----

  /** The collected files are the listed ones that the round takes, each once, with their stamps. */
  lemma {:induction false} CollectedMembers(files: Files, round: Round, interval: Option<nat>, order: seq<string>)
    requires forall i, j :: 0 <= i < j < |order| ==> order[i] != order[j]
    ensures var due := Collected(files, round, interval, order);
            && (forall d :: d in due <==> d.path in order && Takes(files, round, interval, d.path) && d.stamp == files[d.path].lastSynced)
            && DistinctBy(due, PathOf)
  {
    hide Takes;
    if order != [] {
      var front, last := order[..|order| - 1], order[|order| - 1];
      assert order == front + [last];
      CollectedMembers(files, round, interval, front);
    }
  }

  lemma {:induction false} PathsSize(due: seq<Due>)
    ensures |Paths(due)| <= |due|
    ensures DistinctBy(due, PathOf) ==> |Paths(due)| == |due|
  {
    if due != [] {
      var front, last := due[..|due| - 1], due[|due| - 1];
      assert due == front + [last];
      PathsSize(front);
      assert Paths(due) == Paths(front) + {last.path};
      if DistinctBy(due, PathOf) {
        PathsGrow(due, |due| - 1);
        assert DistinctBy(front, PathOf);
      }
    }
  }

  /** What the round takes, sorted by stamp. */
  ghost function ByAge(files: Files, round: Round, interval: Option<nat>): seq<Due> {
    Sort(Collected(files, round, interval, round.order), NoLater)
  }

  lemma ByAgeFacts(files: Files, round: Round, interval: Option<nat>)
    requires Lists(round.order, files)
    ensures var s := ByAge(files, round, interval);
            && (forall d :: d in s <==> Takes(files, round, interval, d.path) && d.stamp == files[d.path].lastSynced)
            && DistinctBy(s, PathOf) && Sorted(s, NoLater)
  {
    hide Takes, Sort, Collected, Sorted, DistinctBy;
    var due := Collected(files, round, interval, round.order);
    CollectedMembers(files, round, interval, round.order);
    SortSorts(due, NoLater);
    SortDistinct(due, NoLater, PathOf);
    forall d: Due
      ensures d in ByAge(files, round, interval) <==> Takes(files, round, interval, d.path) && d.stamp == files[d.path].lastSynced
    {
      SameElements(due, Sort(due, NoLater), d);
    }
  }

  /** A round syncs only what it takes, and nothing twice. */
  lemma SelectedFacts(files: Files, round: Round, interval: Option<nat>)
    requires Lists(round.order, files)
    ensures var s := Selected(files, round, interval);
            && DistinctBy(s, PathOf)
            && (forall d :: d in s ==> Takes(files, round, interval, d.path) && d.stamp == files[d.path].lastSynced)
            && Paths(s) <= files.Keys
  {
    hide Takes, Sort, Collected;
    ByAgeFacts(files, round, interval);
    CollectedMembers(files, round, interval, round.order);
    var s := Selected(files, round, interval);
    forall d | d in s
      ensures Takes(files, round, interval, d.path) && d.stamp == files[d.path].lastSynced && d.path in files
    {
      assert interval.Some? ==> d in ByAge(files, round, interval);
    }
  }

  /** A forced round syncs every file it takes. */
  lemma ForcedSelectsAll(files: Files, round: Round, p: string)
    requires Lists(round.order, files)
    ensures p in Paths(Selected(files, round, None)) <==> Takes(files, round, None, p)
  {
    hide Takes, Collected;
    CollectedMembers(files, round, None, round.order);
    var due := Collected(files, round, None, round.order);
    if Takes(files, round, None, p) {
      assert Due(p, files[p].lastSynced) in due;
    }
  }

  /** A file is passed over only for a full batch of files that are at least as overdue. */
  lemma PassedOver(files: Files, round: Round, interval: Option<nat>, p: string)
    requires Lists(round.order, files) && interval.Some?
    requires Takes(files, round, interval, p) && p !in Paths(Selected(files, round, interval))
    ensures p in files && |Selected(files, round, interval)| == SYNC_BATCH_SIZE
    ensures forall d :: d in Selected(files, round, interval) ==> d.path != p && d.stamp <= files[p].lastSynced
  {
    hide Takes, Sort, Collected;
    ByAgeFacts(files, round, interval);
    var s := ByAge(files, round, interval);
    assert Due(p, files[p].lastSynced) in s;
    var i :| 0 <= i < |s| && s[i] == Due(p, files[p].lastSynced);
    assert forall j :: 0 <= j < |Selected(files, round, interval)| ==> Selected(files, round, interval)[j].path != p;
    assert SYNC_BATCH_SIZE <= i;
    assert forall j :: 0 <= j < i ==> NoLater(s[j], s[i]);
  }

  lemma {:induction false} SubsetSize<T>(a: set<T>, b: set<T>)
    requires a <= b
    ensures |a| <= |b|
  {
    if a != {} {
      var x :| x in a;
      SubsetSize(a - {x}, b - {x});
    }
  }

  // ----- exactly which files a round selects -----

  /** The position of a path in the iteration order. */
  function PosIn(order: seq<string>, p: string): nat {
    if order == [] || order[0] == p then 0 else 1 + PosIn(order[1..], p)
  }

  lemma {:induction false} PosAt(order: seq<string>, i: nat)
    requires Unique(order) && i < |order|
    ensures PosIn(order, order[i]) == i
  {
    if i > 0 { PosAt(order[1..], i - 1); }
  }

  /** By stamp, and files with the same stamp as they are met. */
  ghost function Earlier(order: seq<string>): (Due, Due) -> bool {
    (a: Due, b: Due) => a.stamp < b.stamp || (a.stamp == b.stamp && PosIn(order, a.path) <= PosIn(order, b.path))
  }

  /** The files that a round would sync before `p`. */
  ghost function Ahead(files: Files, round: Round, interval: Option<nat>, p: string): set<string>
    requires p in files && interval.Some?
  {
    set q | q in files && q != p && OverdueAt(files, round, interval.value, q)
            && (files[q].lastSynced < files[p].lastSynced
                || (files[q].lastSynced == files[p].lastSynced && PosIn(round.order, q) < PosIn(round.order, p)))
  }

  /** The collected files are in the iteration order, all before position `n`. */
  ghost predicate InOrder(due: seq<Due>, order: seq<string>, n: nat) {
    && (forall i :: 0 <= i < |due| ==> PosIn(order, due[i].path) < n)
    && (forall i, j :: 0 <= i < j < |due| ==> PosIn(order, due[i].path) < PosIn(order, due[j].path))
  }

  lemma InOrderGrows(due: seq<Due>, order: seq<string>, n: nat, d: Due)
    requires InOrder(due, order, n)
    ensures InOrder(due, order, n + 1)
    ensures PosIn(order, d.path) == n ==> InOrder(due + [d], order, n + 1)
  {
    if PosIn(order, d.path) == n {
      var all := due + [d];
      forall i | 0 <= i < |all|
        ensures PosIn(order, all[i].path) < n + 1
        ensures forall j :: i < j < |all| ==> PosIn(order, all[i].path) < PosIn(order, all[j].path)
      {
        if i < |due| { assert all[i] == due[i]; }
      }
    }
  }

  lemma {:induction false} CollectedInOrder(files: Files, round: Round, interval: Option<nat>, n: nat)
    requires Unique(round.order) && n <= |round.order|
    ensures InOrder(Collected(files, round, interval, round.order[..n]), round.order, n)
  {
    if n > 0 {
      hide Takes, PosIn, Unique, InOrder;
      var order, last := round.order[..n], round.order[n - 1];
      assert order[..n - 1] == round.order[..n - 1] && order[n - 1] == last;
      CollectedInOrder(files, round, interval, n - 1);
      PosAt(round.order, n - 1);
      if Takes(files, round, interval, last) {
        InOrderGrows(Collected(files, round, interval, order[..n - 1]), round.order, n - 1, Due(last, files[last].lastSynced));
      } else {
        InOrderGrows(Collected(files, round, interval, order[..n - 1]), round.order, n - 1, Due("", 0));
      }
    }
  }

  lemma ByAgeStable(files: Files, round: Round, interval: Option<nat>)
    requires Lists(round.order, files)
    ensures Sorted(ByAge(files, round, interval), Earlier(round.order))
  {
    hide Collected, Sorted, PosIn, Unique;
    var due, finer := Collected(files, round, interval, round.order), Earlier(round.order);
    assert round.order[..|round.order|] == round.order;
    CollectedInOrder(files, round, interval, |round.order|);
    forall i, j | 0 <= i < j < |due| && NoLater(due[i], due[j]) && NoLater(due[j], due[i])
      ensures finer(due[i], due[j])
    {
    }
    SortStable(due, NoLater, finer);
  }

  lemma PosDiffers(order: seq<string>, p: string, q: string)
    requires Unique(order) && p in order && q in order && p != q
    ensures PosIn(order, p) != PosIn(order, q)
  {
    hide PosIn;
    var i :| 0 <= i < |order| && order[i] == p;
    var j :| 0 <= j < |order| && order[j] == q;
    PosAt(order, i);
    PosAt(order, j);
  }

  lemma NotLaterThan(s: seq<Due>, order: seq<string>, i: nat, j: nat)
    requires Sorted(s, Earlier(order)) && i < |s| && j < |s| && !Earlier(order)(s[i], s[j])
    ensures j <= i
  {
    hide PosIn;
  }

  /** The files ahead of `p` are those before it in the sorted list. */
  lemma AheadComesFirst(files: Files, round: Round, interval: Option<nat>, p: string, i: nat)
    requires interval.Some? && Lists(round.order, files) && p in files
    requires var s := ByAge(files, round, interval); i < |s| && s[i] == Due(p, files[p].lastSynced)
    ensures Ahead(files, round, interval, p) == Paths(ByAge(files, round, interval)[..i])
  {
    hide Takes, Collected, Sort, PosIn, Unique, NoLater;
    var s := ByAge(files, round, interval);
    ByAgeFacts(files, round, interval);
    ByAgeStable(files, round, interval);
    forall q
      ensures q in Ahead(files, round, interval, p) <==> q in Paths(s[..i])
    {
      if q in Ahead(files, round, interval, p) {
        assert Due(q, files[q].lastSynced) in s;
        var j :| 0 <= j < |s| && s[j] == Due(q, files[q].lastSynced);
        NotLaterThan(s, round.order, i, j);
        assert s[..i][j] == s[j];
      }
      if q in Paths(s[..i]) {
        var j :| 0 <= j < i && s[..i][j].path == q;
        assert s[j] in s && Earlier(round.order)(s[j], s[i]) && PathOf(s[j]) != PathOf(s[i]);
        PosDiffers(round.order, p, q);
      }
    }
  }

  /** A scheduled round selects a file if and only if it is overdue and fewer than a full batch are ahead of it. */
  lemma SelectedIff(files: Files, round: Round, interval: Option<nat>, p: string)
    requires Lists(round.order, files) && interval.Some? && p in files
    ensures p in Paths(Selected(files, round, interval))
            <==> OverdueAt(files, round, interval.value, p) && |Ahead(files, round, interval, p)| < SYNC_BATCH_SIZE
  {
    hide Takes, Collected, Sort, Ahead, Unique;
    SelectedFacts(files, round, interval);
    ByAgeFacts(files, round, interval);
    var s := ByAge(files, round, interval);
    if Takes(files, round, interval, p) {
      assert Due(p, files[p].lastSynced) in s;
      var i :| 0 <= i < |s| && s[i] == Due(p, files[p].lastSynced);
      AheadComesFirst(files, round, interval, p, i);
      FrontDistinct(s, i);
      PathsSize(s[..i]);
      SelectedAt(s, Selected(files, round, interval), i);
    }
  }

  lemma FrontDistinct(s: seq<Due>, i: nat)
    requires DistinctBy(s, PathOf) && i <= |s|
    ensures DistinctBy(s[..i], PathOf)
  {
  }

  lemma SelectedAt(s: seq<Due>, selected: seq<Due>, i: nat)
    requires DistinctBy(s, PathOf) && i < |s|
    requires selected == if SYNC_BATCH_SIZE < |s| then s[..SYNC_BATCH_SIZE] else s
    ensures s[i].path in Paths(selected) <==> i < SYNC_BATCH_SIZE
  {
    forall j | 0 <= j < |selected| && selected[j].path == s[i].path
      ensures j == i
    {
      assert i < j ==> PathOf(s[i]) != PathOf(s[j]);
      assert j < i ==> PathOf(s[j]) != PathOf(s[i]);
    }
    if i < SYNC_BATCH_SIZE { assert selected[i] == s[i]; }
  }

  /** With sixteen strictly more overdue files ahead of it a file is not selected. */
  lemma NotSelected(files: Files, round: Round, interval: Option<nat>, p: string, ahead: set<string>)
    requires Lists(round.order, files) && interval.Some? && p in files
    requires forall q :: q in ahead ==> Takes(files, round, interval, q) && files[q].lastSynced < files[p].lastSynced
    requires SYNC_BATCH_SIZE <= |ahead|
    ensures SYNC_BATCH_SIZE <= |Ahead(files, round, interval, p)| && p !in Paths(Selected(files, round, interval))
  {
    hide Takes, Selected, Paths;
    SelectedIff(files, round, interval, p);
    SubsetSize(ahead, Ahead(files, round, interval, p));
  }

  // ----- a forced round -----

  predicate Succeeds(attempt: Attempt) {
    attempt.Tried? && attempt.upload.Uploads?
  }

  /** A dirty file is not in ignore-write mode. */
  ghost predicate Sane(files: Files) {
    forall p :: p in files ==> files[p].ignoreWrite ==> files[p].synced
  }

  ghost predicate AllMirrored(files: Files) {
    forall p :: p in files ==> Mirrored(files[p])
  }

  /** No round changes what is stored locally or breaks the mirror of a synced file. */
  lemma RoundKeepsContent(files: Files, round: Round, interval: Option<nat>)
    ensures var after := AfterRound(files, round, interval);
            && after.Keys == files.Keys
            && (forall p :: p in files ==> after[p].local == files[p].local)
            && (AllMirrored(files) ==> AllMirrored(after))
            && (Sane(files) ==> Sane(after))
  {
    hide Selected, Paths;
  }

  /** After a forced round a writable file is synced exactly when it was before or its upload succeeded. */
  lemma ForcedSync(files: Files, round: Round, p: string)
    requires Lists(round.order, files) && Sane(files)
    requires p in files && files[p].mode == ReadWrite
    ensures p in AfterRound(files, round, None)
    ensures AfterRound(files, round, None)[p].synced <==> files[p].synced || Succeeds(round.tries(p))
  {
    hide Selected, Paths;
    ForcedSelectsAll(files, round, p);
  }

  /** When no upload fails a forced round leaves the local bytes of every writable file in the remote storage. */
  lemma ForcedRoundDurable(files: Files, round: Round)
    requires Lists(round.order, files) && Sane(files) && AllMirrored(files)
    requires forall p :: p in files ==> Succeeds(round.tries(p))
    ensures var after := AfterRound(files, round, None);
            forall p :: p in files && files[p].mode == ReadWrite
                        ==> p in after && RemoteContent(after[p].remote) == files[p].local
  {
    hide AfterRound, Succeeds;
    RoundKeepsContent(files, round, None);
    forall p | p in files && files[p].mode == ReadWrite
      ensures AfterRound(files, round, None)[p].synced
    {
      ForcedSync(files, round, p);
    }
  }

  /**
    Of an invalidated file, whose local copy is removed, a mirrored or uploaded one is safe; if the
    upload does not begin the remote storage keeps what it had, so the changes of a dirty file are gone.
  */
  lemma InvalidatedKept(files: Files, invalidated: seq<string>, tries: string -> Attempt, p: string)
    requires p in files && p in invalidated && Mirrored(files[p]) && !files[p].ignoreWrite
    ensures var gone := Uploaded(files, invalidated, tries);
            && p in gone
            && (files[p].synced || Succeeds(tries(p)) ==> RemoteContent(gone[p].remote) == files[p].local)
            && (tries(p).Busy? || tries(p).upload.FlushFails? ==> gone[p].remote == files[p].remote)
  {
  }

  /**
    A whole round over all files: the invalidated ones leave the cache after an attempt to upload
    them, of the others exactly the selected ones are attempted, and nothing else changes.
  */
  lemma RoundChanges(files: Files, invalidated: seq<string>, round: Round, interval: Option<nat>, p: string)
    ensures var kept := Remaining(files, invalidated);
            var after, gone := AfterRound(kept, round, interval), Uploaded(files, invalidated, round.tries);
            && (p in after <==> p in files && p !in invalidated) && (p in gone <==> p in files && p in invalidated)
            && (p in gone ==> gone[p] == Attempted(files[p], round.tries(p)))
            && (p in after ==> after[p] == if p in Paths(Selected(kept, round, interval)) then Attempted(files[p], round.tries(p)) else files[p])
  {
    hide Selected;
  }
}
