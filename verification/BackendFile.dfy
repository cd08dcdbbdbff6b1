/**
  A file handle over a storage backend: writes go to the local copy, `sync_all` uploads it,
  and `is_synced` says whether the remote copy is up to date.
*/
module BackendFile {
  import opened Common

  type Content = seq<int>

  datatype Mode = Read | ReadWrite

  /** An open file with its local and remote copies; one handle per path. */
  datatype Handle = Handle(local: Content, remote: Option<Content>, pos: nat, synced: bool, lastSynced: nat,
                           mode: Mode, ignoreWrite: bool)

  /** A local operation works, or fails and leaves whatever it leaves. */
  datatype Io = Works | Breaks(torn: Content)

  /** An upload works, or fails with the remote copy in some state. */
  datatype Upload = Uploads | FlushFails | UploadFails(torn: Option<Content>)

  datatype Op =
    | Write(buf: Content, count: nat, io: Io)
    | SetLen(size: nat, io: Io)
    | FlushLocal(io: Io)
    | SyncAll(now: nat, upload: Upload)
    | Seek(pos: nat)

  function Zeros(n: nat): seq<int> {
    seq(n, _ => 0)
  }

  /** Cut, or filled up with zeros. */
  function Resized(c: Content, size: nat): (r: Content)
    ensures |r| == size
    ensures forall k :: 0 <= k < size ==> r[k] == if k < |c| then c[k] else 0
  {
    if size <= |c| then c[..size] else c + Zeros(size - |c|)
  }

  /** Position by position: the written bytes, the bytes that were there, and zeros in a gap. */
  ghost predicate WrittenOver(c: Content, pos: nat, buf: Content, r: Content) {
    && |r| == (if buf == [] then |c| else Max(|c|, pos + |buf|))
    && (forall k :: pos <= k < pos + |buf| ==> r[k] == buf[k - pos])
    && (forall k :: 0 <= k < |c| && !(pos <= k < pos + |buf|) ==> r[k] == c[k])
    && (forall k :: |c| <= k < pos && k < |r| ==> r[k] == 0)
  }

  /** Writing `buf` at `pos`, filling a gap with zeros; writing nothing changes nothing. */
  function Overwritten(c: Content, pos: nat, buf: Content): (r: Content)
    ensures WrittenOver(c, pos, buf, r)
  {
    var padded := if |c| < pos then Resized(c, pos) else c;
    if buf == [] then c
    else padded[..pos] + buf + (if pos + |buf| < |padded| then padded[pos + |buf|..] else [])
  }

  function Dirtied(h: Handle, io: Io, local: Content): Handle {
    h.(synced := false, local := if io.Works? then local else io.torn)
  }

  /** `File::sync_all` */
  function Synced(h: Handle, now: nat, upload: Upload): Handle {
    if h.ignoreWrite || h.synced then h
    else
      match upload
      case FlushFails => h
      case UploadFails(torn) => h.(remote := torn)
      case Uploads => h.(remote := Some(h.local), lastSynced := now, synced := true)
  }

  /** One operation on an open file. */
  function Apply(h: Handle, op: Op): Handle {
    match op
    case Seek(pos) => h.(pos := pos)
    case SyncAll(now, upload) => Synced(h, now, upload)
    case Write(buf, count, io) =>
      if h.ignoreWrite then h
      else
        var n := if count < |buf| then count else |buf|;
        var h' := Dirtied(h, io, Overwritten(h.local, h.pos, buf[..n]));
        if io.Works? then h'.(pos := h.pos + n) else h'
    case SetLen(size, io) => if h.ignoreWrite then h else Dirtied(h, io, Resized(h.local, size))
    case FlushLocal(io) => if h.ignoreWrite then h else Dirtied(h, io, h.local)
  }

  function ApplyAll(h: Handle, ops: seq<Op>): Handle {
    if ops == [] then h else Apply(ApplyAll(h, ops[..|ops| - 1]), ops[|ops| - 1])
  }

  /** A missing remote copy counts as empty. */
  function RemoteContent(remote: Option<Content>): Content {
    if remote.Some? then remote.value else []
  }

  /** A file marked synced has its local bytes in the remote copy. */
  ghost predicate Mirrored(h: Handle) {
    h.synced ==> RemoteContent(h.remote) == h.local
  }

  /** Whatever is done to a file, and whatever fails, a file marked synced is mirrored. */
  lemma {:induction false} MirroredKept(h: Handle, ops: seq<Op>)
    requires Mirrored(h)
    ensures Mirrored(ApplyAll(h, ops))
  {
    if ops != [] { MirroredKept(h, ops[..|ops| - 1]); }
  }

  /** In ignore-write mode neither copy ever changes. */
  lemma {:induction false} IgnoredWrites(h: Handle, ops: seq<Op>)
    requires h.ignoreWrite
    ensures var r := ApplyAll(h, ops);
            r.local == h.local && r.remote == h.remote && r.synced == h.synced && r.ignoreWrite
  {
    if ops != [] { IgnoredWrites(h, ops[..|ops| - 1]); }
  }

  /** Writing one buffer behind another is writing both at once. */
  lemma WritesJoin(h: Handle, a: Content, b: Content)
    ensures Apply(Apply(h, Write(a, |a|, Works)), Write(b, |b|, Works)) == Apply(h, Write(a + b, |a + b|, Works))
  {
    hide Overwritten, WrittenOver;
    assert a[..|a|] == a && b[..|b|] == b && (a + b)[..|a + b|] == a + b;
    var once := Overwritten(h.local, h.pos, a);
    OverTwice(h.local, h.pos, a, b, once, Overwritten(once, h.pos + |a|, b), Overwritten(h.local, h.pos, a + b));
  }

  lemma OverTwice(c: Content, pos: nat, a: Content, b: Content, once: Content, twice: Content, both: Content)
    requires WrittenOver(c, pos, a, once) && WrittenOver(once, pos + |a|, b, twice) && WrittenOver(c, pos, a + b, both)
    ensures twice == both
  {
    assert |twice| == |both|;
    forall k | 0 <= k < |both|
      ensures twice[k] == both[k]
    {
      if pos <= k < pos + |a| {
        assert both[k] == (a + b)[k - pos] && once[k] == a[k - pos];
      } else if pos + |a| <= k < pos + |a| + |b| {
        assert both[k] == (a + b)[k - pos] && twice[k] == b[k - pos - |a|];
      }
    }
  }

  /** Writing the buffers one after the other, each completely. */
  function Writes(bufs: seq<Content>): seq<Op> {
    if bufs == [] then [] else Writes(bufs[..|bufs| - 1]) + [Write(bufs[|bufs| - 1], |bufs[|bufs| - 1]|, Works)]
  }

  function Concat(bufs: seq<Content>): Content {
    if bufs == [] then [] else Concat(bufs[..|bufs| - 1]) + bufs[|bufs| - 1]
  }

  /** Whatever is written at the end of a file in pieces is appended to it, and the next upload that works has all of it. */
  lemma {:induction false} AppendsInPieces(h: Handle, bufs: seq<Content>, now: nat)
    requires !h.ignoreWrite && h.pos == |h.local| && !h.synced
    ensures var r := ApplyAll(h, Writes(bufs));
            && r.local == h.local + Concat(bufs) && r.pos == |r.local| && !r.synced && !r.ignoreWrite
            && Apply(r, SyncAll(now, Uploads)) == r.(remote := Some(h.local + Concat(bufs)), synced := true, lastSynced := now)
  {
    hide Apply, ApplyAll;
    if bufs == [] {
      assert h.local + [] == h.local;
      NothingApplied(h, Writes(bufs));
      UploadWorks(h, now);
    } else {
      var front, last := bufs[..|bufs| - 1], bufs[|bufs| - 1];
      AppendsInPieces(h, front, now);
      ApplyLast(h, Writes(front), Write(last, |last|, Works));
      AppendsOne(ApplyAll(h, Writes(front)), last);
      assert (h.local + Concat(front)) + last == h.local + (Concat(front) + last);
      UploadWorks(ApplyAll(h, Writes(bufs)), now);
    }
  }

  lemma NothingApplied(h: Handle, ops: seq<Op>)
    requires ops == []
    ensures ApplyAll(h, ops) == h
  {
  }

  lemma ApplyLast(h: Handle, ops: seq<Op>, op: Op)
    ensures ApplyAll(h, ops + [op]) == Apply(ApplyAll(h, ops), op)
  {
    hide Apply;
    assert (ops + [op])[..|ops|] == ops;
  }

  lemma AppendsOne(h: Handle, buf: Content)
    requires !h.ignoreWrite && h.pos == |h.local|
    ensures Apply(h, Write(buf, |buf|, Works)) == h.(local := h.local + buf, pos := |h.local + buf|, synced := false)
  {
    hide Overwritten, WrittenOver;
    assert buf[..|buf|] == buf;
    OverEnd(h.local, buf, Overwritten(h.local, h.pos, buf));
  }

  lemma UploadWorks(h: Handle, now: nat)
    requires !h.ignoreWrite && !h.synced
    ensures Apply(h, SyncAll(now, Uploads)) == h.(remote := Some(h.local), synced := true, lastSynced := now)
  {
  }

  lemma OverEnd(c: Content, buf: Content, r: Content)
    requires WrittenOver(c, |c|, buf, r)
    ensures r == c + buf
  {
    assert forall k :: 0 <= k < |c| ==> r[k] == (c + buf)[k];
    assert forall k :: |c| <= k < |c| + |buf| ==> r[k] == (c + buf)[k];
  }

  // ----- opening -----

  datatype Opened = File(h: Handle) | NotFound

  /** `OpenOptions::open`, with what is on the local disk and in the remote storage. */
  function Open(local: Option<Content>, remote: Option<Content>, create: bool, write: bool, ignoreWrite: bool, now: nat): Opened {
    var creates := create && !ignoreWrite;
    var mode := if write || create then ReadWrite else Read;
    if local.Some? then File(Handle(local.value, remote, 0, true, now, mode, ignoreWrite))
    else if remote.Some? then File(Handle(remote.value, remote, 0, true, now, mode, ignoreWrite))
    else if !creates then NotFound
    else File(Handle([], remote, 0, true, now, mode, ignoreWrite))
  }

  /**
    Opening finds nothing if and only if there is neither a local nor a remote copy and none may be
    created; otherwise the file has the local bytes, or else the remote ones, or none. It can be
    written if it was opened to write or to create.
  */
  lemma OpenGives(local: Option<Content>, remote: Option<Content>, create: bool, write: bool, ignoreWrite: bool, now: nat)
    ensures var r := Open(local, remote, create, write, ignoreWrite, now);
            && (r.NotFound? <==> local.None? && remote.None? && (!create || ignoreWrite))
            && (r.File? ==>
                  && r.h.local == (if local.Some? then local.value else RemoteContent(remote)) && r.h.remote == remote && r.h.pos == 0
                  && r.h.synced && r.h.lastSynced == now && r.h.ignoreWrite == ignoreWrite
                  && (r.h.mode == ReadWrite <==> write || create))
  {
  }

  /** A file is mirrored when opened exactly when no differing local copy was lying around. */
  lemma OpenMirroredIff(local: Option<Content>, remote: Option<Content>, create: bool, write: bool, ignoreWrite: bool, now: nat)
    requires Open(local, remote, create, write, ignoreWrite, now).File?
    ensures Mirrored(Open(local, remote, create, write, ignoreWrite, now).h)
            <==> (local.Some? ==> local.value == RemoteContent(remote))
  {
  }

  /** From a clean opening on, every use of a file keeps it mirrored. */
  lemma OpenedStaysMirrored(local: Option<Content>, remote: Option<Content>, create: bool, write: bool, ignoreWrite: bool, now: nat, ops: seq<Op>)
    requires Open(local, remote, create, write, ignoreWrite, now).File?
    requires local.Some? ==> local.value == RemoteContent(remote)
    ensures Mirrored(ApplyAll(Open(local, remote, create, write, ignoreWrite, now).h, ops))
  {
    OpenMirroredIff(local, remote, create, write, ignoreWrite, now);
    MirroredKept(Open(local, remote, create, write, ignoreWrite, now).h, ops);
  }

  // ----- the code -----

  class FileObject {
    var local: Content
    var remote: Option<Content>
    var pos: nat
    var isSynced: bool
    var lastSynced: nat
    const mode: Mode
    const ignoreWrite: bool

    constructor (h: Handle)
      ensures View() == h
    {
      local, remote, pos, isSynced, lastSynced := h.local, h.remote, h.pos, h.synced, h.lastSynced;
      mode, ignoreWrite := h.mode, h.ignoreWrite;
    }

    function View(): Handle
      reads this
    {
      Handle(local, remote, pos, isSynced, lastSynced, mode, ignoreWrite)
    }

    /** Marks the file dirty before touching it, so that a failed write leaves it dirty. */
    method WriteBytes(buf: Content, count: nat, io: Io) returns (written: Option<nat>)
      modifies this
      ensures View() == Apply(old(View()), Write(buf, count, io))
      ensures !ignoreWrite && io.Works? ==>
                WrittenOver(old(local), old(pos), buf[..Min(count, |buf|)], local) && pos == old(pos) + Min(count, |buf|)
      ensures !ignoreWrite && io.Breaks? ==> local == io.torn && pos == old(pos)
      ensures if ignoreWrite then View() == old(View()) else !isSynced && remote == old(remote) && lastSynced == old(lastSynced)
      ensures written == if ignoreWrite then Some(|buf|) else if io.Breaks? then None else Some(if count < |buf| then count else |buf|)
    {
      if ignoreWrite { return Some(|buf|); }
      isSynced := false;
      if io.Breaks? {
        local := io.torn;
        return None;
      }
      var n := if count < |buf| then count else |buf|;
      local := Overwritten(local, pos, buf[..n]);
      pos := pos + n;
      written := Some(n);
    }

    method Truncate(size: nat, io: Io)
      modifies this
      ensures View() == Apply(old(View()), SetLen(size, io))
      ensures if ignoreWrite then View() == old(View()) else !isSynced && remote == old(remote) && lastSynced == old(lastSynced) && pos == old(pos)
      ensures !ignoreWrite && io.Breaks? ==> local == io.torn
      ensures !ignoreWrite && io.Works? ==>
                |local| == size
                && forall k :: 0 <= k < size ==> local[k] == if k < |old(local)| then old(local)[k] else 0
    {
      if ignoreWrite { return; }
      isSynced := false;
      local := if io.Works? then Resized(local, size) else io.torn;
    }

    method Flush(io: Io)
      modifies this
      ensures View() == Apply(old(View()), FlushLocal(io))
      ensures if ignoreWrite then View() == old(View()) else !isSynced && remote == old(remote) && lastSynced == old(lastSynced) && pos == old(pos)
      ensures !ignoreWrite ==> local == if io.Works? then old(local) else io.torn
    {
      if ignoreWrite { return; }
      isSynced := false;
      if io.Breaks? { local := io.torn; }
    }

    /** Uploads the local copy; only a complete upload marks the file synced. */
    method Sync(now: nat, upload: Upload) returns (ok: bool)
      modifies this
      ensures View() == Apply(old(View()), SyncAll(now, upload))
      ensures ok == (ignoreWrite || old(isSynced) || upload.Uploads?)
    {
      if ignoreWrite || isSynced { return true; }
      if upload.FlushFails? { return false; }
      if upload.UploadFails? {
        remote := upload.torn;
        return false;
      }
      remote := Some(local);
      lastSynced := now;
      isSynced := true;
      ok := true;
    }
  }
}
