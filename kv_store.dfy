// The append-only key-value store file. After a 512-byte header the file is
// a log: each put appends a record descriptor (uid, offset, size) followed by
// the value bytes, and each drop appends a descriptor whose offset is the
// negated offset of the record it removes (a tombstone). Opening the store
// first resolves a ".snap" sidecar left by an interrupted commit, then
// replays the log into the uid index and the header counters.

module KvStore {
  import opened Wrappers
  import opened KvCodec

  /** Bytes reserved for the header at the start of the store file. */
  const HeaderSize: nat := 512
  const SnapSuffix: string := ".snap"
  const NewSuffix: string := ".new"

  /** Why an operation on the store failed. AssertionFailed marks a record that a
      debug assertion of the replay loop refuses. */
  datatype Error = SystemError | FileCorrupted | AssertionFailed

  datatype Result<T> = Ok(value: T) | Err(error: Error)

  /** The counters kept in the header: the file size, the bytes no longer live,
      the number of live records and the number of drops. */
  datatype StoreInfo = StoreInfo(size: int, tombSize: int, nRecords: int, nDels: int)

  /** The counters of a store holding no record. */
  const InitInfo := StoreInfo(HeaderSize, 0, 0, 0)

  /** The in-memory side of an open store: the counters and the uid index. */
  datatype State = State(info: StoreInfo, index: map<int, KVRecord>)

  const Initial := State(InitInfo, map[])

  /** The name of the sidecar holding the header saved when a commit starts. */
  function SnapshotFname(fname: string): (s: string)
    ensures |s| == |fname| + |SnapSuffix| && s[..|fname|] == fname
    ensures s[|fname|..] == SnapSuffix
  {
    fname + SnapSuffix
  }

  /** The name reserved for a rewritten copy of the store. */
  function NewFname(fname: string): (s: string)
    ensures |s| == |fname| + |NewSuffix| && s[..|fname|] == fname
    ensures s[|fname|..] == NewSuffix
  {
    fname + NewSuffix
  }

  /** The sidecar names never collide with each other or with a store name they
      derive from, and each determines the store name. */
  lemma SidecarNamesDistinct(f: string, g: string)
    ensures SnapshotFname(f) != NewFname(g)
    ensures SnapshotFname(f) != f && NewFname(f) != f
    ensures SnapshotFname(f) == SnapshotFname(g) ==> f == g
    ensures NewFname(f) == NewFname(g) ==> f == g
  {
    var s, n := SnapshotFname(f), NewFname(g);
    assert s[|s| - 1] == 'p';
    assert n[|n| - 1] == 'w';
    if SnapshotFname(f) == SnapshotFname(g) {
      assert f == SnapshotFname(f)[..|f|];
    }
    if NewFname(f) == NewFname(g) {
      assert f == NewFname(f)[..|f|];
    }
  }

  // ---------------------------------------------------------------------------
  // Header block and snapshot recovery

  /** The 512-byte header as it reads back: intact with its counters, failing
      its checksum, or shorter than 512 bytes. */
  datatype HeaderBlock = Sealed(info: StoreInfo) | Corrupted | Short

  /** The store file: its header block and the bytes that follow it. */
  datatype StoreFile = StoreFile(header: HeaderBlock, body: seq<byte>)

  /** Reads the header: a short read is a system error, a bad checksum
      FileCorrupted, otherwise the decoded counters. */
  function LoadHeader(h: HeaderBlock): (r: Result<StoreInfo>)
    ensures r.Ok? <==> h.Sealed?
    ensures r.Ok? ==> r.value == h.info
    ensures r == Err(FileCorrupted) <==> h == Corrupted
  {
    match h
    case Sealed(info) => Ok(info)
    case Corrupted => Err(FileCorrupted)
    case Short => Err(SystemError)
  }

  function Zeros(n: nat): (z: seq<byte>)
    ensures |z| == n && forall i | 0 <= i < n :: z[i] == 0
  {
    if n == 0 then [] else Zeros(n - 1) + [0]
  }

  /** The body left after truncating (or extending) the file to n bytes and
      rewriting the 512-byte header. */
  function ResizeBody(body: seq<byte>, n: int): (b: seq<byte>)
    ensures |b| == if n <= HeaderSize then 0 else n - HeaderSize
    ensures |b| <= |body| ==> b == body[..|b|]
    ensures |b| >= |body| ==> b[..|body|] == body
  {
    if n <= HeaderSize then []
    else if n - HeaderSize <= |body| then body[..n - HeaderSize]
    else body + Zeros(n - HeaderSize - |body|)
  }

  /** What the recovery step leaves: the store file, or the error that
      stopped the open, and the sidecar still on disk. */
  datatype Recovery = Recovery(file: Result<StoreFile>, snap: Option<HeaderBlock>)

  /** The store file after the recovery step of opening, given the snapshot
      sidecar if one exists. A sidecar with a good header rolls the file back
      to the size it records; a corrupted one is ignored; a short one makes
      the open fail. The sidecar is removed once it has been dealt with, and
      left in place when the open fails. */
  function Recover(main: StoreFile, snap: Option<HeaderBlock>): (r: Recovery)
    ensures snap.None? || snap == Some(Corrupted) ==> r.file == Ok(main)
    ensures snap == Some(Short) ==> r.file == Err(SystemError)
    ensures r.file.Ok? && snap.Some? && snap.value.Sealed? ==>
      r.file.value.header == snap.value && r.file.value.body == ResizeBody(main.body, snap.value.info.size)
    ensures r.file.Ok? ==> r.snap.None?
    ensures r.file.Err? ==> r.snap == snap
  {
    match snap
    case None => Recovery(Ok(main), None)
    case Some(h) =>
      match LoadHeader(h)
      case Err(FileCorrupted) => Recovery(Ok(main), None)
      case Err(e) => Recovery(Err(e), snap)
      case Ok(info) =>
        if info.size < 0 then Recovery(Err(SystemError), snap)
        else Recovery(Ok(StoreFile(Sealed(info), ResizeBody(main.body, info.size))), None)
  }

  // ---------------------------------------------------------------------------
  // The log and its replay

  /** A put: the uid now maps to the record and the counters account for the
      descriptor and the value. Replacing a live record turns the old value
      into dead bytes; a new uid adds a live record. */
  function Put(st: State, r: KVRecord): State
  {
    var info := st.info.(size := st.info.size + RecordSize + r.size);
    var info' :=
      if r.uid in st.index then info.(tombSize := info.tombSize + st.index[r.uid].size)
      else info.(nRecords := info.nRecords + 1);
    State(info', st.index[r.uid := r])
  }

  /** A drop: the uid leaves the index; the old value, its descriptor and the
      tombstone descriptor become dead bytes. */
  function Tombstone(st: State, r: KVRecord): State
  {
    var i := st.info;
    State(StoreInfo(i.size + RecordSize, i.tombSize + r.size + 2 * RecordSize, i.nRecords - 1, i.nDels + 1),
          st.index - {r.uid})
  }

  function Apply(st: State, r: KVRecord): State
  {
    if r.offset < 0 then Tombstone(st, r) else Put(st, r)
  }

  /** The state reached by applying every record of the log, oldest first. */
  function Replay(log: seq<KVRecord>): State
  {
    if |log| == 0 then Initial else Apply(Replay(log[..|log| - 1]), log[|log| - 1])
  }

  /** A put keeps the live-record counter equal to the size of the index. */
  lemma PutKeepsCount(st: State, r: KVRecord)
    requires st.info.nRecords == |st.index|
    ensures Put(st, r).info.nRecords == |Put(st, r).index|
    ensures Put(st, r).index[r.uid] == r
    ensures forall u | u in st.index && u != r.uid :: u in Put(st, r).index && Put(st, r).index[u] == st.index[u]
  {
    if r.uid !in st.index {
      assert st.index[r.uid := r].Keys == st.index.Keys + {r.uid};
    } else {
      assert st.index[r.uid := r].Keys == st.index.Keys;
    }
  }

  /** A drop of a live uid keeps the live-record counter equal to the size of the index. */
  lemma TombstoneKeepsCount(st: State, r: KVRecord)
    requires st.info.nRecords == |st.index| && r.uid in st.index
    ensures Tombstone(st, r).info.nRecords == |Tombstone(st, r).index|
    ensures r.uid !in Tombstone(st, r).index
  {
    assert st.index.Keys == (st.index - {r.uid}).Keys + {r.uid};
  }

  /** Bytes a record takes in the log: its descriptor and, for a put, its value. */
  function Footprint(r: KVRecord): int
  {
    if r.offset < 0 then RecordSize else RecordSize + r.size
  }

  /** Bytes the whole log takes after the header. */
  function Len(log: seq<KVRecord>): int
  {
    if |log| == 0 then 0 else Len(log[..|log| - 1]) + Footprint(log[|log| - 1])
  }

  /** The size counter after a replay is the header plus the bytes of the log. */
  lemma {:induction false} ReplaySize(log: seq<KVRecord>)
    ensures Replay(log).info.size == HeaderSize + Len(log)
  {
    if |log| > 0 {
      ReplaySize(log[..|log| - 1]);
    }
  }

  /** Record k of the log sits at its place in body: encoded, and a put records
      its own position and a size that is not negative. */
  ghost predicate Framed(body: seq<byte>, log: seq<KVRecord>, k: int)
    requires 0 <= k < |log|
  {
    var p := Len(log[..k]);
    var r := log[k];
    Representable(r) && (r.offset >= 0 ==> r.offset == HeaderSize + p && r.size >= 0)
    && 0 <= p && p + RecordSize <= |body| && body[p..p + RecordSize] == EncodeKVRecord(r)
  }

  /** body is exactly the log written out record after record. */
  ghost predicate Serialized(body: seq<byte>, log: seq<KVRecord>)
  {
    |body| == Len(log) && forall k | 0 <= k < |log| :: Framed(body, log, k)
  }

  /** Every put in the log carries at least one value byte. */
  ghost predicate NonEmptyValues(log: seq<KVRecord>)
  {
    forall k | 0 <= k < |log| :: log[k].offset >= 0 ==> log[k].size > 0
  }

  lemma LenStep(log: seq<KVRecord>, k: nat)
    requires k < |log|
    ensures Len(log[..k + 1]) == Len(log[..k]) + Footprint(log[k])
    ensures Replay(log[..k + 1]) == Apply(Replay(log[..k]), log[k])
  {
    assert log[..k + 1][..k] == log[..k];
  }

  /** Appending a descriptor, and for a put its value, keeps the file a serialized log. */
  lemma SerializedAppend(body: seq<byte>, log: seq<KVRecord>, r: KVRecord, cont: seq<byte>)
    requires Serialized(body, log) && Representable(r)
    requires r.offset >= 0 ==> r.offset == HeaderSize + |body| && r.size == |cont|
    requires r.offset < 0 ==> cont == []
    ensures Serialized(body + EncodeKVRecord(r) + cont, log + [r])
  {
    var body', log' := body + EncodeKVRecord(r) + cont, log + [r];
    assert log'[..|log|] == log;
    forall k | 0 <= k < |log'|
      ensures Framed(body', log', k)
    {
      if k < |log| {
        assert log'[..k] == log[..k];
        assert Framed(body, log, k);
        var p := Len(log[..k]);
        assert body'[p..p + RecordSize] == body[p..p + RecordSize];
      } else {
        assert body'[|body|..|body| + RecordSize] == EncodeKVRecord(r);
      }
    }
  }

  lemma {:induction false} LenMonotone(body: seq<byte>, log: seq<KVRecord>, i: nat, j: nat)
    requires Serialized(body, log) && i <= j <= |log|
    ensures Len(log[..i]) <= Len(log[..j])
    decreases j - i
  {
    if i < j {
      LenMonotone(body, log, i, j - 1);
      LenStep(log, j - 1);
      assert Framed(body, log, j - 1);
    }
  }

  /** The first c records of a serialized log are serialized in the matching prefix of the body. */
  lemma SerializedPrefix(body: seq<byte>, log: seq<KVRecord>, c: nat)
    requires Serialized(body, log) && c <= |log|
    ensures 0 <= Len(log[..c]) <= |body|
    ensures Serialized(body[..Len(log[..c])], log[..c])
  {
    if c == |log| {
      assert log[..c] == log;
      assert body[..|body|] == body;
    } else {
      assert Framed(body, log, c);
      var L := Len(log[..c]);
      var body', log' := body[..L], log[..c];
      forall k | 0 <= k < c
        ensures Framed(body', log', k)
      {
        assert log'[..k] == log[..k];
        assert Framed(body, log, k);
        LenMonotone(body, log, k + 1, c);
        LenStep(log, k);
        var p := Len(log[..k]);
        assert body'[p..p + RecordSize] == body[p..p + RecordSize];
      }
    }
  }

  // ---------------------------------------------------------------------------
  // Restoring the index from the file

  /** The replay loop's checks on a put: the descriptor records its own
      position and a positive offset and size. */
  predicate PutAccepted(st: State, r: KVRecord)
  {
    r.offset == st.info.size && r.offset > 0 && r.size > 0
  }

  /** Replays the body from byte pos onwards into st: a short descriptor is a
      system error, a tombstone removes its uid, a put is checked, indexed,
      and its value skipped. Reaching the end of the file ends the replay. */
  function RestoreFrom(body: seq<byte>, pos: nat, st: State): Result<State>
    decreases |body| - pos
  {
    if pos >= |body| then Ok(st)
    else if |body| - pos < RecordSize then Err(SystemError)
    else
      var r := DecodeKVRecord(body[pos..pos + RecordSize]);
      if r.offset < 0 then RestoreFrom(body, pos + RecordSize, Tombstone(st, r))
      else if !PutAccepted(st, r) then Err(AssertionFailed)
      else RestoreFrom(body, pos + RecordSize + r.size, Put(st, r))
  }

  /** Replaying a serialized log whose puts all carry a value restores exactly
      the state the log describes, from any record boundary onwards. */
  lemma {:induction false} RestoreFollowsLog(body: seq<byte>, log: seq<KVRecord>, k: nat)
    requires Serialized(body, log) && NonEmptyValues(log) && k <= |log|
    ensures Len(log[..k]) >= 0
    ensures RestoreFrom(body, Len(log[..k]), Replay(log[..k])) == Ok(Replay(log))
    decreases |log| - k
  {
    if k == |log| {
      assert log[..k] == log;
    } else {
      assert Framed(body, log, k);
      var p := Len(log[..k]);
      var r := log[k];
      DecodeEncodeKVRecord(r, []);
      assert body[p..p + RecordSize] == EncodeKVRecord(r) + [];
      ReplaySize(log[..k]);
      LenStep(log, k);
      RestoreFollowsLog(body, log, k + 1);
    }
  }

  /** Replaying a whole serialized log from the start gives its state back. */
  lemma RestoreReplays(body: seq<byte>, log: seq<KVRecord>)
    requires Serialized(body, log) && NonEmptyValues(log)
    ensures RestoreFrom(body, 0, Initial) == Ok(Replay(log))
  {
    RestoreFollowsLog(body, log, 0);
    assert log[..0] == [];
  }

  /** One turn of replay at the start of record k, unless it puts an empty
      value, goes on from the start of record k + 1 in the state after k. */
  lemma ReplayStep(body: seq<byte>, log: seq<KVRecord>, k: nat)
    requires Serialized(body, log) && k < |log| && (log[k].offset >= 0 ==> log[k].size > 0)
    requires Len(log[..k]) >= 0
    ensures Len(log[..k + 1]) >= 0
    ensures RestoreFrom(body, Len(log[..k]), Replay(log[..k])) == RestoreFrom(body, Len(log[..k + 1]), Replay(log[..k + 1]))
  {
    assert Framed(body, log, k);
    var p := Len(log[..k]);
    DecodeEncodeKVRecord(log[k], []);
    assert body[p..p + RecordSize] == EncodeKVRecord(log[k]) + [];
    ReplaySize(log[..k]);
    LenStep(log, k);
  }

  /** Replay reaches the start of record k in the state of the records
      before it, as long as none of those is a put of an empty value. */
  lemma {:induction false} RestoreReaches(body: seq<byte>, log: seq<KVRecord>, k: nat)
    requires Serialized(body, log) && k <= |log| && NonEmptyValues(log[..k])
    ensures Len(log[..k]) >= 0
    ensures RestoreFrom(body, 0, Initial) == RestoreFrom(body, Len(log[..k]), Replay(log[..k]))
    decreases k
  {
    if k == 0 {
      assert log[..0] == [];
    } else {
      assert NonEmptyValues(log[..k - 1]) by {
        forall i | 0 <= i < k - 1 ensures log[..k - 1][i] == log[..k][i] { }
      }
      assert log[..k][k - 1] == log[k - 1];
      RestoreReaches(body, log, k - 1);
      ReplayStep(body, log, k - 1);
    }
  }

  /** A put of an empty value anywhere in a serialized log makes replay fail:
      the check that a put has a positive size refuses the first such put. */
  lemma EmptyValueStopsReplay(body: seq<byte>, log: seq<KVRecord>)
    requires Serialized(body, log) && !NonEmptyValues(log)
    ensures RestoreFrom(body, 0, Initial) == Err(AssertionFailed)
  {
    var k := 0;
    while log[k].offset < 0 || log[k].size > 0
      invariant k < |log| && NonEmptyValues(log[..k])
      invariant exists i | k <= i < |log| :: log[i].offset >= 0 && log[i].size <= 0
      decreases |log| - k
    {
      assert NonEmptyValues(log[..k + 1]) by {
        forall i | 0 <= i < k + 1 ensures log[..k + 1][i] == log[i] { }
      }
      k := k + 1;
    }
    RestoreReaches(body, log, k);
    assert Framed(body, log, k);
    var p := Len(log[..k]);
    DecodeEncodeKVRecord(log[k], []);
    assert body[p..p + RecordSize] == EncodeKVRecord(log[k]) + [];
  }

  /** The replay loop of opening: reads descriptors until the end of the file. */
  method Restore(body: seq<byte>) returns (r: Result<State>)
    ensures r == RestoreFrom(body, 0, Initial)
    ensures forall log | Serialized(body, log) && NonEmptyValues(log) :: r == Ok(Replay(log))
  {
    var pos: nat := 0;
    var st := Initial;
    while pos < |body|
      invariant RestoreFrom(body, pos, st) == RestoreFrom(body, 0, Initial)
      decreases |body| - pos
    {
      if |body| - pos < RecordSize {
        r := Err(SystemError);
        forall log | Serialized(body, log) && NonEmptyValues(log) {
          RestoreReplays(body, log);
        }
        return;
      }
      var rec := DecodeKVRecord(body[pos..pos + RecordSize]);
      if rec.offset < 0 {
        st := Tombstone(st, rec);
        pos := pos + RecordSize;
      } else {
        if !PutAccepted(st, rec) {
          r := Err(AssertionFailed);
          forall log | Serialized(body, log) && NonEmptyValues(log) {
            RestoreReplays(body, log);
          }
          return;
        }
        st := Put(st, rec);
        pos := pos + RecordSize + rec.size;
      }
    }
    r := Ok(st);
    forall log | Serialized(body, log) && NonEmptyValues(log) {
      RestoreReplays(body, log);
    }
  }

  /** Opening a store: recovery from the sidecar, a check of the main header,
      then a replay that starts from empty counters. */
  function Reopen(main: StoreFile, snap: Option<HeaderBlock>): Result<State>
  {
    match Recover(main, snap).file
    case Err(e) => Err(e)
    case Ok(f) =>
      match LoadHeader(f.header)
      case Err(e) => Err(e)
      case Ok(_) => RestoreFrom(f.body, 0, Initial)
  }

  /** Opens the store: gives the state Reopen describes, and the sidecar
      left on disk, which is gone once recovery has dealt with it. */
  method Open(main: StoreFile, snap: Option<HeaderBlock>) returns (r: Result<State>, snapLeft: Option<HeaderBlock>)
    ensures r == Reopen(main, snap)
    ensures Recover(main, snap).file.Err? ==> r.Err? && snapLeft == snap
    ensures r.Ok? ==> snapLeft.None?
    ensures Recover(main, snap).file.Ok? ==> snapLeft.None?
    ensures main.header == Corrupted && (snap.None? || snap == Some(Corrupted)) ==> r == Err(FileCorrupted)
  {
    var recovered := Recover(main, snap);
    snapLeft := recovered.snap;
    if recovered.file.Err? {
      return Err(recovered.file.error), snapLeft;
    }
    var f := recovered.file.value;
    var loaded := LoadHeader(f.header);
    if loaded.Err? {
      return Err(loaded.error), snapLeft;
    }
    r := Restore(f.body);
  }

  /** A commit that stops after creating the sidecar and before copying the
      header into it leaves a sidecar too short to hold one. Opening then
      fails with a system error and leaves that sidecar where it is, so the
      next open finds it again and fails the same way. */
  lemma ShortSidecarBlocksOpen(main: StoreFile)
    ensures Reopen(main, Some(Short)) == Err(SystemError)
    ensures Recover(main, Some(Short)).snap == Some(Short)
  {
  }

  /** Every indexed record is keyed by its own uid, fits the on-disk widths
      and lies after the header. */
  ghost predicate IndexWellFormed(index: map<int, KVRecord>)
  {
    forall u | u in index :: index[u].uid == u && Representable(index[u]) && index[u].offset >= HeaderSize
  }

  /** The in-memory state agrees with the file: body serializes log, the state
      is the replay of log, the size counter is the file length and the
      live-record counter is the number of indexed uids. */
  ghost predicate Consistent(body: seq<byte>, log: seq<KVRecord>, st: State)
  {
    Serialized(body, log) && st == Replay(log) && st.info.size == HeaderSize + |body|
    && st.info.nRecords == |st.index| && IndexWellFormed(st.index)
  }

  /** Appending a put written at the end of the file keeps the store consistent. */
  lemma AppendPut(body: seq<byte>, log: seq<KVRecord>, st: State, uid: int, cont: seq<byte>)
    requires Consistent(body, log, st)
    requires IsU64(uid) && IsI64(st.info.size + RecordSize + |cont|)
    ensures Representable(KVRecord(uid, st.info.size, |cont|))
    ensures var rec := KVRecord(uid, st.info.size, |cont|);
      Consistent(body + EncodeKVRecord(rec) + cont, log + [rec], State(Put(st, rec).info, Put(st, rec).index))
  {
    var rec := KVRecord(uid, st.info.size, |cont|);
    SerializedAppend(body, log, rec, cont);
    PutKeepsCount(st, rec);
    LenStep(log + [rec], |log|);
    assert (log + [rec])[..|log|] == log;
  }

  /** Appending the tombstone of a live uid keeps the store consistent. */
  lemma AppendTombstone(body: seq<byte>, log: seq<KVRecord>, st: State, uid: int)
    requires Consistent(body, log, st) && uid in st.index
    ensures Representable(KVRecord(uid, -st.index[uid].offset, st.index[uid].size))
    ensures var tomb := KVRecord(uid, -st.index[uid].offset, st.index[uid].size);
      Consistent(body + EncodeKVRecord(tomb), log + [tomb], Tombstone(st, tomb))
  {
    var tomb := KVRecord(uid, -st.index[uid].offset, st.index[uid].size);
    SerializedAppend(body, log, tomb, []);
    TombstoneKeepsCount(st, tomb);
    LenStep(log + [tomb], |log|);
    assert (log + [tomb])[..|log|] == log;
    assert body + EncodeKVRecord(tomb) + [] == body + EncodeKVRecord(tomb);
  }

  /** Appending to the log leaves its earlier prefixes alone. */
  lemma PrefixUnchanged(log: seq<KVRecord>, r: KVRecord, c: nat)
    requires c <= |log|
    ensures (log + [r])[..c] == log[..c]
  {
  }

  /** The invariant of an open store, on its fields: the index and counters
      are the replay of the log written to the body, the header holds the
      counters of the first committed records, and a sidecar is present only
      during a commit, as a copy of the header. */
  ghost predicate StoreValid(header: HeaderBlock, body: seq<byte>, snap: Option<HeaderBlock>, info: StoreInfo,
                             index: map<int, KVRecord>, log: seq<KVRecord>, committed: nat)
  {
    Consistent(body, log, State(info, index))
    && committed <= |log|
    && header == Sealed(Replay(log[..committed]).info)
    && (snap.None? ==> committed == |log|)
    && (snap.Some? ==> snap == Some(header))
  }

  /** A put during a commit keeps the store's invariant. */
  lemma PutKeepsValid(header: HeaderBlock, body: seq<byte>, snap: Option<HeaderBlock>, info: StoreInfo,
                      index: map<int, KVRecord>, log: seq<KVRecord>, committed: nat, uid: int, cont: seq<byte>)
    requires StoreValid(header, body, snap, info, index, log, committed) && snap.Some?
    requires IsU64(uid) && IsI64(info.size + RecordSize + |cont|)
    ensures Representable(KVRecord(uid, info.size, |cont|))
    ensures var rec := KVRecord(uid, info.size, |cont|);
      StoreValid(header, body + EncodeKVRecord(rec) + cont, snap, Put(State(info, index), rec).info,
                 Put(State(info, index), rec).index, log + [rec], committed)
  {
    var rec := KVRecord(uid, info.size, |cont|);
    AppendPut(body, log, State(info, index), uid, cont);
    PrefixUnchanged(log, rec, committed);
  }

  /** A drop of a live uid during a commit keeps the store's invariant. */
  lemma DropKeepsValid(header: HeaderBlock, body: seq<byte>, snap: Option<HeaderBlock>, info: StoreInfo,
                       index: map<int, KVRecord>, log: seq<KVRecord>, committed: nat, uid: int)
    requires StoreValid(header, body, snap, info, index, log, committed) && snap.Some? && uid in index
    ensures Representable(KVRecord(uid, -index[uid].offset, index[uid].size))
    ensures var tomb := KVRecord(uid, -index[uid].offset, index[uid].size);
      StoreValid(header, body + EncodeKVRecord(tomb), snap, Tombstone(State(info, index), tomb).info,
                 Tombstone(State(info, index), tomb).index, log + [tomb], committed)
  {
    var tomb := KVRecord(uid, -index[uid].offset, index[uid].size);
    AppendTombstone(body, log, State(info, index), uid);
    PrefixUnchanged(log, tomb, committed);
  }

  // ---------------------------------------------------------------------------
  // The open store

  class KVStore {
    /** The header block on disk, rewritten only when a commit ends. */
    var header: HeaderBlock
    /** The file bytes after the header. */
    var body: seq<byte>
    /** The ".snap" sidecar, present while a commit is in progress. */
    var snap: Option<HeaderBlock>
    var info: StoreInfo
    var index: map<int, KVRecord>
    /** The records written so far, oldest first. */
    ghost var log: seq<KVRecord>
    /** How many records of the log the on-disk header covers. */
    ghost var committed: nat

    ghost predicate Valid()
      reads this
    {
      StoreValid(header, body, snap, info, index, log, committed)
    }

    /** A newly created store: an initial header and no record. */
    constructor Create()
      ensures Valid() && snap.None? && log == []
      ensures info == InitInfo && index == map[] && body == []
    {
      header := Sealed(InitInfo);
      body := [];
      snap := None;
      info := InitInfo;
      index := map[];
      log := [];
      committed := 0;
      new;
      assert log[..0] == [];
    }

    /** Starting a commit copies the header to the sidecar. */
    method StartCommit()
      requires Valid() && snap.None?
      modifies this`snap
      ensures Valid() && snap == Some(header)
      ensures info.size == HeaderSize + |body|
    {
      snap := Some(header);
    }

    /** Appends a put for uid with value cont; the index maps uid to the new
        record, which records the position where it is written. */
    method Update(uid: int, cont: seq<byte>)
      requires Valid() && snap.Some?
      requires IsU64(uid) && IsI64(info.size + RecordSize + |cont|)
      modifies this`body, this`info, this`index, this`log
      ensures Valid() && snap == old(snap)
      ensures var rec := KVRecord(uid, old(info.size), |cont|);
        index == old(index)[uid := rec]
        && body == old(body) + EncodeKVRecord(rec) + cont
        && log == old(log) + [rec]
      ensures info.size == old(info.size) + RecordSize + |cont| && info.nDels == old(info.nDels)
      ensures uid in old(index) ==>
        info.nRecords == old(info.nRecords) && info.tombSize == old(info.tombSize) + old(index)[uid].size
      ensures uid !in old(index) ==>
        info.nRecords == old(info.nRecords) + 1 && info.tombSize == old(info.tombSize)
    {
      var rec := KVRecord(uid, info.size, |cont|);
      var st := Put(State(info, index), rec);
      PutKeepsValid(header, body, snap, info, index, log, committed, uid, cont);
      body, info, index, log := body + EncodeKVRecord(rec) + cont, st.info, st.index, log + [rec];
      assert StoreValid(header, body, snap, info, index, log, committed);
    }

    /** Appends a tombstone for uid if it is live; an unknown uid fails and changes nothing. */
    method Drop(uid: int) returns (ok: bool)
      requires Valid() && snap.Some?
      modifies this`body, this`info, this`index, this`log
      ensures Valid() && snap == old(snap)
      ensures ok <==> uid in old(index)
      ensures !ok ==> body == old(body) && info == old(info) && index == old(index)
      ensures ok ==> (index == old(index) - {uid}
        && body == old(body) + EncodeKVRecord(KVRecord(uid, -old(index)[uid].offset, old(index)[uid].size))
        && info == StoreInfo(old(info.size) + RecordSize, old(info.tombSize) + old(index)[uid].size + 2 * RecordSize,
                             old(info.nRecords) - 1, old(info.nDels) + 1))
    {
      if uid !in index {
        return false;
      }
      var tomb := KVRecord(uid, -index[uid].offset, index[uid].size);
      var st := Tombstone(State(info, index), tomb);
      DropKeepsValid(header, body, snap, info, index, log, committed, uid);
      body, info, index, log := body + EncodeKVRecord(tomb), st.info, st.index, log + [tomb];
      ok := true;
    }

    /** Ending a commit writes the counters into the header and removes the sidecar. */
    method EndCommit()
      requires Valid() && snap.Some?
      modifies this`header, this`snap, this`committed
      ensures Valid() && snap.None? && header == Sealed(info)
    {
      header := Sealed(info);
      snap := None;
      committed := |log|;
      assert log[..|log|] == log;
    }

    /** When the process stops at any point between the store's operations,
        in a commit or not, recovering the file restores it as of the last
        completed commit; outside a commit that is the current state. A stop
        inside starting a commit is ShortSidecarBlocksOpen's case. */
    lemma RecoverRollsBack()
      requires Valid()
      ensures Recover(StoreFile(header, body), snap).file.Ok?
      ensures var f := Recover(StoreFile(header, body), snap).file.value;
        f.header == header && Serialized(f.body, log[..committed])
    {
      SerializedPrefix(body, log, committed);
      ReplaySize(log[..committed]);
      if snap.None? {
        assert log[..committed] == log;
      }
    }

    /** A store whose committed log holds a put of an empty value, which
        Update accepts, cannot be opened again: replay refuses that put. */
    lemma EmptyValueBlocksReopen()
      requires Valid() && !NonEmptyValues(log[..committed])
      ensures Reopen(StoreFile(header, body), snap) == Err(AssertionFailed)
    {
      RecoverRollsBack();
      var f := Recover(StoreFile(header, body), snap).file.value;
      EmptyValueStopsReplay(f.body, log[..committed]);
    }

    /** Opening the file of a store, mid-commit or not, gives back the state
        as of the last completed commit, provided every put committed carries
        a value; otherwise EmptyValueBlocksReopen applies. */
    method Reopened() returns (r: Result<State>, snapLeft: Option<HeaderBlock>)
      requires Valid() && NonEmptyValues(log)
      ensures r == Ok(Replay(log[..committed])) && snapLeft.None?
      ensures snap.None? ==> r == Ok(State(info, index))
    {
      RecoverRollsBack();
      var f := Recover(StoreFile(header, body), snap).file.value;
      assert NonEmptyValues(log[..committed]) by {
        forall k | 0 <= k < committed ensures log[..committed][k] == log[k] { }
      }
      RestoreReplays(f.body, log[..committed]);
      if snap.None? {
        assert log[..committed] == log;
      }
      r, snapLeft := Open(StoreFile(header, body), snap);
    }
  }
}
