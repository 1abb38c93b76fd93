// The key-value store operations as the source writes them, where they
// differ from the behaviour the rest of the model uses, each with an input
// that shows the difference.

module KvFindings {
  import opened Wrappers
  import opened KvCodec
  import opened KvStore

  /** Counter update of a put as written: a uid found in the index counts as a
      new record, and a uid not found dereferences the missing record (None). */
  function UpdateCountersAsWritten(st: State, r: KVRecord): Option<State>
  {
    var info := st.info.(size := st.info.size + RecordSize + r.size);
    if r.uid in st.index then Some(State(info.(nRecords := info.nRecords + 1), st.index[r.uid := r]))
    else None
  }

  /** Putting a new uid into an empty store fails as written, and putting a
      uid a second time counts two live records for one indexed uid. */
  lemma UpdateCountersInverted()
    ensures UpdateCountersAsWritten(Initial, KVRecord(7, HeaderSize, 1)).None?
    ensures var once := Put(Initial, KVRecord(7, HeaderSize, 1));
      var twice := UpdateCountersAsWritten(once, KVRecord(7, HeaderSize + RecordSize + 1, 1));
      twice.Some? && twice.value.info.nRecords == 2 && |twice.value.index| == 1
  {
    var once := Put(Initial, KVRecord(7, HeaderSize, 1));
    assert once.index.Keys == {7};
    var twice := UpdateCountersAsWritten(once, KVRecord(7, HeaderSize + RecordSize + 1, 1));
    assert twice.value.index.Keys == {7};
  }

  /** The file body after a put as written: only the value bytes are appended,
      although the size counter grows by a descriptor as well. */
  function UpdateBodyAsWritten(body: seq<byte>, cont: seq<byte>): seq<byte>
  {
    body + cont
  }

  /** After one put as written into a new store the size counter exceeds the
      file length by a descriptor, and replaying the file fails on a short
      descriptor read. */
  lemma UpdateWritesNoDescriptor()
    ensures var body := UpdateBodyAsWritten([], [1]);
      Put(Initial, KVRecord(7, HeaderSize, 1)).info.size == HeaderSize + |body| + RecordSize
      && RestoreFrom(body, 0, Initial) == Err(SystemError)
  {
  }

  /** A put during replay as written: always one more live record, never any dead bytes. */
  function ReplayPutAsWritten(st: State, r: KVRecord): State
  {
    State(st.info.(size := st.info.size + RecordSize + r.size, nRecords := st.info.nRecords + 1),
          st.index[r.uid := r])
  }

  /** Replaying two puts of the same uid as written counts two live records
      for one indexed uid, and no dead byte for the value overwritten. The
      model's replay counts one record and that value's byte as dead, as the
      counters of the corrected put are kept. */
  lemma ReplayCountsOverwrites()
    ensures var st := ReplayPutAsWritten(ReplayPutAsWritten(Initial, KVRecord(7, HeaderSize, 1)),
                                         KVRecord(7, HeaderSize + RecordSize + 1, 1));
      st.info.nRecords == 2 && st.info.tombSize == 0 && |st.index| == 1
    ensures var st := Put(Put(Initial, KVRecord(7, HeaderSize, 1)), KVRecord(7, HeaderSize + RecordSize + 1, 1));
      st.info.nRecords == 1 && st.info.tombSize == 1 && |st.index| == 1
  {
    var st := ReplayPutAsWritten(ReplayPutAsWritten(Initial, KVRecord(7, HeaderSize, 1)),
                                 KVRecord(7, HeaderSize + RecordSize + 1, 1));
    assert st.index.Keys == {7};
  }

  /** The replay loop's position check as written, applied before telling tombstones from puts. */
  predicate PositionCheckAsWritten(st: State, r: KVRecord)
  {
    st.info.size == r.offset
  }

  /** In every consistent store, the tombstone a drop writes fails the position
      check as written when the file is replayed. */
  lemma TombstoneFailsPositionCheck(body: seq<byte>, log: seq<KVRecord>, st: State, uid: int)
    requires Consistent(body, log, st) && uid in st.index
    ensures !PositionCheckAsWritten(st, KVRecord(uid, -st.index[uid].offset, st.index[uid].size))
  {
    assert IndexWellFormed(st.index);
    assert st.index[uid].offset >= HeaderSize;
  }
}
