// The memory read as the source writes it, without the two corrections the
// model of the read carries, and inputs on which it differs from the
// corrected read.

module TsdbLoadFindings {
  import opened TsdbRules
  import opened TsdbLoad

  /** The result of a read: its statistics, the memory rows consumed and the
      rows built. */
  datatype Loaded = Loaded(info: MergeInfo, consumed: nat, target: seq<Built>)

  /** The read as written: one step per memory row or disk key, starting at
      memory row j and disk key fi. Equal live rows without duplicates are
      discarded without remembering their key, and the row limit is checked
      before the duplicate test. */
  function LoadAsWritten(mem: seq<Row>, maxKey: int, maxRowsToRead: int, collect: bool, maxPoints: int,
                         filter: seq<int>, keepDup: bool,
                         j: nat, fi: nat, info: MergeInfo, lastKey: int, target: seq<Built>): (r: Loaded)
    requires j <= |mem| && fi <= |filter|
    ensures j <= r.consumed <= |mem|
    decreases |mem| - j + |filter| - fi
  {
    var rowKey := if j < |mem| && mem[j].key <= maxKey then mem[j].key else KeyMax;
    var isRowDel := j < |mem| && mem[j].key <= maxKey && mem[j].deleted;
    var fKey := if fi < |filter| then filter[fi] else KeyMax;
    if fKey == KeyMax && rowKey == KeyMax then Loaded(info, j, target)
    else if fKey < rowKey then
      if fi < |filter| then
        LoadAsWritten(mem, maxKey, maxRowsToRead, collect, maxPoints, filter, keepDup,
                      j, fi + 1, WithKey(info, fKey), lastKey, target)
      else Loaded(info, j, target)
    else if j >= |mem| then Loaded(info, j, target)
    else if fKey > rowKey then
      if isRowDel then
        LoadAsWritten(mem, maxKey, maxRowsToRead, collect, maxPoints, filter, keepDup,
                      j + 1, fi, DeleteFailed(info), lastKey, target)
      else if info.rowsInserted - info.rowsDeleteSucceed >= maxRowsToRead then Loaded(info, j, target)
      else if collect && info.nOperations >= maxPoints then Loaded(info, j, target)
      else if lastKey != rowKey then
        LoadAsWritten(mem, maxKey, maxRowsToRead, collect, maxPoints, filter, keepDup, j + 1, fi,
                      Inserted(info, rowKey),
                      rowKey, Emit(collect, target, mem[j]))
      else
        LoadAsWritten(mem, maxKey, maxRowsToRead, collect, maxPoints, filter, keepDup, j + 1, fi, info, lastKey,
                      if keepDup && collect then MergeLast(target, mem[j]) else target)
    else if fi >= |filter| then Loaded(info, j, target)
    else if isRowDel then
      if collect && info.nOperations >= maxPoints then Loaded(info, j, target)
      else
        LoadAsWritten(mem, maxKey, maxRowsToRead, collect, maxPoints, filter, keepDup, j + 1, fi + 1,
                      DeleteSucceeded(info),
                      lastKey, target)
    else if keepDup then
      if collect && info.nOperations >= maxPoints then Loaded(info, j, target)
      else if lastKey != rowKey then
        LoadAsWritten(mem, maxKey, maxRowsToRead, collect, maxPoints, filter, keepDup, j + 1, fi + 1,
                      Updated(info, rowKey),
                      rowKey, Emit(collect, target, mem[j]))
      else
        LoadAsWritten(mem, maxKey, maxRowsToRead, collect, maxPoints, filter, keepDup, j + 1, fi + 1, info, lastKey,
                      if collect then MergeLast(target, mem[j]) else target)
    else
      LoadAsWritten(mem, maxKey, maxRowsToRead, collect, maxPoints, filter, keepDup, j + 1, fi + 1,
                    WithKey(info, fKey), lastKey, target)
  }

  /** A read as written from its start. */
  function ReadAsWritten(mem: seq<Row>, maxKey: int, maxRowsToRead: int, collect: bool, maxPoints: int,
                         filter: seq<int>, keepDup: bool, j: nat): (r: Loaded)
    requires j <= |mem|
    ensures j <= r.consumed <= |mem|
  {
    LoadAsWritten(mem, maxKey, maxRowsToRead, collect, maxPoints, filter, keepDup, j, 0,
                  MergeInfo(0, 0, 0, 0, 0, KeyMax, KeyMin), KeyMin, [])
  }

  const DupKeyMem: seq<Row> := [Row(5, false, 0), Row(5, false, 1)]

  /** Two memory rows of a disk key, without duplicates updating: as written
      the second row counts as an insert and is built, although the disk row
      of its key is kept. The corrected read inserts nothing here. */
  lemma {:induction false} DiscardedKeyAsWritten()
    ensures ReadAsWritten(DupKeyMem, 10, 4, true, 10, [5], false, 0).info.rowsInserted == 1
    ensures ReadAsWritten(DupKeyMem, 10, 4, true, 10, [5], false, 0).target == [Built(5, [DupKeyMem[1]])]
    ensures InsertedKeys(DupKeyMem, [5]) == {}
  {
    var i0 := MergeInfo(0, 0, 0, 0, 0, KeyMax, KeyMin);
    var i1 := WithKey(i0, 5);
    var i2 := WithKey(i1.(rowsInserted := 1, nOperations := 1), 5);
    assert LoadAsWritten(DupKeyMem, 10, 4, true, 10, [5], false, 2, 1, i2, 5, [Built(5, [DupKeyMem[1]])])
      == Loaded(i2, 2, [Built(5, [DupKeyMem[1]])]);
    assert LoadAsWritten(DupKeyMem, 10, 4, true, 10, [5], false, 1, 1, i1, KeyMin, [])
      == Loaded(i2, 2, [Built(5, [DupKeyMem[1]])]);
    assert ReadAsWritten(DupKeyMem, 10, 4, true, 10, [5], false, 0) == Loaded(i2, 2, [Built(5, [DupKeyMem[1]])]);
    assert DupKeyMem[..1] == [DupKeyMem[0]];
    assert LiveKeys(DupKeyMem[..1]) == {5};
    assert LiveKeys(DupKeyMem) == {5};
    assert MatchedLive(DupKeyMem[..1], [5]) == {5};
    assert MatchedLive(DupKeyMem, [5]) == {5};
  }

  /** A read of at most one row over two rows of one key, with duplicates
      updating: as written it stops after the first row, and the next read
      builds the second row under the same key again, so two consecutive
      blocks share the key. The corrected read merges both rows into one. */
  lemma {:induction false} SplitDuplicateAsWritten()
    ensures ReadAsWritten(DupKeyMem, 10, 1, true, 10, [], true, 0).consumed == 1
    ensures ReadAsWritten(DupKeyMem, 10, 1, true, 10, [], true, 0).target == [Built(5, [DupKeyMem[0]])]
    ensures ReadAsWritten(DupKeyMem, 10, 1, true, 10, [], true, 1).target == [Built(5, [DupKeyMem[1]])]
  {
    var i0 := MergeInfo(0, 0, 0, 0, 0, KeyMax, KeyMin);
    var i1 := WithKey(i0.(rowsInserted := 1, nOperations := 1), 5);
    assert LoadAsWritten(DupKeyMem, 10, 1, true, 10, [], true, 1, 0, i1, 5, [Built(5, [DupKeyMem[0]])])
      == Loaded(i1, 1, [Built(5, [DupKeyMem[0]])]);
    assert LoadAsWritten(DupKeyMem, 10, 1, true, 10, [], true, 2, 0, i1, 5, [Built(5, [DupKeyMem[1]])])
      == Loaded(i1, 2, [Built(5, [DupKeyMem[1]])]);
  }
}
