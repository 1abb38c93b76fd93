// The parts of the current commit path that are complete: freezing the
// active memory table, skipping a commit with nothing in it, and walking the
// frozen table's per-table data side by side with the block index of the
// file set, both sorted by table id.

module TsdbLive {
  import opened Wrappers

  /** A table's id: the super table's uid and its own uid. */
  datatype TableId = TableId(suid: int, uid: int)

  /** Table ids in order: by super table uid, then by uid. */
  predicate Less(a: TableId, b: TableId)
  {
    a.suid < b.suid || (a.suid == b.suid && a.uid < b.uid)
  }

  /** Three-way comparison of table ids. */
  function CompareTableId(a: TableId, b: TableId): (c: int)
    ensures c == 0 <==> a == b
    ensures c < 0 <==> Less(a, b)
    ensures c > 0 <==> Less(b, a)
  {
    if a.suid < b.suid then -1
    else if a.suid > b.suid then 1
    else if a.uid < b.uid then -1
    else if a.uid > b.uid then 1
    else 0
  }

  lemma {:induction false} LessTransitive(a: TableId, b: TableId, c: TableId)
    requires Less(a, b) && Less(b, c)
    ensures Less(a, c)
  {
  }

  /** Ids in strictly increasing order. */
  predicate SortedIds(s: seq<TableId>)
  {
    forall i, j | 0 <= i < j < |s| :: Less(s[i], s[j])
  }

  /** An in-memory table: how many rows it holds, and the ids of the tables
      it has rows for, in order. */
  datatype MemTable = MemTable(nRow: int, tables: seq<TableId>)

  class Tsdb {
    /** The memory table taking writes, and the one frozen for a commit. */
    var mem: Option<MemTable>
    var imem: Option<MemTable>

    constructor (m: MemTable)
      ensures mem == Some(m) && imem == None
    {
      mem := Some(m);
      imem := None;
    }

    /** Freezes the active memory table for a commit: it becomes the frozen
        one and no table takes writes until a new one is made. */
    method StartCommit()
      requires mem.Some? && imem.None?
      modifies this
      ensures imem == old(mem) && mem == None
    {
      imem := mem;
      mem := None;
    }

    /** Whether a commit of the frozen table goes on to the data commit. */
    method CommitData() returns (proceeds: bool)
      requires imem.Some?
      ensures proceeds <==> imem.value.nRow != 0
    {
      if imem.value.nRow == 0 {
        return false;
      }
      return true;
    }

    /** A commit: freezes the active table, then goes on to the data commit
        exactly when the frozen table holds rows. What the data commit then
        does, deletes and the last-row cache are not part of this model. */
    method Commit() returns (proceeds: bool)
      requires mem.Some? && imem.None?
      modifies this
      ensures imem == old(mem) && mem == None
      ensures proceeds <==> old(mem).value.nRow != 0
    {
      StartCommit();
      proceeds := CommitData();
    }
  }

  /** One call that commits a table: its memory data, its old block index
      entry, or both when they are the same table. Fields are positions in
      the two input sequences. */
  datatype Step = Step(tb: Option<nat>, idx: Option<nat>)

  /** The positions of tables handed over, in order. */
  function Tbs(steps: seq<Step>): seq<nat>
  {
    if |steps| == 0 then []
    else Tbs(steps[..|steps| - 1]) + (if steps[|steps| - 1].tb.Some? then [steps[|steps| - 1].tb.value] else [])
  }

  /** The positions of old index entries handed over, in order. */
  function Idxs(steps: seq<Step>): seq<nat>
  {
    if |steps| == 0 then []
    else Idxs(steps[..|steps| - 1]) + (if steps[|steps| - 1].idx.Some? then [steps[|steps| - 1].idx.value] else [])
  }

  /** The positions 0 to n - 1 in order. */
  function Upto(n: nat): (s: seq<nat>)
    ensures |s| == n && forall i | 0 <= i < n :: s[i] == i
  {
    if n == 0 then [] else Upto(n - 1) + [n - 1]
  }

  /** Handing over one more step extends the positions handed over by the
      table and the entry it names, which must be the next ones. */
  lemma HandOver(steps: seq<Step>, st: Step, i: nat, j: nat)
    requires Tbs(steps) == Upto(i) && Idxs(steps) == Upto(j)
    requires (st.tb.Some? ==> st.tb.value == i) && (st.idx.Some? ==> st.idx.value == j)
    ensures Tbs(steps + [st]) == Upto(if st.tb.Some? then i + 1 else i)
    ensures Idxs(steps + [st]) == Upto(if st.idx.Some? then j + 1 else j)
  {
    assert (steps + [st])[..|steps|] == steps;
  }

  /** Walks the frozen tables and the old block index entries in id order,
      pairing a table with its old entry when their ids match. Every table and
      every old entry is handed over exactly once, in order, at most
      |tbs| + |idxs| steps are taken, and a step pairs the two only for equal
      ids. With both inputs sorted, a table and an entry with the same id are
      always handed over together. */
  method CommitFileDataImpl(tbs: seq<TableId>, idxs: seq<TableId>) returns (steps: seq<Step>)
    ensures |steps| <= |tbs| + |idxs|
    ensures Tbs(steps) == Upto(|tbs|) && Idxs(steps) == Upto(|idxs|)
    ensures forall k | 0 <= k < |steps| :: steps[k].tb.Some? || steps[k].idx.Some?
    ensures forall k | 0 <= k < |steps| && steps[k].tb.Some? && steps[k].idx.Some? ::
      steps[k].tb.value < |tbs| && steps[k].idx.value < |idxs| && tbs[steps[k].tb.value] == idxs[steps[k].idx.value]
    ensures SortedIds(tbs) && SortedIds(idxs) ==>
      forall i, j | 0 <= i < |tbs| && 0 <= j < |idxs| && tbs[i] == idxs[j] :: Step(Some(i), Some(j)) in steps
  {
    var iTbData, iBlockIdx := 0, 0;
    steps := [];
    ghost var sorted := SortedIds(tbs) && SortedIds(idxs);
    while iTbData < |tbs| || iBlockIdx < |idxs|
      invariant 0 <= iTbData <= |tbs| && 0 <= iBlockIdx <= |idxs|
      invariant |steps| <= iTbData + iBlockIdx
      invariant Tbs(steps) == Upto(iTbData) && Idxs(steps) == Upto(iBlockIdx)
      invariant forall k | 0 <= k < |steps| :: steps[k].tb.Some? || steps[k].idx.Some?
      invariant forall k | 0 <= k < |steps| && steps[k].tb.Some? && steps[k].idx.Some? ::
        steps[k].tb.value < |tbs| && steps[k].idx.value < |idxs| && tbs[steps[k].tb.value] == idxs[steps[k].idx.value]
      invariant sorted ==> Matched(tbs, idxs, iTbData, iBlockIdx, steps)
      decreases |tbs| + |idxs| - iTbData - iBlockIdx
    {
      var tb: Option<nat> := if iTbData < |tbs| then Some(iTbData) else None;
      var idx: Option<nat> := if iBlockIdx < |idxs| then Some(iBlockIdx) else None;
      ghost var i0, j0, steps0 := iTbData, iBlockIdx, steps;
      if tb.Some? && idx.Some? {
        var c := CompareTableId(tbs[iTbData], idxs[iBlockIdx]);
        if c == 0 {
          iTbData, iBlockIdx := iTbData + 1, iBlockIdx + 1;
        } else if c < 0 {
          iTbData := iTbData + 1;
          idx := None;
        } else {
          iBlockIdx := iBlockIdx + 1;
          tb := None;
        }
      } else {
        if tb.Some? {
          iTbData := iTbData + 1;
        } else {
          iBlockIdx := iBlockIdx + 1;
        }
      }
      HandOver(steps, Step(tb, idx), i0, j0);
      steps := steps + [Step(tb, idx)];
      if sorted {
        if tb.Some? && idx.Some? {
          MatchedPair(tbs, idxs, i0, j0, steps0);
        } else if tb.Some? {
          MatchedTable(tbs, idxs, i0, j0, steps0);
        } else {
          MatchedIndex(tbs, idxs, i0, j0, steps0);
        }
      }
    }
  }

  /** No table handed over shares its id with an old entry not yet handed
      over, and no old entry handed over with a table not yet handed over. */
  ghost predicate NoCross(tbs: seq<TableId>, idxs: seq<TableId>, i: nat, j: nat)
  {
    (forall x, y | 0 <= x < i && j <= y < |idxs| && x < |tbs| :: tbs[x] != idxs[y])
    && (forall x, y | i <= x < |tbs| && 0 <= y < j && y < |idxs| :: tbs[x] != idxs[y])
  }

  /** Every table and old entry handed over with the same id went in one step. */
  ghost predicate Paired(tbs: seq<TableId>, idxs: seq<TableId>, i: nat, j: nat, steps: seq<Step>)
    requires i <= |tbs| && j <= |idxs|
  {
    forall x, y | 0 <= x < i && 0 <= y < j && tbs[x] == idxs[y] :: Step(Some(x), Some(y)) in steps
  }

  ghost predicate Matched(tbs: seq<TableId>, idxs: seq<TableId>, i: nat, j: nat, steps: seq<Step>)
    requires i <= |tbs| && j <= |idxs|
  {
    NoCross(tbs, idxs, i, j) && Paired(tbs, idxs, i, j, steps)
  }

  /** Handing over a table with the old entry of the same id keeps every match paired. */
  lemma MatchedPair(tbs: seq<TableId>, idxs: seq<TableId>, i: nat, j: nat, steps: seq<Step>)
    requires SortedIds(tbs) && SortedIds(idxs)
    requires i < |tbs| && j < |idxs| && tbs[i] == idxs[j]
    requires Matched(tbs, idxs, i, j, steps)
    ensures Matched(tbs, idxs, i + 1, j + 1, steps + [Step(Some(i), Some(j))])
  {
    forall x, y | 0 <= x < i + 1 && j + 1 <= y < |idxs| && x < |tbs|
      ensures tbs[x] != idxs[y]
    {
      if x == i {
        assert Less(idxs[j], idxs[y]);
      }
    }
    forall x, y | i + 1 <= x < |tbs| && 0 <= y < j + 1 && y < |idxs|
      ensures tbs[x] != idxs[y]
    {
      if y == j {
        assert Less(tbs[i], tbs[x]);
      }
    }
  }

  /** Handing over a table alone, when its id is below the next old entry's
      or no old entries are left, keeps every match paired. */
  lemma MatchedTable(tbs: seq<TableId>, idxs: seq<TableId>, i: nat, j: nat, steps: seq<Step>)
    requires SortedIds(tbs) && SortedIds(idxs)
    requires i < |tbs| && j <= |idxs| && (j == |idxs| || Less(tbs[i], idxs[j]))
    requires Matched(tbs, idxs, i, j, steps)
    ensures Matched(tbs, idxs, i + 1, j, steps + [Step(Some(i), None)])
  {
    forall x, y | 0 <= x < i + 1 && j <= y < |idxs| && x < |tbs|
      ensures tbs[x] != idxs[y]
    {
      if x == i && y > j {
        LessTransitive(tbs[i], idxs[j], idxs[y]);
      }
    }
  }

  /** Handing over an old entry alone, when its id is below the next table's
      or no tables are left, keeps every match paired. */
  lemma MatchedIndex(tbs: seq<TableId>, idxs: seq<TableId>, i: nat, j: nat, steps: seq<Step>)
    requires SortedIds(tbs) && SortedIds(idxs)
    requires i <= |tbs| && j < |idxs| && (i == |tbs| || Less(idxs[j], tbs[i]))
    requires Matched(tbs, idxs, i, j, steps)
    ensures Matched(tbs, idxs, i, j + 1, steps + [Step(None, Some(j))])
  {
    forall x, y | i <= x < |tbs| && 0 <= y < j + 1 && y < |idxs|
      ensures tbs[x] != idxs[y]
    {
      if y == j && x > i {
        LessTransitive(idxs[j], tbs[i], tbs[x]);
      }
    }
  }
}
