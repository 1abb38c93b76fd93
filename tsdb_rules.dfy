// Values and pure decision rules of the time-series commit engine: rows,
// blocks and merge statistics, the key-versus-block comparison, the
// sub-block eligibility test, data-file versus last-file placement, reuse
// of the files of an existing file set, and the choice of the next file id.

module TsdbRules {
  import opened Wrappers

  /** The largest signed 64-bit timestamp, used as "no more keys". */
  const KeyMax: int := 0x7fff_ffff_ffff_ffff
  /** The smallest signed 64-bit timestamp, used as "no row yet". */
  const KeyMin: int := -0x8000_0000_0000_0000

  /** A real row key lies strictly between the two sentinels. */
  predicate ValidKey(k: int) { KeyMin < k < KeyMax }

  /** The most sub-blocks one super-block may have. */
  const MaxSubBlocks: nat := 8

  /** A last file smaller than this is appended to instead of rewritten. */
  const LastFileReuseLimit: nat := 32 * 1024

  /** Storage configuration of a vnode: block row bounds and whether rows with
      an existing key update it. */
  datatype Config = Config(minRows: int, maxRows: int, update: bool)

  /** The largest 32-bit signed integer: the widest row count and the read
      limit that means "no limit". */
  const Int32Max: int := 0x7fff_ffff

  predicate ValidConfig(cfg: Config)
  {
    0 < cfg.minRows <= cfg.maxRows && 2 <= cfg.maxRows <= Int32Max
  }

  /** Rows a commit puts into one new block: four fifths of the maximum. */
  function DefaultRows(cfg: Config): (n: int)
    requires ValidConfig(cfg)
    ensures 0 < n < cfg.maxRows
  {
    cfg.maxRows * 4 / 5
  }

  /** A row of a table: its timestamp key, whether it deletes the key, and
      the rest of its content. */
  datatype Row = Row(key: int, deleted: bool, payload: int)

  /** A row of a block being built: its key and the rows merged into it, in
      the order they were merged. */
  datatype Built = Built(key: int, versions: seq<Row>)

  /** Memory rows come out of the table iterator in key order; a key may repeat. */
  predicate SortedRows(s: seq<Row>)
  {
    forall i, j | 0 <= i <= j < |s| :: s[i].key <= s[j].key
  }

  /** Every row has a real key, strictly between the two sentinels. */
  predicate RowKeysValid(s: seq<Row>)
  {
    forall i | 0 <= i < |s| :: ValidKey(s[i].key)
  }

  /** Rows built in strictly increasing key order. */
  predicate IncreasingBuilt(t: seq<Built>)
  {
    forall i, j | 0 <= i < j < |t| :: t[i].key < t[j].key
  }

  /** The keys of the rows built. */
  function BuiltKeys(t: seq<Built>): set<int>
  {
    set b | b in t :: b.key
  }

  /** Merges row r into the last built row, if there is one. */
  function MergeLast(t: seq<Built>, r: Row): seq<Built>
  {
    if |t| == 0 then t else t[..|t| - 1] + [Built(t[|t| - 1].key, t[|t| - 1].versions + [r])]
  }

  /** Merging into the last built row changes only its versions. */
  lemma MergeLastKeeps(t: seq<Built>, r: Row)
    requires |t| > 0
    ensures |MergeLast(t, r)| == |t|
    ensures forall i | 0 <= i < |t| :: MergeLast(t, r)[i].key == t[i].key
    ensures forall i | 0 <= i < |t| - 1 :: MergeLast(t, r)[i] == t[i]
    ensures MergeLast(t, r)[|t| - 1].versions == t[|t| - 1].versions + [r]
    ensures BuiltKeys(MergeLast(t, r)) == BuiltKeys(t)
  {
    var m := MergeLast(t, r);
    forall x | x in BuiltKeys(t) ensures x in BuiltKeys(m) {
      var b :| b in t && b.key == x;
      var i :| 0 <= i < |t| && t[i] == b;
      assert m[i].key == x;
    }
  }

  /** The index record of a block of rows in a data or last file. A super-block
      with more than one sub-block has its sub-blocks' records at offset. */
  datatype Block = Block(minKey: int, maxKey: int, numOfRows: int, numOfSubBlocks: int,
                         last: bool, offset: int, numOfCols: int, numOfBSma: int, aggrStat: bool)

  /** Statistics of merging memory rows into the keys of a block. */
  datatype MergeInfo = MergeInfo(rowsInserted: int, rowsUpdated: int, rowsDeleteSucceed: int,
                                 rowsDeleteFailed: int, nOperations: int, keyFirst: int, keyLast: int)

  /** Where a key falls relative to a block's key range. */
  function ComparKeyBlock(key: int, b: Block): (c: int)
    ensures c == -1 || c == 0 || c == 1
    ensures c == -1 <==> key < b.minKey
    ensures c == 0 <==> b.minKey <= key <= b.maxKey
    ensures c == 1 <==> b.minKey <= key && b.maxKey < key
  {
    if key < b.minKey then -1 else if key > b.maxKey then 1 else 0
  }

  /** On a block whose range is not empty, the comparison places a key before,
      inside or after the range, by the range bounds alone. */
  lemma ComparKeyBlockOrders(key: int, b: Block)
    requires b.minKey <= b.maxKey
    ensures ComparKeyBlock(key, b) == 1 <==> key > b.maxKey
    ensures ComparKeyBlock(key, b) <= 0 <==> key <= b.maxKey
  {
  }

  /** A block of this many rows may be written to the data file, or to the
      last file when last is set. */
  predicate Placeable(rows: int, last: bool, cfg: Config)
  {
    0 < rows <= cfg.maxRows && (last ==> rows < cfg.minRows)
  }

  /** Rows of a block after merging memory rows into it. */
  function MergeRows(b: Block, info: MergeInfo): int
  {
    b.numOfRows + info.rowsInserted - info.rowsDeleteSucceed
  }

  /** Whether the memory rows merging into block b may be written as one more
      sub-block, instead of rewriting the block. */
  predicate CanAddSubBlock(b: Block, info: MergeInfo, cfg: Config, isLFileSame: bool, isDFileSame: bool)
    requires MergeRows(b, info) > 0
  {
    if b.numOfSubBlocks < MaxSubBlocks && info.nOperations <= cfg.maxRows then
      if b.last then isLFileSame && MergeRows(b, info) < cfg.minRows
      else isDFileSame && MergeRows(b, info) <= cfg.maxRows
    else false
  }

  /** A sub-block is added only while the block has fewer than eight of them,
      only into a file the commit appends to, and only when the merged block
      is still placeable where the old one was. */
  lemma SubBlockKeepsPlacement(b: Block, info: MergeInfo, cfg: Config, lSame: bool, dSame: bool)
    requires ValidConfig(cfg) && MergeRows(b, info) > 0
    requires CanAddSubBlock(b, info, cfg, lSame, dSame)
    ensures b.numOfSubBlocks + 1 <= MaxSubBlocks && info.nOperations <= cfg.maxRows
    ensures if b.last then lSame else dSame
    ensures Placeable(MergeRows(b, info), b.last, cfg)
  {
  }

  /** Whether block b lies in a file the commit appends to. */
  function IsSameFile(b: Block, isLFileSame: bool, isDFileSame: bool): bool
  {
    if b.last then isLFileSame else isDFileSame
  }

  /** Which files of an existing file set a commit writes into. */
  datatype FileSetup = FileSetup(newSet: bool, isDFileSame: bool, isLFileSame: bool)

  /** The decision made when opening the files of file id fid for a commit:
      existing is the level of the file set already holding fid, if any, and
      lastSize the size of its last file. A missing set, or one on a lower
      level than the disk chosen, gets a new set; otherwise the data file is
      appended to and the last file only while it is small. */
  function SetupCommitFiles(existing: Option<int>, diskLevel: int, lastSize: int): (s: FileSetup)
    ensures s.newSet <==> existing.None? || diskLevel > existing.value
    ensures s.isDFileSame <==> !s.newSet
    ensures s.isLFileSame <==> !s.newSet && lastSize < LastFileReuseLimit
  {
    if existing.None? || diskLevel > existing.value then FileSetup(true, false, false)
    else FileSetup(false, true, lastSize < LastFileReuseLimit)
  }

  /** The file id of a key: the number of whole file spans since time zero,
      rounded down for keys before it. */
  function FileId(key: int, span: int): int
    requires span > 0
  {
    key / span
  }

  lemma FileIdBounds(key: int, span: int)
    requires span > 0
    ensures FileId(key, span) * span <= key < (FileId(key, span) + 1) * span
  {
  }

  lemma {:induction false} FileIdMonotone(a: int, b: int, span: int)
    requires span > 0 && a <= b
    ensures FileId(a, span) <= FileId(b, span)
  {
    FileIdBounds(a, span);
    FileIdBounds(b, span);
  }

  /** The next file id to commit: the smallest file id among the next keys of
      the table iterators, skipping exhausted ones; None when all are. */
  method NextCommitFid(nextKeys: seq<Option<int>>, span: int) returns (fid: Option<int>)
    requires span > 0
    ensures fid.None? <==> forall i | 0 <= i < |nextKeys| :: nextKeys[i].None?
    ensures fid.Some? ==> exists i | 0 <= i < |nextKeys| :: nextKeys[i].Some? && fid.value == FileId(nextKeys[i].value, span)
    ensures fid.Some? ==> forall i | 0 <= i < |nextKeys| && nextKeys[i].Some? :: fid.value <= FileId(nextKeys[i].value, span)
  {
    fid := None;
    var i := 0;
    while i < |nextKeys|
      invariant 0 <= i <= |nextKeys|
      invariant fid.None? <==> forall x | 0 <= x < i :: nextKeys[x].None?
      invariant fid.Some? ==> exists x | 0 <= x < i :: nextKeys[x].Some? && fid.value == FileId(nextKeys[x].value, span)
      invariant fid.Some? ==> forall x | 0 <= x < i && nextKeys[x].Some? :: fid.value <= FileId(nextKeys[x].value, span)
    {
      if nextKeys[i].Some? {
        var tfid := FileId(nextKeys[i].value, span);
        if fid.None? || fid.value > tfid {
          fid := Some(tfid);
        }
      }
      i := i + 1;
    }
  }
}
