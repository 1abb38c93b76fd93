// Committing the memory rows of one table into the files of one file id, in
// the earlier commit path: the table's blocks already on disk are visited in
// key order, and each is moved as it is, given one more sub-block holding the
// memory rows that fall into it, or rewritten merged with them; memory rows
// between blocks are written as blocks of their own. The records of the
// blocks written are gathered as super-blocks and sub-blocks and written as
// the table's block-info part of the head file, indexed by one entry.

module TsdbCommit {
  import opened Wrappers
  import opened TsdbRules
  import opened TsdbMerge
  import opened TsdbLoad
  import opened TsdbMergeCache
  import opened TsdbBlock
  import TsdbLoadFindings

  // ---------------------------------------------------------------------
  // How many rows a read builds

  /** The keys of a disk block's rows, the filter its memory rows are read against. */
  function KeysOf(rows: seq<Row>): (f: seq<int>)
    ensures |f| == |rows| && forall i | 0 <= i < |rows| :: f[i] == rows[i].key
  {
    seq(|rows|, i requires 0 <= i < |rows| => rows[i].key)
  }

  lemma KeysOfValid(rows: seq<Row>)
    requires DiskSorted(rows) && RowKeysValid(rows)
    ensures IncreasingKeys(KeysOf(rows)) && KeysValid(KeysOf(rows))
  {
    var f := KeysOf(rows);
    forall i, j | 0 <= i < j < |f|
      ensures KeyAt(f, i) < KeyAt(f, j)
    {
    }
  }

  /** Rows built in increasing key order have as many keys as rows. */
  lemma {:induction false} BuiltSize(t: seq<Built>)
    requires IncreasingBuilt(t)
    ensures |BuiltKeys(t)| == |t|
  {
    if |t| > 0 {
      var init, b := t[..|t| - 1], t[|t| - 1];
      assert IncreasingBuilt(init);
      BuiltSize(init);
      assert t == init + [b];
      assert BuiltKeys(t) == BuiltKeys(init) + {b.key};
      assert b.key !in BuiltKeys(init);
    }
  }

  /** Without disk keys no key is matched. */
  lemma {:induction false} NoFilter(s: seq<Row>)
    ensures MatchedLive(s, []) == {} && MatchedDeleted(s, []) == {}
  {
    if |s| > 0 {
      NoFilter(s[..|s| - 1]);
    }
  }

  /** A key is matched by its first row only, which is live or deletes, so
      no key is matched both ways; every matched key is a disk key, at or
      below the last row's. */
  lemma {:induction false} MatchedApart(s: seq<Row>, f: seq<int>)
    requires SortedRows(s)
    ensures MatchedLive(s, f) !! MatchedDeleted(s, f)
    ensures forall k | k in MatchedLive(s, f) + MatchedDeleted(s, f) :: k in f
    ensures |s| > 0 ==> forall k | k in MatchedLive(s, f) + MatchedDeleted(s, f) :: k <= s[|s| - 1].key
  {
    if |s| > 0 {
      var init, r := s[..|s| - 1], s[|s| - 1];
      assert SortedRows(init);
      MatchedApart(init, f);
      var opens := OpensKey(s, |s| - 1) && r.key in f;
      assert MatchedLive(s, f) == MatchedLive(init, f) + (if opens && !r.deleted then {r.key} else {});
      assert MatchedDeleted(s, f) == MatchedDeleted(init, f) + (if opens && r.deleted then {r.key} else {});
      if |init| > 0 {
        assert init[|init| - 1].key <= r.key;
        if opens {
          assert init[|init| - 1].key < r.key;
          assert r.key !in MatchedLive(init, f) + MatchedDeleted(init, f);
        }
        forall k | k in MatchedLive(s, f) + MatchedDeleted(s, f)
          ensures k <= r.key
        {
          if k != r.key {
            assert k in MatchedLive(init, f) + MatchedDeleted(init, f);
          }
        }
      } else {
        NoMatch(init, f);
      }
    }
  }

  lemma NoMatch(s: seq<Row>, f: seq<int>)
    requires |s| == 0
    ensures MatchedLive(s, f) == {} && MatchedDeleted(s, f) == {}
  {
  }

  /** A set of disk keys has no more keys than the filter. */
  lemma {:induction false} FewerThanKeys(x: set<int>, f: seq<int>)
    requires forall k | k in x :: k in f
    ensures |x| <= |f|
  {
    if |f| == 0 {
      assert forall k :: k !in x;
      assert x == {};
    } else {
      var y := x - {f[|f| - 1]};
      forall k | k in y
        ensures k in f[..|f| - 1]
      {
        var i :| 0 <= i < |f| && f[i] == k;
        assert f[..|f| - 1][i] == k;
      }
      FewerThanKeys(y, f[..|f| - 1]);
    }
  }

  /** A read builds one row per key it inserts or updates; a disk key is
      updated or deleted at most once; and without disk keys every operation
      is an insert. */
  lemma TargetSize(t: seq<Built>, s: seq<Row>, f: seq<int>, keepDup: bool, info: MergeInfo)
    requires BuiltFrom(t, s, f, keepDup) && Counted(s, f, keepDup, info) && SortedRows(s)
    ensures |t| == info.rowsInserted + info.rowsUpdated
    ensures info.rowsUpdated + info.rowsDeleteSucceed <= |f|
    ensures f == [] ==> info.rowsUpdated == 0 && info.rowsDeleteSucceed == 0 && info.nOperations == info.rowsInserted
  {
    BuiltSize(t);
    MatchedApart(s, f);
    assert InsertedKeys(s, f) !! UpdatedKeys(s, f, keepDup);
    assert |InsertedKeys(s, f) + UpdatedKeys(s, f, keepDup)| == |InsertedKeys(s, f)| + |UpdatedKeys(s, f, keepDup)|;
    var matched := UpdatedKeys(s, f, keepDup) + MatchedDeleted(s, f);
    assert |matched| == |UpdatedKeys(s, f, keepDup)| + |MatchedDeleted(s, f)|;
    FewerThanKeys(matched, f);
    if f == [] {
      NoFilter(s);
    }
  }

  // ---------------------------------------------------------------------
  // The table's blocks before the commit

  /** What the read handle holds of a table's blocks in the file set the
      commit rewrites: the super-block records in key order, the whole
      block-info part they were read from (the sub-block records follow
      them), and the rows of each block, its sub-blocks merged. */
  datatype OldTable = OldTable(blocks: seq<Block>, info: seq<Block>, rows: seq<seq<Row>>)

  /** A block on disk as earlier commits wrote it: one to eight sub-blocks,
      a row count that fits its file, and rows in strictly increasing key
      order from its least to its greatest key. */
  predicate OldBlock(b: Block, rows: seq<Row>, cfg: Config)
  {
    1 <= b.numOfSubBlocks <= MaxSubBlocks && Placeable(b.numOfRows, b.last, cfg)
    && |rows| == b.numOfRows && DiskSorted(rows) && RowKeysValid(rows)
    && rows[0].key == b.minKey && rows[|rows| - 1].key == b.maxKey
  }

  /** The table's blocks as read back: the super-block records open the
      block-info part, which is readable; each block is well formed; the
      blocks' key ranges follow each other; and no key lies past the end of
      the file set's key range. */
  predicate OldValid(o: OldTable, cfg: Config, maxKey: int, blockSize: int, infoSize: int)
  {
    |o.blocks| <= |o.info| && |o.rows| == |o.blocks|
    && Readable(o.info, |o.blocks|, blockSize, infoSize)
    && (forall i | 0 <= i < |o.blocks| :: o.info[i] == o.blocks[i] && OldBlock(o.blocks[i], o.rows[i], cfg))
    && (forall i | 0 <= i < |o.blocks| - 1 :: o.blocks[i].maxKey < o.blocks[i + 1].minKey)
    && (|o.blocks| > 0 ==> o.blocks[|o.blocks| - 1].maxKey <= maxKey)
  }

  /** The greatest memory key that merges into block bidx: the end of the
      file set's range for the final block, otherwise just below the next
      block. */
  function KeyLimit(o: OldTable, bidx: nat, maxKey: int): int
    requires bidx < |o.blocks|
  {
    if bidx == |o.blocks| - 1 then maxKey else o.blocks[bidx + 1].minKey - 1
  }

  /** The rows of a block lie at or below its key limit. */
  lemma DiskBelowLimit(o: OldTable, cfg: Config, maxKey: int, blockSize: int, infoSize: int, bidx: nat)
    requires OldValid(o, cfg, maxKey, blockSize, infoSize) && bidx < |o.blocks|
    ensures forall q | 0 <= q < |o.rows[bidx]| :: o.rows[bidx][q].key <= KeyLimit(o, bidx, maxKey)
  {
    var rows := o.rows[bidx];
    assert OldBlock(o.blocks[bidx], rows, cfg);
    forall q | 0 <= q < |rows|
      ensures rows[q].key <= o.blocks[bidx].maxKey
    {
      assert q == |rows| - 1 || rows[q].key < rows[|rows| - 1].key;
    }
  }

  /** No block's key limit lies past the end of the file set's range, nor
      does any block start past it. */
  lemma {:induction false} KeyLimitBelow(o: OldTable, cfg: Config, maxKey: int, blockSize: int, infoSize: int, bidx: nat)
    requires OldValid(o, cfg, maxKey, blockSize, infoSize) && bidx < |o.blocks|
    ensures o.blocks[bidx].minKey <= KeyLimit(o, bidx, maxKey) <= maxKey
    decreases |o.blocks| - bidx
  {
    DiskBelowLimit(o, cfg, maxKey, blockSize, infoSize, bidx);
    assert OldBlock(o.blocks[bidx], o.rows[bidx], cfg);
    assert o.rows[bidx][0].key == o.blocks[bidx].minKey;
    if bidx < |o.blocks| - 1 {
      KeyLimitBelow(o, cfg, maxKey, blockSize, infoSize, bidx + 1);
    }
  }

  /** The rows of a disk block as rows to write, one version each. */
  function AsBuilt(rows: seq<Row>): (t: seq<Built>)
    ensures |t| == |rows|
  {
    seq(|rows|, i requires 0 <= i < |rows| => Built(rows[i].key, [rows[i]]))
  }

  /** A block rewritten from its rows fits its file again, and its rows
      start and end at the block's keys. */
  lemma RewriteFits(b: Block, rows: seq<Row>, cfg: Config)
    requires OldBlock(b, rows, cfg)
    ensures IncreasingBuilt(AsBuilt(rows)) && Placeable(|AsBuilt(rows)|, b.last, cfg)
    ensures AsBuilt(rows)[0].key == b.minKey && AsBuilt(rows)[|rows| - 1].key == b.maxKey
  {
  }

  /** A block moved keeps the key range, row count and file of the block it
      moves. */
  predicate Keeps(b: Block, moved: Block)
  {
    moved.minKey == b.minKey && moved.maxKey == b.maxKey && moved.numOfRows == b.numOfRows && moved.last == b.last
  }

  /** The sub-block records of an old block, as the next sub-block is added
      after them: the block itself when it has no others, otherwise the
      records it points at in its block-info part. */
  function OldSubs(o: OldTable, b: Block, blockSize: int, infoSize: int): seq<Block>
    requires blockSize > 0
    requires b.numOfSubBlocks > 1 ==>
      0 <= RecordAt(b.offset, blockSize, infoSize) && RecordAt(b.offset, blockSize, infoSize) + b.numOfSubBlocks <= |o.info|
  {
    if b.numOfSubBlocks <= 1 then [b.(numOfSubBlocks := 0)]
    else SubBlocksAt(o.info, b.offset, b.numOfSubBlocks, blockSize, infoSize)
  }

  /** An old block's sub-block records have no sub-blocks, and there are as
      many as it says. */
  lemma OldSubsShape(o: OldTable, cfg: Config, maxKey: int, blockSize: int, infoSize: int, bidx: nat)
    requires OldValid(o, cfg, maxKey, blockSize, infoSize) && bidx < |o.blocks|
    ensures var b := o.blocks[bidx];
      b.numOfSubBlocks > 1 ==>
        0 <= RecordAt(b.offset, blockSize, infoSize) && RecordAt(b.offset, blockSize, infoSize) + b.numOfSubBlocks <= |o.info|
    ensures var subs := OldSubs(o, o.blocks[bidx], blockSize, infoSize);
      |subs| == o.blocks[bidx].numOfSubBlocks && forall k | 0 <= k < |subs| :: subs[k].numOfSubBlocks == 0
  {
    var b := o.blocks[bidx];
    assert o.info[bidx] == b && OldBlock(b, o.rows[bidx], cfg);
  }

  // ---------------------------------------------------------------------
  // Reading a table's memory rows

  /** With duplicates updating, the source asserts that no memory row deletes
      a disk key; here: no deleting memory row from pos on has the key of a
      row of the block. */
  predicate DeletesOffDisk(mem: seq<Row>, pos: nat, rows: seq<Row>)
  {
    forall i, q | pos <= i < |mem| && 0 <= q < |rows| && mem[i].deleted :: mem[i].key != rows[q].key
  }

  /** The memory rows from pos on, read against the keys of a block's rows,
      meet what a read requires. */
  lemma ReadArgs(mem: seq<Row>, pos: nat, rows: seq<Row>, maxKey: int, maxRowsToRead: int, collect: bool,
                 maxPoints: int, update: bool)
    requires SortedRows(mem) && RowKeysValid(mem) && pos <= |mem| && maxRowsToRead > 0
    requires DiskSorted(rows) && RowKeysValid(rows) && (update ==> DeletesOffDisk(mem, pos, rows))
    ensures ArgsValid(Args(mem[pos..], maxKey, maxRowsToRead, collect, maxPoints, KeysOf(rows), update))
  {
    var s := mem[pos..];
    assert forall i | 0 <= i < |s| :: s[i] == mem[pos + i];
    KeysOfValid(rows);
    if update {
      forall i | 0 <= i < |s| && OpensKey(s, i) && s[i].deleted && s[i].key <= maxKey
        ensures s[i].key !in KeysOf(rows)
      {
        assert mem[pos + i].deleted;
      }
    }
  }

  /** No memory row from pos on lies at or below the key limit. */
  predicate Exhausted(mem: seq<Row>, pos: nat, maxKey: int)
  {
    pos >= |mem| || mem[pos].key > maxKey
  }

  /** The memory rows read past lie at or below the key limit, and the read
      either stops at the limit or the rows in it are all consumed. */
  lemma ReadWithin(mem: seq<Row>, pos: nat, maxKey: int, consumed: nat)
    requires pos <= |mem| && consumed <= Window(mem[pos..], maxKey)
    ensures pos + consumed <= |mem|
    ensures forall q | pos <= q < pos + consumed :: mem[q].key <= maxKey
    ensures consumed == Window(mem[pos..], maxKey) ==> Exhausted(mem, pos + consumed, maxKey)
    ensures Exhausted(mem, pos, maxKey) ==> Window(mem[pos..], maxKey) == 0
  {
    var s := mem[pos..];
    assert forall i | 0 <= i < |s| :: s[i] == mem[pos + i];
  }

  // ---------------------------------------------------------------------
  // Blocks of memory rows alone

  /** A read of memory rows without disk keys, up to maxRowsToRead rows
      below a target capacity larger than it, builds one row per insert:
      none only when the rows up to the key limit are exhausted, fewer than
      maxRowsToRead only when they are exhausted too, and some whenever it
      consumed a row. */
  lemma MemOnlyRead(s: seq<Row>, maxKey: int, maxRowsToRead: int, maxPoints: int, update: bool,
                    info: MergeInfo, consumed: nat, target: seq<Built>, read: nat)
    requires SortedRows(s) && 0 < maxRowsToRead < maxPoints
    requires consumed <= Window(s, maxKey) && read == 0
    requires Counted(s[..consumed], [], update, info) && BuiltFrom(target, s[..consumed], [], update)
    requires info.rowsInserted - info.rowsDeleteSucceed <= maxRowsToRead
    requires (consumed == Window(s, maxKey) && read == 0)
             || info.rowsInserted - info.rowsDeleteSucceed >= maxRowsToRead
             || info.nOperations >= maxPoints
    ensures |target| == info.rowsInserted <= maxRowsToRead
    ensures |target| < maxRowsToRead ==> consumed == Window(s, maxKey)
    ensures |target| > 0 ==> consumed > 0
    ensures Window(s, maxKey) > 0 ==> consumed > 0
  {
    assert SortedRows(s[..consumed]);
    TargetSize(target, s[..consumed], [], update, info);
    if consumed == 0 {
      assert s[..consumed] == [];
    }
  }

  /** A read of at most DefaultRows(cfg) memory rows from pos, against no
      disk keys: it builds the rows it consumed, all at or below the key
      limit, and stops short of DefaultRows(cfg) rows only when the rows up
      to the limit are exhausted. */
  method ReadMemRows(mem: seq<Row>, pos: nat, keyLimit: int, cfg: Config) returns (consumed: nat, target: seq<Built>)
    requires ValidConfig(cfg) && SortedRows(mem) && RowKeysValid(mem) && pos <= |mem|
    ensures pos + consumed <= |mem| && forall q | pos <= q < pos + consumed :: mem[q].key <= keyLimit
    ensures BuiltFrom(target, mem[pos..pos + consumed], [], cfg.update)
    ensures |target| <= DefaultRows(cfg)
    ensures |target| < DefaultRows(cfg) ==> Exhausted(mem, pos + consumed, keyLimit)
    ensures |target| > 0 ==> consumed > 0
    ensures Exhausted(mem, pos, keyLimit) ==> |target| == 0
  {
    assert KeysOf([]) == [];
    ReadArgs(mem, pos, [], keyLimit, DefaultRows(cfg), true, cfg.maxRows, cfg.update);
    var info;
    ghost var read;
    info, consumed, target, read :=
      LoadDataFromCache(mem[pos..], keyLimit, DefaultRows(cfg), true, cfg.maxRows, [], cfg.update);
    MemRowsRead(mem, pos, keyLimit, cfg, info, consumed, target, read);
  }

  /** What ReadMemRows promises, from what a read of memory rows alone gives. */
  lemma MemRowsRead(mem: seq<Row>, pos: nat, keyLimit: int, cfg: Config,
                    info: MergeInfo, consumed: nat, target: seq<Built>, read: nat)
    requires ValidConfig(cfg) && SortedRows(mem) && pos <= |mem|
    requires consumed <= Window(mem[pos..], keyLimit) && read == 0
    requires Counted(mem[pos..][..consumed], [], cfg.update, info)
    requires BuiltFrom(target, mem[pos..][..consumed], [], cfg.update)
    requires info.rowsInserted - info.rowsDeleteSucceed <= DefaultRows(cfg)
    requires (consumed == Window(mem[pos..], keyLimit) && read == 0)
             || info.rowsInserted - info.rowsDeleteSucceed >= DefaultRows(cfg)
             || info.nOperations >= cfg.maxRows
    ensures pos + consumed <= |mem| && forall q | pos <= q < pos + consumed :: mem[q].key <= keyLimit
    ensures BuiltFrom(target, mem[pos..pos + consumed], [], cfg.update)
    ensures |target| <= DefaultRows(cfg)
    ensures |target| < DefaultRows(cfg) ==> Exhausted(mem, pos + consumed, keyLimit)
    ensures |target| > 0 ==> consumed > 0
    ensures Exhausted(mem, pos, keyLimit) ==> |target| == 0
  {
    ReadWithin(mem, pos, keyLimit, consumed);
    MemOnlyRead(mem[pos..], keyLimit, DefaultRows(cfg), cfg.maxRows, cfg.update, info, consumed, target, read);
    BuiltFromSlice(target, mem, pos, consumed, cfg.update);
  }

  /** The rows consumed from pos, named as one slice. */
  lemma BuiltFromSlice(target: seq<Built>, mem: seq<Row>, pos: nat, consumed: nat, update: bool)
    requires pos + consumed <= |mem| && BuiltFrom(target, mem[pos..][..consumed], [], update)
    ensures BuiltFrom(target, mem[pos..pos + consumed], [], update)
  {
    assert mem[pos..][..consumed] == mem[pos..pos + consumed];
  }

  // ---------------------------------------------------------------------
  // When memory rows become a sub-block

  /** Which way memory rows merge into a block on disk. */
  datatype MergePath = Moved | Ignored | SubBlock | Rewritten

  /** The source's test for adding memory rows to a block as one more
      sub-block: they change the block, leave it rows, and CanAddSubBlock
      allows it. */
  predicate SubBlockAsWritten(b: Block, info: MergeInfo, cfg: Config, isLFileSame: bool, isDFileSame: bool)
  {
    info.nOperations != 0 && MergeRows(b, info) > 0 && CanAddSubBlock(b, info, cfg, isLFileSame, isDFileSame)
  }

  /** The test the model uses: as written, and the memory rows also insert
      or update a row, so that the sub-block is not empty. */
  predicate TakesSubBlock(b: Block, info: MergeInfo, cfg: Config, isLFileSame: bool, isDFileSame: bool)
  {
    SubBlockAsWritten(b, info, cfg, isLFileSame, isDFileSame) && info.rowsInserted + info.rowsUpdated > 0
  }

  /** Memory rows never delete more rows than the block has. */
  lemma MergeRowsCount(b: Block, t: seq<Built>, s: seq<Row>, f: seq<int>, keepDup: bool, info: MergeInfo)
    requires |f| == b.numOfRows && SortedRows(s)
    requires BuiltFrom(t, s, f, keepDup) && Counted(s, f, keepDup, info)
    ensures MergeRows(b, info) >= info.rowsInserted >= 0
    ensures |t| == info.rowsInserted + info.rowsUpdated
  {
    TargetSize(t, s, f, keepDup, info);
  }

  /** A sub-block taken by the corrected test fits where the block is: it
      holds some rows, no more than the block may, and fewer than the
      minimum when the block is in the last file; and so does the block
      once the sub-block is added. */
  lemma DeltaPlaceable(b: Block, info: MergeInfo, cfg: Config, isLFileSame: bool, isDFileSame: bool,
                       t: seq<Built>, s: seq<Row>, f: seq<int>, keepDup: bool)
    requires ValidConfig(cfg) && |f| == b.numOfRows && SortedRows(s)
    requires BuiltFrom(t, s, f, keepDup) && Counted(s, f, keepDup, info)
    requires TakesSubBlock(b, info, cfg, isLFileSame, isDFileSame)
    ensures Placeable(|t|, b.last, cfg)
    ensures Placeable(MergeRows(b, info), b.last, cfg) && b.numOfSubBlocks < MaxSubBlocks
    ensures if b.last then isLFileSame else isDFileSame
  {
    TargetSize(t, s, f, keepDup, info);
    SubBlockKeepsPlacement(b, info, cfg, isLFileSame, isDFileSame);
  }

  /** Which way the model merges memory rows into a block, given what
      reading them against the block's keys counted. */
  function PathOf(b: Block, info: MergeInfo, cfg: Config, isLFileSame: bool, isDFileSame: bool): MergePath
  {
    if info.nOperations == 0 then Moved
    else if MergeRows(b, info) == 0 then Ignored
    else if TakesSubBlock(b, info, cfg, isLFileSame, isDFileSame) then SubBlock
    else Rewritten
  }

  /** The same choice with the source's own sub-block test. */
  function PathAsWritten(b: Block, info: MergeInfo, cfg: Config, isLFileSame: bool, isDFileSame: bool): MergePath
  {
    if info.nOperations == 0 then Moved
    else if MergeRows(b, info) == 0 then Ignored
    else if SubBlockAsWritten(b, info, cfg, isLFileSame, isDFileSame) then SubBlock
    else Rewritten
  }

  const DelCfg: Config := Config(2, 10, false)
  const DelBlock: Block := Block(1, 2, 2, 1, false, 0, 1, 0, false)
  const DelRows: seq<Row> := [Row(1, false, 0), Row(2, false, 0)]
  const DelMem: seq<Row> := [Row(1, true, 0)]

  /** A data-file block of keys 1 and 2, appended to, and one memory row
      deleting key 1: as written the merge adds a sub-block, yet the read
      builds no row for it, so the block written would be empty, which no
      file takes. The model's test rewrites the block instead. */
  lemma {:induction false} EmptySubBlockAsWritten()
    ensures var info := RunFrom(BlockRead(DelMem, 0, DelRows, 10, DelCfg, false), StartCursor()).info;
            PathAsWritten(DelBlock, info, DelCfg, true, true) == SubBlock
            && PathOf(DelBlock, info, DelCfg, true, true) == Rewritten
    ensures RunFrom(BlockRead(DelMem, 0, DelRows, 10, DelCfg, true), StartCursor()).target == []
    ensures !Placeable(0, DelBlock.last, DelCfg)
  {
    assert DelMem[0..] == DelMem;
    assert KeysOf(DelRows) == [1, 2];
    var i1 := DeleteSucceeded(StartCursor().info);
    var i2 := WithKey(i1, 2);
    forall collect: bool
      ensures RunFrom(BlockRead(DelMem, 0, DelRows, 10, DelCfg, collect), StartCursor())
              == Cursor(1, 2, i2, KeyMin, KeyMin, [])
    {
      var a := BlockRead(DelMem, 0, DelRows, 10, DelCfg, collect);
      assert a == Args(DelMem, 10, Int32Max, collect, 10, [1, 2], false);
      var c1 := Cursor(1, 1, i1, KeyMin, KeyMin, []);
      var c2 := Cursor(1, 2, i2, KeyMin, KeyMin, []);
      assert StepOf(a, c2) == None;
      assert RunFrom(a, c2) == c2;
      assert StepOf(a, c1) == Some(c2);
      assert StepOf(a, StartCursor()) == Some(c1);
    }
    assert i2.nOperations == 1 && i2.rowsInserted == 0 && i2.rowsUpdated == 0 && i2.rowsDeleteSucceed == 1;
  }

  const RepCfg: Config := Config(1, 2, true)
  const RepBlock: Block := Block(1, 3, 2, 1, false, 0, 1, 0, false)
  const RepRows: seq<Row> := [Row(1, false, 0), Row(3, false, 0)]
  const RepMem: seq<Row> := [Row(1, false, 0), Row(3, false, 0), Row(3, false, 1)]

  /** A data-file block of keys 1 and 3, appended to, with duplicates
      updating and two points a block: memory rows update keys 1 and 3, and
      a second row of key 3 follows. The counting read folds that row into
      key 3 and takes all three rows, so the merge adds a sub-block. As
      written, the collecting read stops at its point limit before the
      repeated key, so it takes only two rows and the third is left for a
      block of its own. The model's read takes all three both times. */
  lemma {:induction false} PointLimitAsWritten()
    ensures var info := RunFrom(BlockRead(RepMem, 0, RepRows, 10, RepCfg, false), StartCursor()).info;
            PathAsWritten(RepBlock, info, RepCfg, true, true) == SubBlock
            && PathOf(RepBlock, info, RepCfg, true, true) == SubBlock
            && TsdbLoadFindings.ReadAsWritten(RepMem, 10, Int32Max, false, RepCfg.maxRows, [1, 3], true, 0).info == info
    ensures TsdbLoadFindings.ReadAsWritten(RepMem, 10, Int32Max, false, RepCfg.maxRows, [1, 3], true, 0).consumed == 3
    ensures TsdbLoadFindings.ReadAsWritten(RepMem, 10, Int32Max, true, RepCfg.maxRows, [1, 3], true, 0).consumed == 2
    ensures RunFrom(BlockRead(RepMem, 0, RepRows, 10, RepCfg, true), StartCursor()).j == 3
  {
    RepRead(false);
    RepRead(true);
    RepReadAsWritten(false);
    RepReadAsWritten(true);
    var i2 := Updated(Updated(StartCursor().info, 1), 3);
    assert i2.nOperations == 2 && i2.rowsUpdated == 2 && i2.rowsInserted == 0 && i2.rowsDeleteSucceed == 0;
  }

  /** The model's read of RepMem against the block's keys: both rows of key
      3 are taken, as one update. */
  lemma {:induction false} RepRead(collect: bool)
    ensures RunFrom(BlockRead(RepMem, 0, RepRows, 10, RepCfg, collect), StartCursor()).info
            == Updated(Updated(StartCursor().info, 1), 3)
    ensures RunFrom(BlockRead(RepMem, 0, RepRows, 10, RepCfg, collect), StartCursor()).j == 3
  {
    assert RepMem[0..] == RepMem;
    assert KeysOf(RepRows) == [1, 3];
    var i1 := Updated(StartCursor().info, 1);
    var i2 := Updated(i1, 3);
    var a := BlockRead(RepMem, 0, RepRows, 10, RepCfg, collect);
    assert a == Args(RepMem, 10, Int32Max, collect, 2, [1, 3], true);
    assert ArgsValid(a) by {
      assert SortedRows(RepMem) && RowKeysValid(RepMem) && IncreasingKeys([1, 3]) && KeysValid([1, 3]);
    }
    var t1 := Emit(collect, [], RepMem[0]);
    var t2 := Emit(collect, t1, RepMem[1]);
    var c1 := Cursor(1, 1, i1, 1, KeyMin, t1);
    var c2 := Cursor(2, 2, i2, 3, KeyMin, t2);
    var c3 := Cursor(3, 2, i2, 3, KeyMin, if collect then MergeLast(t2, RepMem[2]) else t2);
    assert StepOf(a, c3) == None;
    assert RunFrom(a, c3) == c3;
    assert StepOf(a, c2) == Some(c3);
    assert RunFrom(a, c2) == c3;
    assert StepOf(a, c1) == Some(c2);
    assert RunFrom(a, c1) == c3;
    assert StepOf(a, StartCursor()) == Some(c1);
  }

  /** The same read as written: the collecting read meets its point limit
      at the repeated key 3 and stops there. */
  lemma {:induction false} RepReadAsWritten(collect: bool)
    ensures TsdbLoadFindings.ReadAsWritten(RepMem, 10, Int32Max, collect, 2, [1, 3], true, 0)
            == TsdbLoadFindings.Loaded(Updated(Updated(StartCursor().info, 1), 3), if collect then 2 else 3,
                 if collect then [Built(1, [RepMem[0]]), Built(3, [RepMem[1]])] else [])
  {
    var i1 := Updated(StartCursor().info, 1);
    var i2 := Updated(i1, 3);
    var t2 := if collect then [Built(1, [RepMem[0]]), Built(3, [RepMem[1]])] else [];
    var end := TsdbLoadFindings.Loaded(i2, if collect then 2 else 3, t2);
    assert TsdbLoadFindings.LoadAsWritten(RepMem, 10, Int32Max, collect, 2, [1, 3], true, 2, 2, i2, 3, t2) == end;
    assert TsdbLoadFindings.LoadAsWritten(RepMem, 10, Int32Max, collect, 2, [1, 3], true, 1, 1, i1, 1,
                                          Emit(collect, [], RepMem[0])) == end;
  }

  /** A read of memory rows from pos against the keys of an old block's
      rows, with no bound on the rows it reads and a target of capacity
      maxRows when collect is set. */
  function BlockRead(mem: seq<Row>, pos: nat, rows: seq<Row>, keyLimit: int, cfg: Config, collect: bool): Args
    requires pos <= |mem|
  {
    Args(mem[pos..], keyLimit, Int32Max, collect, cfg.maxRows, KeysOf(rows), cfg.update)
  }

  /** The first read of memory rows against the keys of an old block's
      rows: it only counts what merging them would do. */
  method CountBlockRead(mem: seq<Row>, pos: nat, rows: seq<Row>, keyLimit: int, cfg: Config)
    returns (info: MergeInfo, consumed: nat)
    requires ValidConfig(cfg) && SortedRows(mem) && RowKeysValid(mem) && pos <= |mem|
    requires DiskSorted(rows) && RowKeysValid(rows) && (cfg.update ==> DeletesOffDisk(mem, pos, rows))
    ensures var r := RunFrom(BlockRead(mem, pos, rows, keyLimit, cfg, false), StartCursor());
            info == r.info && consumed == r.j
    ensures pos + consumed <= |mem| && forall q | pos <= q < pos + consumed :: mem[q].key <= keyLimit
  {
    ReadArgs(mem, pos, rows, keyLimit, Int32Max, false, cfg.maxRows, cfg.update);
    var target;
    ghost var read;
    info, consumed, target, read := LoadDataFromCache(mem[pos..], keyLimit, Int32Max, false, cfg.maxRows, KeysOf(rows), cfg.update);
    ReadWithin(mem, pos, keyLimit, consumed);
  }

  /** The second read of memory rows merging into block b as a sub-block,
      now into rows: it ends where the first read, without rows, ended, and
      the rows fit where the block is. */
  method ReadDelta(mem: seq<Row>, pos: nat, rows: seq<Row>, keyLimit: int, cfg: Config, b: Block, info: MergeInfo,
                   isLFileSame: bool, isDFileSame: bool)
    returns (consumed: nat, target: seq<Built>)
    requires ValidConfig(cfg) && SortedRows(mem) && RowKeysValid(mem) && pos <= |mem|
    requires DiskSorted(rows) && RowKeysValid(rows) && |rows| == b.numOfRows
    requires cfg.update ==> DeletesOffDisk(mem, pos, rows)
    requires info == RunFrom(BlockRead(mem, pos, rows, keyLimit, cfg, false), StartCursor()).info
    requires TakesSubBlock(b, info, cfg, isLFileSame, isDFileSame)
    ensures consumed == RunFrom(BlockRead(mem, pos, rows, keyLimit, cfg, false), StartCursor()).j
    ensures target == RunFrom(BlockRead(mem, pos, rows, keyLimit, cfg, true), StartCursor()).target
    ensures pos + consumed <= |mem| && forall q | pos <= q < pos + consumed :: mem[q].key <= keyLimit
    ensures Placeable(|target|, b.last, cfg) && |target| == info.rowsInserted + info.rowsUpdated
    ensures Placeable(MergeRows(b, info), b.last, cfg) && b.numOfSubBlocks < MaxSubBlocks
  {
    ReadArgs(mem, pos, rows, keyLimit, Int32Max, true, cfg.maxRows, cfg.update);
    var info2;
    ghost var read;
    info2, consumed, target, read := LoadDataFromCache(mem[pos..], keyLimit, Int32Max, true, cfg.maxRows, KeysOf(rows), cfg.update);
    DeltaRead(mem, pos, rows, keyLimit, cfg, b, info, isLFileSame, isDFileSame, info2, consumed, target);
  }

  /** What ReadDelta promises, from what its read gives. */
  lemma DeltaRead(mem: seq<Row>, pos: nat, rows: seq<Row>, keyLimit: int, cfg: Config, b: Block, info: MergeInfo,
                  isLFileSame: bool, isDFileSame: bool, info2: MergeInfo, consumed: nat, target: seq<Built>)
    requires ValidConfig(cfg) && SortedRows(mem) && RowKeysValid(mem) && pos <= |mem|
    requires DiskSorted(rows) && RowKeysValid(rows) && |rows| == b.numOfRows
    requires cfg.update ==> DeletesOffDisk(mem, pos, rows)
    requires info == RunFrom(BlockRead(mem, pos, rows, keyLimit, cfg, false), StartCursor()).info
    requires TakesSubBlock(b, info, cfg, isLFileSame, isDFileSame)
    requires consumed <= Window(mem[pos..], keyLimit)
    requires Counted(mem[pos..][..consumed], KeysOf(rows), cfg.update, info2)
    requires BuiltFrom(target, mem[pos..][..consumed], KeysOf(rows), cfg.update)
    requires var r := RunFrom(Args(mem[pos..], keyLimit, Int32Max, true, cfg.maxRows, KeysOf(rows), cfg.update), StartCursor());
             info2 == r.info && consumed == r.j && target == r.target
    ensures consumed == RunFrom(BlockRead(mem, pos, rows, keyLimit, cfg, false), StartCursor()).j
    ensures target == RunFrom(BlockRead(mem, pos, rows, keyLimit, cfg, true), StartCursor()).target
    ensures pos + consumed <= |mem| && forall q | pos <= q < pos + consumed :: mem[q].key <= keyLimit
    ensures Placeable(|target|, b.last, cfg) && |target| == info.rowsInserted + info.rowsUpdated
    ensures Placeable(MergeRows(b, info), b.last, cfg) && b.numOfSubBlocks < MaxSubBlocks
  {
    ReadArgs(mem, pos, rows, keyLimit, Int32Max, false, cfg.maxRows, cfg.update);
    SubBlockKeepsPlacement(b, info, cfg, isLFileSame, isDFileSame);
    ReadAgain(BlockRead(mem, pos, rows, keyLimit, cfg, false), BlockRead(mem, pos, rows, keyLimit, cfg, true),
              StartCursor(), StartCursor());
    assert info2 == info;
    ghost var s := mem[pos..][..consumed];
    SortedPart(mem, pos, consumed);
    DeltaPlaceable(b, info, cfg, isLFileSame, isDFileSame, target, s, KeysOf(rows), cfg.update);
    TargetSize(target, s, KeysOf(rows), cfg.update, info);
    ReadWithin(mem, pos, keyLimit, consumed);
  }

  /** The rows consumed from pos are still in key order. */
  lemma SortedPart(mem: seq<Row>, pos: nat, consumed: nat)
    requires SortedRows(mem) && pos + consumed <= |mem|
    ensures SortedRows(mem[pos..][..consumed])
  {
    var s := mem[pos..][..consumed];
    forall i, j | 0 <= i <= j < |s| ensures s[i].key <= s[j].key {
      assert s[i] == mem[pos + i] && s[j] == mem[pos + j];
    }
  }

  /** Every super-block fits its file. */
  predicate Placed(sup: seq<Block>, cfg: Config)
  {
    forall i | 0 <= i < |sup| :: Placeable(sup[i].numOfRows, sup[i].last, cfg)
  }

  /** Blocks written DefaultRows(cfg) rows at a time: super-blocks of one
      sub-block each, in the last file exactly when they are not bound for
      the data file and hold fewer than minRows rows, and all full but the
      final one. */
  predicate NewBlocks(added: seq<Block>, toData: bool, cfg: Config)
    requires ValidConfig(cfg)
  {
    (forall i | 0 <= i < |added| ::
       added[i].numOfSubBlocks == 1 && (added[i].last <==> !toData && added[i].numOfRows < cfg.minRows))
    && forall i | 0 <= i < |added| - 1 :: added[i].numOfRows == DefaultRows(cfg)
  }

  /** One more block keeps the blocks written DefaultRows(cfg) rows at a
      time as they are, when the one before it was full. */
  lemma NewBlocksGrow(added: seq<Block>, b: Block, toData: bool, cfg: Config)
    requires ValidConfig(cfg) && NewBlocks(added, toData, cfg)
    requires b.numOfSubBlocks == 1 && (b.last <==> !toData && b.numOfRows < cfg.minRows)
    requires |added| > 0 ==> added[|added| - 1].numOfRows == DefaultRows(cfg)
    ensures NewBlocks(added + [b], toData, cfg)
  {
    var n := added + [b];
    forall i | 0 <= i < |n| - 1 ensures n[i].numOfRows == DefaultRows(cfg) {
      assert n[i] == added[i];
    }
  }

  // ---------------------------------------------------------------------
  // Merging an old block's rows with memory rows

  /** Records or rows appended one part after another join up in order,
      and split back into what was there and what was appended. */
  lemma AppendParts<T>(w: seq<T>, a: seq<T>, b: seq<T>)
    ensures (w + a) + b == w + (a + b)
    ensures (w + a)[..|w|] == w && (w + a)[|w|..] == a
  {
    assert |(w + a) + b| == |w + (a + b)|;
    forall i | 0 <= i < |w + (a + b)| ensures ((w + a) + b)[i] == (w + (a + b))[i] {
    }
  }

  /** Where a merge of disk rows with the memory rows from pos has got to:
      the disk rows before biter and the memory rows from pos before p,
      all taken, lie below every row still to take, disk or memory. */
  predicate Cut(disk: seq<Row>, mem: seq<Row>, pos: nat, biter: nat, p: nat)
  {
    biter <= |disk| && p <= |mem|
    && (forall a, b | 0 <= a < biter && p <= b < |mem| :: disk[a].key < mem[b].key)
    && (forall a, b | pos <= a < p && biter <= b < |disk| :: mem[a].key < disk[b].key)
    && (forall a, b | pos <= a < p && p <= b < |mem| :: mem[a].key < mem[b].key)
  }

  /** A read that takes disk rows up to iter and memory rows up to p2, all
      at most a key K that every row left exceeds, moves the cut there. */
  lemma CutMoves(disk: seq<Row>, mem: seq<Row>, pos: nat, biter: nat, p: nat, iter: nat, p2: nat, K: int)
    requires DiskSorted(disk) && SortedRows(mem) && Cut(disk, mem, pos, biter, p)
    requires biter <= iter <= |disk| && pos <= p <= p2 <= |mem|
    requires forall q | biter <= q < iter :: disk[q].key <= K
    requires forall q | p <= q < p2 :: mem[q].key <= K
    requires iter < |disk| ==> disk[iter].key > K
    requires p2 < |mem| ==> mem[p2].key > K
    ensures Cut(disk, mem, pos, iter, p2)
  {
    forall a, b | 0 <= a < iter && p2 <= b < |mem| ensures disk[a].key < mem[b].key {
      if a >= biter {
        assert mem[p2].key <= mem[b].key;
      }
    }
    forall a, b | pos <= a < p2 && iter <= b < |disk| ensures mem[a].key < disk[b].key {
      if a >= p && b > iter {
        assert disk[iter].key < disk[b].key;
      }
    }
    forall a, b | pos <= a < p2 && p2 <= b < |mem| ensures mem[a].key < mem[b].key {
      assert mem[p2].key <= mem[b].key;
    }
  }

  /** The rows built so far and those of the next read, taken past the cut,
      together are those of merging everything taken at once. */
  lemma MergedBlocks(disk: seq<Row>, mem: seq<Row>, pos: nat, biter: nat, p: nat, iter: nat, p2: nat, update: bool)
    requires DiskSorted(disk) && Cut(disk, mem, pos, biter, p)
    requires biter <= iter <= |disk| && pos <= p <= p2 <= |mem|
    ensures Fold(Interleave(disk[..iter], mem[pos..p2]), update)
            == Fold(Interleave(disk[..biter], mem[pos..p]), update) + Fold(Interleave(disk[biter..iter], mem[p..p2]), update)
  {
    var d1, d2, s1, s2 := disk[..biter], disk[biter..iter], mem[pos..p], mem[p..p2];
    assert d1 + d2 == disk[..iter] && s1 + s2 == mem[pos..p2];
    assert Before(d1, d2) by {
      forall i, j | 0 <= i < |d1| && 0 <= j < |d2| ensures d1[i].key < d2[j].key {
        assert d2[j] == disk[biter + j];
      }
    }
    assert Before(d1, s2) by {
      forall i, j | 0 <= i < |d1| && 0 <= j < |s2| ensures d1[i].key < s2[j].key {
        assert s2[j] == mem[p + j];
      }
    }
    assert Before(s1, d2) by {
      forall i, j | 0 <= i < |s1| && 0 <= j < |d2| ensures s1[i].key < d2[j].key {
        assert s1[i] == mem[pos + i] && d2[j] == disk[biter + j];
      }
    }
    assert Before(s1, s2) by {
      forall i, j | 0 <= i < |s1| && 0 <= j < |s2| ensures s1[i].key < s2[j].key {
        assert s1[i] == mem[pos + i] && s2[j] == mem[p + j];
      }
    }
    BlocksConcatenate(d1, d2, s1, s2, update);
  }

  // ---------------------------------------------------------------------
  // The committer

  /** The state of committing one file id: the configuration, whether the
      data and last files are appended to or written anew, the end of the
      file set's key range, and the sizes of a block record and of a
      block-info header; the column descriptions of rows to write and the
      bytes they take once compressed are computed outside this model. The
      super-block and sub-block records of the table being committed are
      gathered here; the block-info parts and index entries written, and the
      ends of the files, grow as tables are committed. */
  class Committer {
    const cfg: Config
    const isDFileSame: bool
    const isLFileSame: bool
    const maxKey: int
    const blockSize: int
    const infoSize: int
    const columnsOf: seq<Built> -> seq<Column>
    const sizeOf: seq<Built> -> nat
    var aSupBlk: seq<Block>
    var aSubBlk: seq<Block>
    var aBlkIdx: seq<BlockIdx>
    var infoParts: seq<seq<Block>>
    var dataEnd: int
    var lastEnd: int
    var headEnd: int
    /** The rows of every block written, one block after another. */
    ghost var writtenRows: seq<Built>

    /** The records gathered are linked and every super-block fits its file. */
    ghost predicate Valid()
      reads this
    {
      ValidConfig(cfg) && blockSize > 0 && Linked(aSupBlk, aSubBlk, blockSize) && Placed(aSupBlk, cfg)
    }

    /** Opens the files of a file id: the file set holding it, if any, is at
        level existing and its last file lastSize bytes long; the commit
        writes on level diskLevel. */
    constructor (cfg: Config, existing: Option<int>, diskLevel: int, lastSize: int, maxKey: int,
                 blockSize: int, infoSize: int, columnsOf: seq<Built> -> seq<Column>, sizeOf: seq<Built> -> nat,
                 dataEnd: int, lastEnd: int, headEnd: int)
      requires ValidConfig(cfg) && blockSize > 0
      ensures Valid()
      ensures this.cfg == cfg && this.maxKey == maxKey && this.blockSize == blockSize && this.infoSize == infoSize
      ensures this.columnsOf == columnsOf && this.sizeOf == sizeOf
      ensures isDFileSame == SetupCommitFiles(existing, diskLevel, lastSize).isDFileSame
      ensures isLFileSame == SetupCommitFiles(existing, diskLevel, lastSize).isLFileSame
      ensures aSupBlk == [] && aSubBlk == [] && aBlkIdx == [] && infoParts == [] && writtenRows == []
      ensures this.dataEnd == dataEnd && this.lastEnd == lastEnd && this.headEnd == headEnd
    {
      var setup := SetupCommitFiles(existing, diskLevel, lastSize);
      this.cfg := cfg;
      this.isDFileSame := setup.isDFileSame;
      this.isLFileSame := setup.isLFileSame;
      this.maxKey := maxKey;
      this.blockSize := blockSize;
      this.infoSize := infoSize;
      this.columnsOf := columnsOf;
      this.sizeOf := sizeOf;
      aSupBlk, aSubBlk, aBlkIdx, infoParts := [], [], [], [];
      writtenRows := [];
      this.dataEnd, this.lastEnd, this.headEnd := dataEnd, lastEnd, headEnd;
    }

    /** Writes rows t as a block at the end of the last file or of the data
        file: the source asserts that the rows fit there. Its record covers
        the rows' keys and counts them, its columns are those not all NULL,
        and it starts where the file ended. */
    method WriteBlock(t: seq<Built>, isLast: bool, isSuper: bool) returns (b: Block)
      requires Placeable(|t|, isLast, cfg)
      modifies this
      ensures b == NewBlock(t, isLast, isSuper, if isLast then old(lastEnd) else old(dataEnd),
                            |TsdbBlock.Kept(Body(columnsOf(t)))|, SmaCount(Body(columnsOf(t)), isSuper))
      ensures dataEnd == old(dataEnd) + (if isLast then 0 else sizeOf(t))
      ensures lastEnd == old(lastEnd) + (if isLast then sizeOf(t) else 0)
      ensures aSupBlk == old(aSupBlk) && aSubBlk == old(aSubBlk) && writtenRows == old(writtenRows) + t
      ensures aBlkIdx == old(aBlkIdx) && infoParts == old(infoParts) && headEnd == old(headEnd)
    {
      writtenRows := writtenRows + t;
      var kept, nBSma := SelectColumns(columnsOf(t), isSuper);
      if isLast {
        b := NewBlock(t, isLast, isSuper, lastEnd, |kept|, nBSma);
        lastEnd := lastEnd + sizeOf(t);
      } else {
        b := NewBlock(t, isLast, isSuper, dataEnd, |kept|, nBSma);
        dataEnd := dataEnd + sizeOf(t);
      }
    }

    /** Adds super-block b, with its sub-blocks subs when it has several. */
    method CommitAddBlock(b: Block, subs: seq<Block>)
      requires Valid() && Attachable(b, subs, |aSubBlk|, blockSize) && Placeable(b.numOfRows, b.last, cfg)
      modifies this
      ensures Valid()
      ensures aSupBlk == old(aSupBlk) + [b] && aSubBlk == old(aSubBlk) + subs
      ensures aBlkIdx == old(aBlkIdx) && infoParts == old(infoParts)
      ensures dataEnd == old(dataEnd) && lastEnd == old(lastEnd) && headEnd == old(headEnd)
      ensures writtenRows == old(writtenRows)
    {
      AddLinked(aSupBlk, aSubBlk, blockSize, b, subs);
      aSupBlk := aSupBlk + [b];
      aSubBlk := aSubBlk + subs;
    }

    /** The state after moving old block bidx, from records sup0 and sub0,
        rows written w0 and file ends d0 and l0. When its file is appended
        to, the block is kept where it is: its record follows sup0, pointing
        past sub0 at copies of its stored sub-block records when it has
        several, and nothing is written. Otherwise its rows are written
        again as one super block at the end of its file, which grows by
        their size, and the new record follows sup0. */
    ghost predicate BlockMoved(o: OldTable, bidx: nat, sup0: seq<Block>, sub0: seq<Block>, w0: seq<Built>, d0: int, l0: int)
      requires bidx < |o.blocks| && bidx < |o.rows| && |o.rows[bidx]| > 0 && blockSize > 0
      requires o.blocks[bidx].numOfSubBlocks > 1 ==>
                 0 <= RecordAt(o.blocks[bidx].offset, blockSize, infoSize)
                 && RecordAt(o.blocks[bidx].offset, blockSize, infoSize) + o.blocks[bidx].numOfSubBlocks <= |o.info|
      reads this
    {
      var b := o.blocks[bidx];
      if IsSameFile(b, isLFileSame, isDFileSame) then
        writtenRows == w0 && dataEnd == d0 && lastEnd == l0
        && (if b.numOfSubBlocks == 1 then aSupBlk == sup0 + [b] && aSubBlk == sub0
            else aSupBlk == sup0 + [b.(offset := blockSize * |sub0|)] && aSubBlk == sub0 + OldSubs(o, b, blockSize, infoSize))
      else
        var t := AsBuilt(o.rows[bidx]);
        writtenRows == w0 + t && aSubBlk == sub0
        && aSupBlk == sup0 + [NewBlock(t, b.last, true, if b.last then l0 else d0,
                                        |TsdbBlock.Kept(Body(columnsOf(t)))|, SmaCount(Body(columnsOf(t)), true))]
        && dataEnd == d0 + (if b.last then 0 else sizeOf(t))
        && lastEnd == l0 + (if b.last then sizeOf(t) else 0)
    }

    /** Moves block bidx of the old table into the records unchanged: as it
        is when its file is appended to, with its sub-block records copied
        after those gathered so far when it has several; otherwise rewritten
        from its rows as a block of its own at the end of the new file. */
    method MoveBlock(o: OldTable, bidx: nat)
      requires Valid() && OldValid(o, cfg, maxKey, blockSize, infoSize) && bidx < |o.blocks|
      modifies this
      ensures Valid()
      ensures |aSupBlk| == |old(aSupBlk)| + 1 && aSupBlk[..|old(aSupBlk)|] == old(aSupBlk)
      ensures Keeps(o.blocks[bidx], aSupBlk[|aSupBlk| - 1])
      ensures !IsSameFile(o.blocks[bidx], isLFileSame, isDFileSame) ==>
                aSupBlk[|aSupBlk| - 1].numOfSubBlocks == 1
                && aSupBlk[|aSupBlk| - 1].offset == (if o.blocks[bidx].last then old(lastEnd) else old(dataEnd))
      ensures BlockMoved(o, bidx, old(aSupBlk), old(aSubBlk), old(writtenRows), old(dataEnd), old(lastEnd))
      ensures aBlkIdx == old(aBlkIdx) && infoParts == old(infoParts) && headEnd == old(headEnd)
    {
      OldSubsShape(o, cfg, maxKey, blockSize, infoSize, bidx);
      if IsSameFile(o.blocks[bidx], isLFileSame, isDFileSame) {
        KeepBlock(o, bidx);
      } else {
        RewriteBlock(o, bidx);
      }
    }

    /** MoveBlock for a block whose file is appended to. */
    method KeepBlock(o: OldTable, bidx: nat)
      requires Valid() && OldValid(o, cfg, maxKey, blockSize, infoSize) && bidx < |o.blocks|
      requires IsSameFile(o.blocks[bidx], isLFileSame, isDFileSame)
      modifies this
      ensures Valid()
      ensures o.blocks[bidx].numOfSubBlocks == 1 ==> aSupBlk == old(aSupBlk) + [o.blocks[bidx]] && aSubBlk == old(aSubBlk)
      ensures o.blocks[bidx].numOfSubBlocks > 1 ==>
                aSupBlk == old(aSupBlk) + [o.blocks[bidx].(offset := blockSize * |old(aSubBlk)|)]
                && aSubBlk == old(aSubBlk) + OldSubs(o, o.blocks[bidx], blockSize, infoSize)
      ensures writtenRows == old(writtenRows) && dataEnd == old(dataEnd) && lastEnd == old(lastEnd)
      ensures aBlkIdx == old(aBlkIdx) && infoParts == old(infoParts) && headEnd == old(headEnd)
    {
      var b := o.blocks[bidx];
      OldSubsShape(o, cfg, maxKey, blockSize, infoSize, bidx);
      assert OldBlock(b, o.rows[bidx], cfg);
      if b.numOfSubBlocks == 1 {
        CommitAddBlock(b, []);
      } else {
        CommitAddBlock(b.(offset := blockSize * |aSubBlk|), OldSubs(o, b, blockSize, infoSize));
      }
    }

    /** MoveBlock for a block whose file is written anew: its rows are
        written again as one super block at the end of that file. */
    method RewriteBlock(o: OldTable, bidx: nat)
      requires Valid() && OldValid(o, cfg, maxKey, blockSize, infoSize) && bidx < |o.blocks|
      modifies this
      ensures Valid()
      ensures var b, t := o.blocks[bidx], AsBuilt(o.rows[bidx]);
              |t| > 0
              && aSupBlk == old(aSupBlk) + [NewBlock(t, b.last, true, if b.last then old(lastEnd) else old(dataEnd),
                                                      |TsdbBlock.Kept(Body(columnsOf(t)))|, SmaCount(Body(columnsOf(t)), true))]
              && writtenRows == old(writtenRows) + t && aSubBlk == old(aSubBlk)
              && dataEnd == old(dataEnd) + (if b.last then 0 else sizeOf(t))
              && lastEnd == old(lastEnd) + (if b.last then sizeOf(t) else 0)
      ensures aBlkIdx == old(aBlkIdx) && infoParts == old(infoParts) && headEnd == old(headEnd)
    {
      var b := o.blocks[bidx];
      assert OldBlock(b, o.rows[bidx], cfg);
      RewriteFits(b, o.rows[bidx], cfg);
      var moved := WriteBlock(AsBuilt(o.rows[bidx]), b.last, true);
      CommitAddBlock(moved, []);
    }

    /** One block of CommitMemData: reads up to DefaultRows(cfg) memory rows
        from pos and, when that builds any row, writes them as one block. */
    method CommitMemBlock(mem: seq<Row>, pos: nat, keyLimit: int, toData: bool) returns (pos': nat, wrote: bool, b: Block)
      requires Valid() && SortedRows(mem) && RowKeysValid(mem) && pos <= |mem|
      modifies this
      ensures Valid()
      ensures pos <= pos' <= |mem| && forall q | pos <= q < pos' :: mem[q].key <= keyLimit
      ensures wrote ==> pos' > pos
      ensures aSubBlk == old(aSubBlk) && aSupBlk == old(aSupBlk) + (if wrote then [b] else [])
      ensures wrote ==>
                b.numOfSubBlocks == 1 && (b.last <==> !toData && b.numOfRows < cfg.minRows)
                && (b.numOfRows != DefaultRows(cfg) ==> Exhausted(mem, pos', keyLimit))
      ensures !wrote ==> Exhausted(mem, pos', keyLimit)
      ensures Exhausted(mem, pos, keyLimit) ==> !wrote
      ensures aBlkIdx == old(aBlkIdx) && infoParts == old(infoParts) && headEnd == old(headEnd)
    {
      var consumed, target := ReadMemRows(mem, pos, keyLimit, cfg);
      pos' := pos + consumed;
      wrote := |target| > 0;
      b := Block(0, 0, 0, 0, false, 0, 0, 0, false);
      if wrote {
        b := WriteBlock(target, !toData && |target| < cfg.minRows, true);
        CommitAddBlock(b, []);
      }
    }

    /** Writes the memory rows from pos up to keyLimit as blocks of their
        own, reading DefaultRows(cfg) rows at a time until none is left:
        a block goes to the data file when toData is set or it has at least
        minRows rows, otherwise to the last file. Every block but the final
        one is full. */
    method CommitMemData(mem: seq<Row>, pos: nat, keyLimit: int, toData: bool) returns (pos': nat)
      requires Valid() && SortedRows(mem) && RowKeysValid(mem) && pos <= |mem|
      modifies this
      ensures Valid()
      ensures pos <= pos' <= |mem| && Exhausted(mem, pos', keyLimit)
      ensures forall q | pos <= q < pos' :: mem[q].key <= keyLimit
      ensures aSubBlk == old(aSubBlk) && |old(aSupBlk)| <= |aSupBlk| && aSupBlk[..|old(aSupBlk)|] == old(aSupBlk)
      ensures NewBlocks(aSupBlk[|old(aSupBlk)|..], toData, cfg)
      ensures aBlkIdx == old(aBlkIdx) && infoParts == old(infoParts) && headEnd == old(headEnd)
    {
      pos' := pos;
      ghost var added: seq<Block> := [];
      while true
        invariant Valid() && pos <= pos' <= |mem|
        invariant forall q | pos <= q < pos' :: mem[q].key <= keyLimit
        invariant aSubBlk == old(aSubBlk) && aSupBlk == old(aSupBlk) + added
        invariant NewBlocks(added, toData, cfg)
        invariant |added| > 0 && added[|added| - 1].numOfRows != DefaultRows(cfg) ==> Exhausted(mem, pos', keyLimit)
        invariant aBlkIdx == old(aBlkIdx) && infoParts == old(infoParts) && headEnd == old(headEnd)
        decreases |mem| - pos'
      {
        var next, wrote, b := CommitMemBlock(mem, pos', keyLimit, toData);
        pos' := next;
        if !wrote {
          break;
        }
        added := added + [b];
      }
      assert (old(aSupBlk) + added)[..|old(aSupBlk)|] == old(aSupBlk);
      assert (old(aSupBlk) + added)[|old(aSupBlk)|..] == added;
    }

    /** Where MergeBlockData has got to, merging disk rows with the memory
        rows from pos: the blocks added since sup0 are written
        DefaultRows(cfg) rows at a time, the inputs are drained when one is
        not full, and the rows written since w0 are those of merging the
        disk rows before biter with the memory rows before p. */
    ghost predicate Merging(sup0: seq<Block>, w0: seq<Built>, added: seq<Block>, mem: seq<Row>, pos: nat, p: nat,
                            disk: seq<Row>, biter: nat, keyLimit: int, isLastOneBlock: bool)
      reads this
    {
      Valid() && biter <= |disk| && pos <= p <= |mem|
      && (forall q | pos <= q < p :: mem[q].key <= keyLimit)
      && aSupBlk == sup0 + added && NewBlocks(added, !isLastOneBlock, cfg)
      && (|added| > 0 && added[|added| - 1].numOfRows != DefaultRows(cfg) ==>
            biter == |disk| && Exhausted(mem, p, keyLimit))
      && Cut(disk, mem, pos, biter, p)
      && writtenRows == w0 + Fold(Interleave(disk[..biter], mem[pos..p]), cfg.update)
    }

    /** Writes rows target, merged from the disk rows from biter to biter'
        and the memory rows from p to p', as the next block of
        MergeBlockData. */
    method AddMerged(mem: seq<Row>, pos: nat, p: nat, disk: seq<Row>, biter: nat, keyLimit: int,
                     isLastOneBlock: bool, ghost sup0: seq<Block>, ghost w0: seq<Built>, ghost added: seq<Block>,
                     target: seq<Built>, biter': nat, p': nat)
      returns (ghost added': seq<Block>)
      requires SortedRows(mem) && DiskSorted(disk)
      requires Merging(sup0, w0, added, mem, pos, p, disk, biter, keyLimit, isLastOneBlock)
      requires biter <= biter' <= |disk| && p <= p' <= |mem|
      requires forall q | p <= q < p' :: mem[q].key <= keyLimit
      requires target == Fold(Interleave(disk[biter..biter'], mem[p..p']), cfg.update)
      requires 0 < |target| <= DefaultRows(cfg)
      requires |target| < DefaultRows(cfg) ==> biter' == |disk| && (p' == |mem| || mem[p'].key > keyLimit)
      requires (forall q | biter <= q < biter' :: disk[q].key <= target[|target| - 1].key)
               && (forall q | p <= q < p' :: mem[q].key <= target[|target| - 1].key)
               && (biter' < |disk| ==> disk[biter'].key > target[|target| - 1].key)
               && (p' < |mem| ==> mem[p'].key > target[|target| - 1].key)
      modifies this
      ensures Merging(sup0, w0, added', mem, pos, p', disk, biter', keyLimit, isLastOneBlock)
      ensures aSubBlk == old(aSubBlk) && aBlkIdx == old(aBlkIdx) && infoParts == old(infoParts) && headEnd == old(headEnd)
    {
      MergedBlocks(disk, mem, pos, biter, p, biter', p', cfg.update);
      CutMoves(disk, mem, pos, biter, p, biter', p', target[|target| - 1].key);
      var b := WriteBlock(target, isLastOneBlock && |target| < cfg.minRows, true);
      CommitAddBlock(b, []);
      NewBlocksGrow(added, b, !isLastOneBlock, cfg);
      AppendParts(sup0, added, [b]);
      added' := added + [b];
      AppendParts(w0, Fold(Interleave(disk[..biter], mem[pos..p]), cfg.update), target);
    }

    /** One block of MergeBlockData: merges disk rows from biter and memory
        rows from p up to DefaultRows(cfg) rows and, when that builds any
        row, writes them as one block. */
    method MergeBlockStep(mem: seq<Row>, pos: nat, p: nat, disk: seq<Row>, biter: nat, keyLimit: int,
                          isLastOneBlock: bool, ghost sup0: seq<Block>, ghost w0: seq<Built>, ghost added: seq<Block>)
      returns (biter': nat, p': nat, wrote: bool, ghost added': seq<Block>)
      requires SortedRows(mem) && RowKeysValid(mem)
      requires DiskSorted(disk) && RowKeysValid(disk) && forall q | 0 <= q < |disk| :: disk[q].key <= keyLimit
      requires Merging(sup0, w0, added, mem, pos, p, disk, biter, keyLimit, isLastOneBlock)
      modifies this
      ensures Merging(sup0, w0, added', mem, pos, p', disk, biter', keyLimit, isLastOneBlock)
      ensures wrote ==> biter' - biter + p' - p > 0
      ensures !wrote ==> biter' == |disk| && Exhausted(mem, p', keyLimit) && added' == added
      ensures aSubBlk == old(aSubBlk) && aBlkIdx == old(aBlkIdx) && infoParts == old(infoParts) && headEnd == old(headEnd)
    {
      var target;
      target, biter', p' := LoadAndMergeFromCache(disk, biter, mem, p, keyLimit, DefaultRows(cfg), cfg.update);
      wrote := |target| > 0;
      added' := added;
      if wrote {
        added' := AddMerged(mem, pos, p, disk, biter, keyLimit, isLastOneBlock, sup0, w0, added, target, biter', p');
      }
    }

    /** Merges the rows of one old block, disk, with the memory rows from pos
        up to keyLimit into new blocks of DefaultRows(cfg) rows, the final
        one possibly smaller; a block goes to the last file only when the
        old block was the table's final one and the block holds fewer than
        minRows rows. The rows written are those of merging the two in key
        order. */
    method MergeBlockData(mem: seq<Row>, pos: nat, disk: seq<Row>, keyLimit: int, isLastOneBlock: bool)
      returns (pos': nat)
      requires Valid() && SortedRows(mem) && RowKeysValid(mem) && pos <= |mem|
      requires DiskSorted(disk) && RowKeysValid(disk) && forall q | 0 <= q < |disk| :: disk[q].key <= keyLimit
      modifies this
      ensures Valid()
      ensures pos <= pos' <= |mem| && Exhausted(mem, pos', keyLimit)
      ensures forall q | pos <= q < pos' :: mem[q].key <= keyLimit
      ensures aSubBlk == old(aSubBlk) && |old(aSupBlk)| <= |aSupBlk| && aSupBlk[..|old(aSupBlk)|] == old(aSupBlk)
      ensures NewBlocks(aSupBlk[|old(aSupBlk)|..], !isLastOneBlock, cfg)
      ensures writtenRows == old(writtenRows) + Fold(Interleave(disk, mem[pos..pos']), cfg.update)
      ensures aBlkIdx == old(aBlkIdx) && infoParts == old(infoParts) && headEnd == old(headEnd)
    {
      pos' := pos;
      var biter: nat := 0;
      ghost var added: seq<Block> := [];
      assert disk[..0] == [] && mem[pos..pos] == [];
      AppendParts(aSupBlk, [], []);
      AppendParts(writtenRows, [], []);
      while true
        invariant Merging(old(aSupBlk), old(writtenRows), added, mem, pos, pos', disk, biter, keyLimit, isLastOneBlock)
        invariant aSubBlk == old(aSubBlk) && aBlkIdx == old(aBlkIdx) && infoParts == old(infoParts)
        invariant headEnd == old(headEnd)
        decreases |disk| - biter + |mem| - pos'
      {
        var iter, p, wrote;
        iter, p, wrote, added := MergeBlockStep(mem, pos, pos', disk, biter, keyLimit, isLastOneBlock,
                                                old(aSupBlk), old(writtenRows), added);
        biter, pos' := iter, p;
        if !wrote {
          break;
        }
      }
      assert disk[..biter] == disk;
      AppendParts(old(aSupBlk), added, []);
    }

    /** The records after adding memory rows to old block bidx as one more
        sub-block, from sup0 and sub0: the block's record follows with the
        merged key range and row count, one more sub-block, and pointing at
        its sub-block records, which follow those gathered: the block itself
        when it had one, its stored ones otherwise, and a new one last, in
        the block's file, holding the rows inserted or updated. */
    ghost predicate SubBlockAdded(o: OldTable, bidx: nat, info: MergeInfo, sup0: seq<Block>, sub0: seq<Block>)
      requires bidx < |o.blocks| && blockSize > 0
      requires o.blocks[bidx].numOfSubBlocks > 1 ==>
                 0 <= RecordAt(o.blocks[bidx].offset, blockSize, infoSize)
                 && RecordAt(o.blocks[bidx].offset, blockSize, infoSize) + o.blocks[bidx].numOfSubBlocks <= |o.info|
      reads this
    {
      var b := o.blocks[bidx];
      |aSupBlk| == |sup0| + 1 && aSupBlk[..|sup0|] == sup0
      && aSupBlk[|sup0|] == b.(minKey := info.keyFirst, maxKey := info.keyLast, numOfSubBlocks := b.numOfSubBlocks + 1,
                              numOfRows := MergeRows(b, info), offset := blockSize * |sub0|)
      && |aSubBlk| > 0 && aSubBlk[..|aSubBlk| - 1] == sub0 + OldSubs(o, b, blockSize, infoSize)
      && aSubBlk[|aSubBlk| - 1].numOfSubBlocks == 0 && aSubBlk[|aSubBlk| - 1].last == b.last
      && aSubBlk[|aSubBlk| - 1].numOfRows == info.rowsInserted + info.rowsUpdated
    }

    /** Adds the memory rows merging into block bidx as one more sub-block:
        they are read again, now into rows, and written where the block is;
        the block's record gets the merged key range and row count, one more
        sub-block, and its sub-block records after those gathered so far:
        the block itself when it had one, its stored ones otherwise, and the
        new one last. */
    method AddSubBlock(mem: seq<Row>, pos: nat, o: OldTable, bidx: nat, info: MergeInfo) returns (pos': nat)
      requires Valid() && OldValid(o, cfg, maxKey, blockSize, infoSize) && bidx < |o.blocks|
      requires SortedRows(mem) && RowKeysValid(mem) && pos <= |mem|
      requires cfg.update ==> DeletesOffDisk(mem, pos, o.rows[bidx])
      requires info == RunFrom(BlockRead(mem, pos, o.rows[bidx], KeyLimit(o, bidx, maxKey), cfg, false), StartCursor()).info
      requires TakesSubBlock(o.blocks[bidx], info, cfg, isLFileSame, isDFileSame)
      modifies this
      ensures Valid()
      ensures var r := RunFrom(BlockRead(mem, pos, o.rows[bidx], KeyLimit(o, bidx, maxKey), cfg, false), StartCursor());
              pos' == pos + r.j
      ensures pos' <= |mem| && forall q | pos <= q < pos' :: mem[q].key <= KeyLimit(o, bidx, maxKey)
      ensures var r := RunFrom(BlockRead(mem, pos, o.rows[bidx], KeyLimit(o, bidx, maxKey), cfg, true), StartCursor());
              writtenRows == old(writtenRows) + r.target
      ensures SubBlockAdded(o, bidx, info, old(aSupBlk), old(aSubBlk))
      ensures aBlkIdx == old(aBlkIdx) && infoParts == old(infoParts) && headEnd == old(headEnd)
    {
      var b := o.blocks[bidx];
      assert OldBlock(b, o.rows[bidx], cfg);
      var consumed, target := ReadDelta(mem, pos, o.rows[bidx], KeyLimit(o, bidx, maxKey), cfg, b, info,
                                        isLFileSame, isDFileSame);
      AttachSubBlock(o, bidx, info, target);
      pos' := pos + consumed;
    }

    /** Writes rows target, the memory rows merging into old block bidx,
        where the block is, and adds the block's record with them as one
        more sub-block. */
    method AttachSubBlock(o: OldTable, bidx: nat, info: MergeInfo, target: seq<Built>)
      requires Valid() && OldValid(o, cfg, maxKey, blockSize, infoSize) && bidx < |o.blocks|
      requires Placeable(|target|, o.blocks[bidx].last, cfg) && |target| == info.rowsInserted + info.rowsUpdated
      requires Placeable(MergeRows(o.blocks[bidx], info), o.blocks[bidx].last, cfg)
      requires o.blocks[bidx].numOfSubBlocks < MaxSubBlocks
      modifies this
      ensures Valid()
      ensures writtenRows == old(writtenRows) + target
      ensures SubBlockAdded(o, bidx, info, old(aSupBlk), old(aSubBlk))
      ensures aBlkIdx == old(aBlkIdx) && infoParts == old(infoParts) && headEnd == old(headEnd)
    {
      var b := o.blocks[bidx];
      OldSubsShape(o, cfg, maxKey, blockSize, infoSize, bidx);
      var delta := WriteBlock(target, b.last, false);
      var sup := b.(minKey := info.keyFirst, maxKey := info.keyLast, numOfSubBlocks := b.numOfSubBlocks + 1,
                    numOfRows := MergeRows(b, info), offset := blockSize * |aSubBlk|);
      var subs := OldSubs(o, b, blockSize, infoSize);
      CommitAddBlock(sup, subs + [delta]);
      AppendParts(old(aSubBlk), subs, [delta]);
      AppendParts(old(aSubBlk) + subs, [delta], []);
      AppendParts(old(aSupBlk), [sup], []);
    }

    /** Merges the memory rows up to the key limit of old block bidx into it,
        after counting what they would do: when they change nothing the block
        is moved; when they delete all its rows it is dropped; when they fit
        as one more sub-block they are added as one; otherwise the block is
        rewritten merged with them. */
    method MergeMemData(mem: seq<Row>, pos: nat, o: OldTable, bidx: nat) returns (pos': nat, info: MergeInfo, path: MergePath)
      requires Valid() && OldValid(o, cfg, maxKey, blockSize, infoSize) && bidx < |o.blocks|
      requires SortedRows(mem) && RowKeysValid(mem) && pos <= |mem|
      requires cfg.update ==> DeletesOffDisk(mem, pos, o.rows[bidx])
      modifies this
      ensures Valid()
      ensures pos <= pos' <= |mem| && forall q | pos <= q < pos' :: mem[q].key <= KeyLimit(o, bidx, maxKey)
      ensures var r := RunFrom(BlockRead(mem, pos, o.rows[bidx], KeyLimit(o, bidx, maxKey), cfg, false), StartCursor());
              info == r.info && (path != Rewritten ==> pos' == pos + r.j)
      ensures path == PathOf(o.blocks[bidx], info, cfg, isLFileSame, isDFileSame)
      ensures path == Moved ==>
                |aSupBlk| == |old(aSupBlk)| + 1 && Keeps(o.blocks[bidx], aSupBlk[|aSupBlk| - 1])
                && BlockMoved(o, bidx, old(aSupBlk), old(aSubBlk), old(writtenRows), old(dataEnd), old(lastEnd))
      ensures path == Ignored ==> aSupBlk == old(aSupBlk) && aSubBlk == old(aSubBlk) && writtenRows == old(writtenRows)
      ensures path == SubBlock ==> SubBlockAdded(o, bidx, info, old(aSupBlk), old(aSubBlk))
      ensures path == Rewritten ==>
                Exhausted(mem, pos', KeyLimit(o, bidx, maxKey))
                && aSubBlk == old(aSubBlk) && |old(aSupBlk)| <= |aSupBlk| && aSupBlk[..|old(aSupBlk)|] == old(aSupBlk)
                && NewBlocks(aSupBlk[|old(aSupBlk)|..], bidx < |o.blocks| - 1, cfg)
                && writtenRows == old(writtenRows) + Fold(Interleave(o.rows[bidx], mem[pos..pos']), cfg.update)
      ensures aBlkIdx == old(aBlkIdx) && infoParts == old(infoParts) && headEnd == old(headEnd)
    {
      var b := o.blocks[bidx];
      var keyLimit := KeyLimit(o, bidx, maxKey);
      assert OldBlock(b, o.rows[bidx], cfg);
      var consumed;
      info, consumed := CountBlockRead(mem, pos, o.rows[bidx], keyLimit, cfg);
      path := PathOf(b, info, cfg, isLFileSame, isDFileSame);
      if path == Moved {
        MoveBlock(o, bidx);
        pos' := pos + consumed;
      } else if path == Ignored {
        pos' := pos + consumed;
      } else if path == SubBlock {
        pos' := AddSubBlock(mem, pos, o, bidx, info);
      } else {
        DiskBelowLimit(o, cfg, maxKey, blockSize, infoSize, bidx);
        pos' := MergeBlockData(mem, pos, o.rows[bidx], keyLimit, bidx == |o.blocks| - 1);
      }
    }

    /** Writes the block-info part of table (suid, uid): when any
        super-block was gathered, its records, followed by the sub-block
        records with every super-block's offset moved past the super-block
        records, are appended to the head file, 32-bit length and all, and
        the table's index entry is recorded unless its 32-bit block count is
        zero. A table left with no block writes nothing. */
    method WriteBlockInfo(suid: int, uid: int)
      requires Valid()
      modifies this
      ensures Valid() && aSupBlk == old(aSupBlk) && aSubBlk == old(aSubBlk) && writtenRows == old(writtenRows)
      ensures dataEnd == old(dataEnd) && lastEnd == old(lastEnd)
      ensures |aSupBlk| == 0 ==> infoParts == old(infoParts) && headEnd == old(headEnd)
      ensures |aSupBlk| > 0 ==>
                infoParts == old(infoParts) + [InfoBlocks(aSupBlk, aSubBlk, blockSize, infoSize)]
                && headEnd == old(headEnd) + ToU32(InfoLen(|aSupBlk|, |aSubBlk|, blockSize, infoSize))
                && Readable(infoParts[|infoParts| - 1], |aSupBlk|, blockSize, infoSize)
      ensures var x := IdxOf(suid, uid, aSupBlk, |aSubBlk|, blockSize, infoSize, old(headEnd));
              aBlkIdx == old(aBlkIdx) + (if x.numOfBlocks != 0 then [x] else [])
    {
      if |aSupBlk| == 0 {
        return;
      }
      WrittenReadable(aSupBlk, aSubBlk, blockSize, infoSize);
      var x := IdxOf(suid, uid, aSupBlk, |aSubBlk|, blockSize, infoSize, headEnd);
      infoParts := infoParts + [InfoBlocks(aSupBlk, aSubBlk, blockSize, infoSize)];
      headEnd := headEnd + ToU32(InfoLen(|aSupBlk|, |aSubBlk|, blockSize, infoSize));
      if x.numOfBlocks != 0 {
        aBlkIdx := aBlkIdx + [x];
      }
    }

    /** Commits table (suid, uid) to the file set: mem holds its memory rows
        not yet committed, o its blocks in the file set. With neither a
        block nor a memory row in range nothing is written. Otherwise the
        blocks and rows are walked in key order: a block is moved when the
        memory rows in range are used up or the next one lies past it (a
        block in the last file is never skipped that way), merged with the
        memory rows when it is in the last file or holds the next key, and
        the memory rows before the next block, or up to the end of the
        range, are written as blocks of their own. The block-info part is
        written last. Every memory row in range is consumed. */
    method CommitToTable(mem: seq<Row>, o: OldTable, suid: int, uid: int) returns (pos: nat)
      requires Valid() && OldValid(o, cfg, maxKey, blockSize, infoSize)
      requires SortedRows(mem) && RowKeysValid(mem)
      requires cfg.update ==> forall bidx | 0 <= bidx < |o.blocks| :: DeletesOffDisk(mem, 0, o.rows[bidx])
      modifies this
      ensures Valid()
      ensures pos <= |mem| && Exhausted(mem, pos, maxKey) && forall q | 0 <= q < pos :: mem[q].key <= maxKey
      ensures |o.blocks| == 0 && Exhausted(mem, 0, maxKey) ==>
                aSupBlk == [] && aSubBlk == [] && writtenRows == old(writtenRows)
                && dataEnd == old(dataEnd) && lastEnd == old(lastEnd)
      ensures |aSupBlk| == 0 ==> infoParts == old(infoParts) && headEnd == old(headEnd)
      ensures |aSupBlk| > 0 ==>
                infoParts == old(infoParts) + [InfoBlocks(aSupBlk, aSubBlk, blockSize, infoSize)]
                && headEnd == old(headEnd) + ToU32(InfoLen(|aSupBlk|, |aSubBlk|, blockSize, infoSize))
                && Readable(infoParts[|infoParts| - 1], |aSupBlk|, blockSize, infoSize)
      ensures var x := IdxOf(suid, uid, aSupBlk, |aSubBlk|, blockSize, infoSize, old(headEnd));
              aBlkIdx == old(aBlkIdx) + (if x.numOfBlocks != 0 then [x] else [])
    {
      aSupBlk, aSubBlk := [], [];
      pos := 0;
      if |o.blocks| == 0 && Exhausted(mem, 0, maxKey) {
        return;
      }
      var bidx: nat := 0;
      while true
        invariant Valid() && bidx <= |o.blocks| && pos <= |mem|
        invariant forall q | 0 <= q < pos :: mem[q].key <= maxKey
        invariant aBlkIdx == old(aBlkIdx) && infoParts == old(infoParts) && headEnd == old(headEnd)
        decreases |o.blocks| - bidx, |mem| - pos
      {
        var done := Exhausted(mem, pos, maxKey);
        if bidx == |o.blocks| && done {
          break;
        }
        if done || (bidx < |o.blocks| && !o.blocks[bidx].last && ComparKeyBlock(mem[pos].key, o.blocks[bidx]) > 0) {
          MoveBlock(o, bidx);
          bidx := bidx + 1;
        } else if bidx < |o.blocks| && (o.blocks[bidx].last || ComparKeyBlock(mem[pos].key, o.blocks[bidx]) == 0) {
          KeyLimitBelow(o, cfg, maxKey, blockSize, infoSize, bidx);
          assert DeletesOffDisk(mem, 0, o.rows[bidx]) ==> DeletesOffDisk(mem, pos, o.rows[bidx]);
          var info, path;
          pos, info, path := MergeMemData(mem, pos, o, bidx);
          bidx := bidx + 1;
        } else if bidx == |o.blocks| {
          pos := CommitMemData(mem, pos, maxKey, false);
        } else {
          KeyLimitBelow(o, cfg, maxKey, blockSize, infoSize, bidx);
          pos := CommitMemData(mem, pos, o.blocks[bidx].minKey - 1, true);
        }
      }
      WriteBlockInfo(suid, uid);
    }
  }
}
