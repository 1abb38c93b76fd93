// What the earlier commit path records about a block it writes: which of
// the block's columns are stored, the block's index record, how a
// super-block's index record finds the records of its sub-blocks, and the
// block-info part of the head file holding a table's block records.

module TsdbBlock {
  import opened TsdbRules

  // ---------------------------------------------------------------------
  // Columns of a block

  /** A column of the rows to write: its id, whether every row holds NULL in
      it, whether the schema keeps block statistics for it, and whether its
      type has a statistics function. */
  datatype Column = Column(colId: int, allNull: bool, bsmaOn: bool, hasStatis: bool)

  /** The columns after the timestamp column, which always comes first. */
  function Body(cols: seq<Column>): (b: seq<Column>)
    ensures |cols| > 0 ==> b == cols[1..]
    ensures |cols| == 0 ==> b == []
  {
    if |cols| == 0 then [] else cols[1..]
  }

  /** The columns a block stores besides the timestamp: those not all NULL,
      in schema order. */
  function Kept(cols: seq<Column>): seq<Column>
  {
    if |cols| == 0 then []
    else Kept(cols[..|cols| - 1]) + (if cols[|cols| - 1].allNull then [] else [cols[|cols| - 1]])
  }

  /** Whether a stored column gets block statistics: only in a super-block,
      only when the schema asks for them and the type can compute them. */
  predicate HasSma(c: Column, isSuper: bool)
  {
    isSuper && c.bsmaOn && c.hasStatis
  }

  /** How many stored columns get block statistics. */
  function SmaCount(cols: seq<Column>, isSuper: bool): nat
  {
    if |cols| == 0 then 0
    else SmaCount(cols[..|cols| - 1], isSuper)
         + (if !cols[|cols| - 1].allNull && HasSma(cols[|cols| - 1], isSuper) then 1 else 0)
  }

  /** A column is stored exactly when it is present and not all NULL. */
  lemma {:induction false} KeptColumns(cols: seq<Column>)
    ensures forall c :: c in Kept(cols) <==> c in cols && !c.allNull
  {
    if |cols| > 0 {
      var init := cols[..|cols| - 1];
      KeptColumns(init);
      assert cols == init + [cols[|cols| - 1]];
      forall c ensures c in Kept(cols) <==> c in cols && !c.allNull {
        assert c in cols <==> c in init || c == cols[|cols| - 1];
      }
    }
  }

  /** At most all columns are stored, and all of them when none is all
      NULL. */
  lemma {:induction false} KeptCount(cols: seq<Column>)
    ensures |Kept(cols)| <= |cols|
    ensures (forall i | 0 <= i < |cols| :: !cols[i].allNull) ==> Kept(cols) == cols
  {
    if |cols| > 0 {
      var init := cols[..|cols| - 1];
      KeptCount(init);
      if forall i | 0 <= i < |cols| :: !cols[i].allNull {
        assert forall i | 0 <= i < |init| :: !init[i].allNull;
        assert cols == init + [cols[|cols| - 1]];
      }
    }
  }

  /** Only stored columns get statistics, and none outside a super-block. */
  lemma {:induction false} SmaBounds(cols: seq<Column>, isSuper: bool)
    ensures SmaCount(cols, isSuper) <= |Kept(cols)|
    ensures !isSuper ==> SmaCount(cols, isSuper) == 0
    ensures (forall i | 0 <= i < |cols| :: HasSma(cols[i], isSuper)) ==> SmaCount(cols, isSuper) == |Kept(cols)|
  {
    if |cols| > 0 {
      SmaBounds(cols[..|cols| - 1], isSuper);
    }
  }

  /** The column pass of writing a block: from the column after the
      timestamp on, skip the all-NULL columns and count those with block
      statistics. */
  method SelectColumns(cols: seq<Column>, isSuper: bool) returns (kept: seq<Column>, nBSma: nat)
    ensures kept == Kept(Body(cols)) && nBSma == SmaCount(Body(cols), isSuper)
  {
    kept, nBSma := [], 0;
    if |cols| == 0 {
      return;
    }
    var ncol := 1;
    while ncol < |cols|
      invariant 1 <= ncol <= |cols|
      invariant kept == Kept(cols[1..ncol]) && nBSma == SmaCount(cols[1..ncol], isSuper)
    {
      assert cols[1..ncol + 1][..ncol - 1] == cols[1..ncol];
      if !cols[ncol].allNull {
        if HasSma(cols[ncol], isSuper) {
          nBSma := nBSma + 1;
        }
        kept := kept + [cols[ncol]];
      }
      ncol := ncol + 1;
    }
    assert cols[1..ncol] == cols[1..];
  }

  // ---------------------------------------------------------------------
  // The index record of a block written

  /** The index record of rows t written at offset: a super-block of its own
      or a sub-block, in the last or the data file. */
  function NewBlock(t: seq<Built>, isLast: bool, isSuper: bool, offset: int, nCols: int, nBSma: int): (b: Block)
    requires |t| > 0
  {
    Block(t[0].key, t[|t| - 1].key, |t|, if isSuper then 1 else 0, isLast, offset, nCols, nBSma, nBSma > 0)
  }

  /** The record of a block covers every key written into it, and only as
      many rows as were written. */
  lemma NewBlockCovers(t: seq<Built>, isLast: bool, isSuper: bool, offset: int, nCols: int, nBSma: int)
    requires |t| > 0 && IncreasingBuilt(t)
    ensures NewBlock(t, isLast, isSuper, offset, nCols, nBSma).minKey <= NewBlock(t, isLast, isSuper, offset, nCols, nBSma).maxKey
    ensures forall i | 0 <= i < |t| ::
      NewBlock(t, isLast, isSuper, offset, nCols, nBSma).minKey <= t[i].key <= NewBlock(t, isLast, isSuper, offset, nCols, nBSma).maxKey
    ensures NewBlock(t, isLast, isSuper, offset, nCols, nBSma).numOfRows == |t|
    ensures NewBlock(t, isLast, isSuper, offset, nCols, nBSma).numOfSubBlocks == (if isSuper then 1 else 0)
  {
    forall i | 0 <= i < |t|
      ensures t[0].key <= t[i].key <= t[|t| - 1].key
    {
      assert i == 0 || t[0].key < t[i].key;
      assert i == |t| - 1 || t[i].key < t[|t| - 1].key;
    }
  }

  // ---------------------------------------------------------------------
  // Super-blocks and their sub-blocks

  /** How many sub-block records a super-block's record points at: none for
      a block of its own. */
  function SubCount(b: Block): nat
  {
    if b.numOfSubBlocks > 1 then b.numOfSubBlocks else 0
  }

  /** Where the sub-block records of super-block i start among the
      sub-block records: after those of the super-blocks before it. */
  function Starts(sup: seq<Block>, i: nat): nat
    requires i <= |sup|
  {
    if i == 0 then 0 else Starts(sup, i - 1) + SubCount(sup[i - 1])
  }

  lemma {:induction false} StartsGrow(sup: seq<Block>, i: nat, j: nat)
    requires i <= j <= |sup|
    ensures Starts(sup, i) <= Starts(sup, j)
    decreases j - i
  {
    if i < j {
      StartsGrow(sup, i, j - 1);
    }
  }

  lemma {:induction false} StartsPrefix(sup: seq<Block>, b: Block, i: nat)
    requires i <= |sup|
    ensures Starts(sup + [b], i) == Starts(sup, i)
  {
    if i > 0 {
      StartsPrefix(sup, b, i - 1);
      assert (sup + [b])[i - 1] == sup[i - 1];
    }
  }

  /** The super-block records and sub-block records of a table being
      committed agree: every super-block has at least one sub-block, at most
      eight; one with several points, at blockSize bytes per record, at its
      own run of sub-block records; the runs follow each other in the order
      of the super-blocks and fill the sub-block records; and a sub-block
      record has no sub-blocks of its own. */
  ghost predicate Linked(sup: seq<Block>, sub: seq<Block>, blockSize: int)
  {
    |sub| == Starts(sup, |sup|)
    && (forall i | 0 <= i < |sup| ::
          1 <= sup[i].numOfSubBlocks <= MaxSubBlocks
          && (sup[i].numOfSubBlocks > 1 ==> sup[i].offset == blockSize * Starts(sup, i)))
    && (forall k | 0 <= k < |sub| :: sub[k].numOfSubBlocks == 0)
  }

  /** The sub-block records that may follow super-block b: none for a block
      of its own, otherwise as many as it has, with b pointing at the end of
      the sub-block records so far. */
  predicate Attachable(b: Block, subs: seq<Block>, nSub: nat, blockSize: int)
  {
    1 <= b.numOfSubBlocks <= MaxSubBlocks
    && (if b.numOfSubBlocks == 1 then subs == []
        else |subs| == b.numOfSubBlocks && b.offset == blockSize * nSub)
    && (forall k | 0 <= k < |subs| :: subs[k].numOfSubBlocks == 0)
  }

  /** Adding a super-block with its sub-blocks at the end keeps the records
      linked. */
  lemma AddLinked(sup: seq<Block>, sub: seq<Block>, blockSize: int, b: Block, subs: seq<Block>)
    requires Linked(sup, sub, blockSize) && Attachable(b, subs, |sub|, blockSize)
    ensures Linked(sup + [b], sub + subs, blockSize)
  {
    var sup2 := sup + [b];
    forall i | 0 <= i <= |sup| ensures Starts(sup2, i) == Starts(sup, i) {
      StartsPrefix(sup, b, i);
    }
    assert sup2[|sup|] == b;
    forall i | 0 <= i < |sup2|
      ensures 1 <= sup2[i].numOfSubBlocks <= MaxSubBlocks
      ensures sup2[i].numOfSubBlocks > 1 ==> sup2[i].offset == blockSize * Starts(sup2, i)
    {
      if i < |sup| {
        assert sup2[i] == sup[i];
      }
    }
  }

  /** The records of the sub-blocks of super-block i. */
  ghost function SubsOf(sup: seq<Block>, sub: seq<Block>, i: nat, blockSize: int): seq<Block>
    requires Linked(sup, sub, blockSize) && i < |sup|
  {
    StartsGrow(sup, i + 1, |sup|);
    sub[Starts(sup, i)..Starts(sup, i) + SubCount(sup[i])]
  }

  // ---------------------------------------------------------------------
  // The block-info part of the head file

  /** Bytes of the checksum that ends a block-info part. */
  const ChecksumSize: int := 4

  /** A super-block record as stored: one with several sub-blocks points
      past the header and the super-block records. */
  function Shift(b: Block, delta: int): Block
  {
    if b.numOfSubBlocks > 1 then b.(offset := b.offset + delta) else b
  }

  /** The records stored in a table's block-info part: the super-block
      records, each pointing at its sub-blocks' place in the part, followed
      by the sub-block records. infoSize is the size of the part's header. */
  function InfoBlocks(sup: seq<Block>, sub: seq<Block>, blockSize: int, infoSize: int): (r: seq<Block>)
    ensures |r| == |sup| + |sub|
    ensures forall i | 0 <= i < |sup| :: r[i].numOfSubBlocks == sup[i].numOfSubBlocks
    ensures forall k | 0 <= k < |sub| :: r[|sup| + k] == sub[k]
  {
    if |sub| > 0 then seq(|sup|, i requires 0 <= i < |sup| => Shift(sup[i], infoSize + blockSize * |sup|)) + sub
    else sup + sub
  }

  /** Size in bytes of a table's block-info part. */
  function InfoLen(nSup: nat, nSub: nat, blockSize: int, infoSize: int): int
  {
    infoSize + blockSize * (nSup + nSub) + ChecksumSize
  }

  /** Where the record of a byte offset in a block-info part is. */
  function RecordAt(offset: int, blockSize: int, infoSize: int): int
    requires blockSize > 0
  {
    (offset - infoSize) / blockSize
  }

  /** A block-info part read back: each of its first nSup records that has
      several sub-blocks points past the super-block records at whole
      records that lie in the part and have no sub-blocks of their own. */
  predicate Readable(info: seq<Block>, nSup: nat, blockSize: int, infoSize: int)
  {
    blockSize > 0 && nSup <= |info|
    && forall i | 0 <= i < nSup && info[i].numOfSubBlocks > 1 ::
         info[i].offset == infoSize + blockSize * RecordAt(info[i].offset, blockSize, infoSize)
         && nSup <= RecordAt(info[i].offset, blockSize, infoSize)
         && RecordAt(info[i].offset, blockSize, infoSize) + info[i].numOfSubBlocks <= |info|
         && forall k | RecordAt(info[i].offset, blockSize, infoSize) <= k
                       < RecordAt(info[i].offset, blockSize, infoSize) + info[i].numOfSubBlocks ::
              info[k].numOfSubBlocks == 0
  }

  /** The n sub-block records a stored super-block record points at. */
  function SubBlocksAt(info: seq<Block>, offset: int, n: nat, blockSize: int, infoSize: int): seq<Block>
    requires blockSize > 0 && 0 <= RecordAt(offset, blockSize, infoSize)
    requires RecordAt(offset, blockSize, infoSize) + n <= |info|
  {
    info[RecordAt(offset, blockSize, infoSize)..RecordAt(offset, blockSize, infoSize) + n]
  }

  /** Where the stored record of super-block i points. */
  lemma WrittenRecord(sup: seq<Block>, sub: seq<Block>, blockSize: int, infoSize: int, i: nat)
    requires Linked(sup, sub, blockSize) && blockSize > 0 && i < |sup| && sup[i].numOfSubBlocks > 1
    ensures InfoBlocks(sup, sub, blockSize, infoSize)[i].offset
            == infoSize + blockSize * RecordAt(InfoBlocks(sup, sub, blockSize, infoSize)[i].offset, blockSize, infoSize)
    ensures RecordAt(InfoBlocks(sup, sub, blockSize, infoSize)[i].offset, blockSize, infoSize) == |sup| + Starts(sup, i)
    ensures Starts(sup, i) + sup[i].numOfSubBlocks <= |sub|
  {
    StartsGrow(sup, i + 1, |sup|);
    var info := InfoBlocks(sup, sub, blockSize, infoSize);
    assert |sub| > 0;
    assert info[i].offset == sup[i].offset + (infoSize + blockSize * |sup|);
    assert sup[i].offset == blockSize * Starts(sup, i);
    Stored(info[i].offset, sup[i].offset, infoSize, blockSize, |sup|, Starts(sup, i));
  }

  /** A record at byte offset blockSize * s among the sub-block records,
      shifted past the header and n super-block records, is record n + s of
      the block-info part. */
  lemma Stored(stored: int, offset: int, infoSize: int, blockSize: int, n: int, s: int)
    requires blockSize > 0
    requires stored == offset + (infoSize + blockSize * n) && offset == blockSize * s
    ensures RecordAt(stored, blockSize, infoSize) == n + s
    ensures stored == infoSize + blockSize * RecordAt(stored, blockSize, infoSize)
  {
    assert stored - infoSize == blockSize * (n + s);
    WholeRecords(blockSize, n + s);
  }

  lemma WholeRecords(blockSize: int, m: int)
    requires blockSize > 0
    ensures (blockSize * m) % blockSize == 0 && (blockSize * m) / blockSize == m
  {
    var q, r := (blockSize * m) / blockSize, (blockSize * m) % blockSize;
    var d := m - q;
    assert blockSize * d == r by {
      assert blockSize * m == blockSize * q + r;
      assert blockSize * d == blockSize * m - blockSize * q;
    }
    if d > 0 {
      MulAtLeast(blockSize, d);
    }
  }

  lemma MulAtLeast(a: int, d: int)
    requires a > 0 && d > 0
    ensures a * d >= a
  {
    assert a * d == a + a * (d - 1);
    assert a * (d - 1) >= 0;
  }

  /** What is written reads back: a stored super-block record points at
      exactly the sub-block records it was added with, and every other field
      of the super-block records is kept. */
  lemma WrittenReadable(sup: seq<Block>, sub: seq<Block>, blockSize: int, infoSize: int)
    requires Linked(sup, sub, blockSize) && blockSize > 0
    ensures Readable(InfoBlocks(sup, sub, blockSize, infoSize), |sup|, blockSize, infoSize)
    ensures forall i | 0 <= i < |sup| ::
      InfoBlocks(sup, sub, blockSize, infoSize)[i] == sup[i].(offset := InfoBlocks(sup, sub, blockSize, infoSize)[i].offset)
    ensures forall i | 0 <= i < |sup| && sup[i].numOfSubBlocks > 1 ::
      SubBlocksAt(InfoBlocks(sup, sub, blockSize, infoSize), InfoBlocks(sup, sub, blockSize, infoSize)[i].offset,
                  sup[i].numOfSubBlocks, blockSize, infoSize)
      == SubsOf(sup, sub, i, blockSize)
  {
    var info := InfoBlocks(sup, sub, blockSize, infoSize);
    forall i | 0 <= i < |sup| && info[i].numOfSubBlocks > 1
      ensures info[i].offset == infoSize + blockSize * RecordAt(info[i].offset, blockSize, infoSize)
      ensures |sup| <= RecordAt(info[i].offset, blockSize, infoSize)
      ensures RecordAt(info[i].offset, blockSize, infoSize) + info[i].numOfSubBlocks <= |info|
      ensures forall k | RecordAt(info[i].offset, blockSize, infoSize) <= k
                         < RecordAt(info[i].offset, blockSize, infoSize) + info[i].numOfSubBlocks ::
                info[k].numOfSubBlocks == 0
      ensures SubBlocksAt(info, info[i].offset, sup[i].numOfSubBlocks, blockSize, infoSize) == SubsOf(sup, sub, i, blockSize)
    {
      WrittenSubs(sup, sub, blockSize, infoSize, info, i);
    }
  }

  /** The sub-block records an offset of record at points at. */
  lemma SubBlocksFrom(info: seq<Block>, offset: int, n: nat, blockSize: int, infoSize: int, at: nat)
    requires blockSize > 0 && RecordAt(offset, blockSize, infoSize) == at && at + n <= |info|
    ensures SubBlocksAt(info, offset, n, blockSize, infoSize) == info[at..at + n]
  {
  }

  /** A run of records of sub, stored after off other records: records
      without sub-blocks, in the same order. */
  lemma SliceAfter(info: seq<Block>, sub: seq<Block>, off: nat, lo: nat, n: nat)
    requires |info| == off + |sub| && lo + n <= |sub|
    requires forall k | 0 <= k < |sub| :: info[off + k] == sub[k]
    requires forall k | 0 <= k < |sub| :: sub[k].numOfSubBlocks == 0
    ensures forall k | off + lo <= k < off + lo + n :: info[k].numOfSubBlocks == 0
    ensures info[off + lo..off + lo + n] == sub[lo..lo + n]
  {
    forall k | off + lo <= k < off + lo + n ensures info[k].numOfSubBlocks == 0 {
      assert info[off + (k - off)] == sub[k - off];
    }
    var stored, run := info[off + lo..off + lo + n], sub[lo..lo + n];
    forall q | 0 <= q < n ensures stored[q] == run[q] {
      assert info[off + (lo + q)] == sub[lo + q];
    }
  }

  /** A record offset pointing at record off + lo of info, where the
      records of sub are stored after off others, points at the run of sub
      starting at lo. */
  lemma RunPointed(info: seq<Block>, sub: seq<Block>, off: nat, lo: nat, n: nat,
                   offset: int, blockSize: int, infoSize: int)
    requires blockSize > 0 && |info| == off + |sub| && lo + n <= |sub|
    requires RecordAt(offset, blockSize, infoSize) == off + lo
    requires forall k | 0 <= k < |sub| :: info[off + k] == sub[k]
    requires forall k | 0 <= k < |sub| :: sub[k].numOfSubBlocks == 0
    ensures RecordAt(offset, blockSize, infoSize) + n <= |info|
    ensures forall k | RecordAt(offset, blockSize, infoSize) <= k < RecordAt(offset, blockSize, infoSize) + n ::
              info[k].numOfSubBlocks == 0
    ensures SubBlocksAt(info, offset, n, blockSize, infoSize) == sub[lo..lo + n]
  {
    SliceAfter(info, sub, off, lo, n);
    SubBlocksFrom(info, offset, n, blockSize, infoSize, off + lo);
  }

  /** The sub-block records of super-block i with several sub-blocks. */
  lemma SubsOfRun(sup: seq<Block>, sub: seq<Block>, i: nat, blockSize: int)
    requires Linked(sup, sub, blockSize) && i < |sup| && sup[i].numOfSubBlocks > 1
    ensures Starts(sup, i) + sup[i].numOfSubBlocks <= |sub|
    ensures SubsOf(sup, sub, i, blockSize) == sub[Starts(sup, i)..Starts(sup, i) + sup[i].numOfSubBlocks]
  {
    RunInside(sup, i, |sup|);
  }

  lemma {:induction false} RunInside(sup: seq<Block>, i: nat, j: nat)
    requires i < j <= |sup|
    ensures Starts(sup, i) + SubCount(sup[i]) <= Starts(sup, j)
    decreases j
  {
    if j > i + 1 {
      RunInside(sup, i, j - 1);
    }
  }

  /** The stored record of super-block i points at its own sub-block records. */
  lemma WrittenSubs(sup: seq<Block>, sub: seq<Block>, blockSize: int, infoSize: int, info: seq<Block>, i: nat)
    requires Linked(sup, sub, blockSize) && blockSize > 0 && i < |sup| && sup[i].numOfSubBlocks > 1
    requires info == InfoBlocks(sup, sub, blockSize, infoSize)
    ensures info[i].offset == infoSize + blockSize * RecordAt(info[i].offset, blockSize, infoSize)
    ensures |sup| <= RecordAt(info[i].offset, blockSize, infoSize)
    ensures RecordAt(info[i].offset, blockSize, infoSize) + info[i].numOfSubBlocks <= |info|
    ensures forall k | RecordAt(info[i].offset, blockSize, infoSize) <= k
                       < RecordAt(info[i].offset, blockSize, infoSize) + info[i].numOfSubBlocks ::
              info[k].numOfSubBlocks == 0
    ensures SubBlocksAt(info, info[i].offset, sup[i].numOfSubBlocks, blockSize, infoSize) == SubsOf(sup, sub, i, blockSize)
  {
    WrittenRecord(sup, sub, blockSize, infoSize, i);
    SubsOfRun(sup, sub, i, blockSize);
    RunPointed(info, sub, |sup|, Starts(sup, i), sup[i].numOfSubBlocks, info[i].offset, blockSize, infoSize);
  }

  /** The index entry of a table's block-info part. */
  datatype BlockIdx = BlockIdx(suid: int, uid: int, hasLast: bool, maxKey: int, numOfBlocks: nat,
                               len: int, offset: int)

  /** The index entry of a table with no blocks: all zero. */
  const NoBlocks: BlockIdx := BlockIdx(0, 0, false, 0, 0, 0, 0)

  /** A value cast to an unsigned 32-bit field: its low 32 bits. */
  function ToU32(v: int): (r: nat)
    ensures r < 0x1_0000_0000
    ensures 0 <= v < 0x1_0000_0000 ==> r == v
  {
    v % 0x1_0000_0000
  }

  /** The index entry of the block-info part written at offset for table
      (suid, uid): the last super-block tells whether the table has a block
      in the last file and its greatest key. The block count, the part's
      length and its offset are stored in unsigned 32-bit fields. */
  function IdxOf(suid: int, uid: int, sup: seq<Block>, nSub: nat, blockSize: int, infoSize: int, offset: int): (x: BlockIdx)
    ensures |sup| > 0 ==> x.numOfBlocks == ToU32(|sup|)
    ensures |sup| > 0 ==> x.hasLast == sup[|sup| - 1].last && x.maxKey == sup[|sup| - 1].maxKey
    ensures |sup| > 0 ==> x.len == ToU32(InfoLen(|sup|, nSub, blockSize, infoSize)) && x.offset == ToU32(offset)
    ensures |sup| > 0 ==> x.suid == suid && x.uid == uid
    ensures |sup| == 0 ==> x == NoBlocks
  {
    if |sup| == 0 then NoBlocks
    else BlockIdx(suid, uid, sup[|sup| - 1].last, sup[|sup| - 1].maxKey, ToU32(|sup|),
                  ToU32(InfoLen(|sup|, nSub, blockSize, infoSize)), ToU32(offset))
  }
}
