// Loading the next block of rows to write from a disk block and the memory
// rows of its table, as the earlier commit path does when memory rows fall
// inside the key range of a block already on disk. Each call builds at most
// maxRows rows and resumes where the previous call stopped.

module TsdbMergeCache {
  import opened TsdbRules
  import opened TsdbMerge

  /** The key of the next memory row, or KeyMax when none is left at or below maxKey. */
  function NextMemKey(mem: seq<Row>, p: nat, maxKey: int): (k: int)
    ensures k == KeyMax <==> p >= |mem| || mem[p].key > maxKey || mem[p].key == KeyMax
    ensures k != KeyMax ==> p < |mem| && k == mem[p].key && k <= maxKey
  {
    if p < |mem| && mem[p].key <= maxKey then mem[p].key else KeyMax
  }

  /** The key of the next disk row, or KeyMax when none is left. */
  function NextDiskKey(disk: seq<Row>, iter: nat): (k: int)
    ensures k == KeyMax <==> iter >= |disk| || disk[iter].key == KeyMax
    ensures k != KeyMax ==> iter < |disk| && k == disk[iter].key
  {
    if iter < |disk| then disk[iter].key else KeyMax
  }

  /** The inputs of one call: the disk block and where its next row is, the
      memory rows and where the next one is, the largest key to take from
      memory, the most rows to build, and whether rows update. */
  datatype MergeArgs = MergeArgs(disk: seq<Row>, iter0: nat, mem: seq<Row>, p0: nat,
                                 maxKey: int, maxRows: int, update: bool)

  // Several predicates of this module read "(...) == true". The value is the
  // same as without the comparison; written this way, the solver keeps each
  // as one fact where it is only passed on instead of splitting it into its
  // conjuncts, which keeps the loop proofs small.

  predicate MergeArgsValid(a: MergeArgs)
  {
    (a.iter0 <= |a.disk| && a.p0 <= |a.mem| && a.maxRows > 0
     && DiskSorted(a.disk) && RowKeysValid(a.disk) && SortedRows(a.mem) && RowKeysValid(a.mem)
     && (forall q | 0 <= q < |a.disk| :: a.disk[q].key <= a.maxKey)) == true
  }

  lemma OpenArgs(a: MergeArgs)
    requires MergeArgsValid(a)
    ensures a.iter0 <= |a.disk| && a.p0 <= |a.mem| && a.maxRows > 0
    ensures DiskSorted(a.disk) && RowKeysValid(a.disk) && SortedRows(a.mem) && RowKeysValid(a.mem)
    ensures forall q | 0 <= q < |a.disk| :: a.disk[q].key <= a.maxKey
  {
  }

  /** t holds the rows of s from lo up to hi. */
  ghost predicate Run(s: seq<Row>, lo: nat, hi: nat, t: seq<Row>)
  {
    lo <= hi <= |s| && |t| == hi - lo && forall q | 0 <= q < |t| :: t[q] == s[lo + q]
  }

  lemma RunSnoc(s: seq<Row>, lo: nat, hi: nat, t: seq<Row>)
    requires Run(s, lo, hi, t) && hi < |s|
    ensures Run(s, lo, hi + 1, t + [s[hi]])
  {
  }

  lemma RunSlice(s: seq<Row>, lo: nat, hi: nat, t: seq<Row>)
    requires Run(s, lo, hi, t)
    ensures t == s[lo..hi]
  {
  }

  /** Where a call stands: the next disk and memory rows, the rows built, the
      key of the row being built and the index of that row, and the disk and
      memory rows taken so far. */
  datatype Pos = Pos(iter: nat, p: nat, target: seq<Built>, lastKey: int, numOfRows: int,
                     dtaken: seq<Row>, mtaken: seq<Row>)

  /** The rows taken are the runs of the two inputs from where the call started. */
  ghost predicate Runs(a: MergeArgs, c: Pos)
  {
    (Run(a.disk, a.iter0, c.iter, c.dtaken) && Run(a.mem, a.p0, c.p, c.mtaken)) == true
  }

  /** The rows built are the fold of the rows taken. */
  ghost predicate Folded(a: MergeArgs, c: Pos)
  {
    c.target == Fold(Interleave(c.dtaken, c.mtaken), a.update)
  }

  /** Where the two inputs stand against the key of the last row built, and
      the index of the row being built. */
  ghost predicate Keys(a: MergeArgs, c: Pos)
  {
    (a.iter0 <= c.iter <= |a.disk| && a.p0 <= c.p <= |a.mem|
     && c.lastKey == (if |c.target| == 0 then KeyMin else c.target[|c.target| - 1].key)
     && c.numOfRows == (if |c.target| == 0 then 0 else |c.target| - 1)
     && (|c.target| == 0 ==> c.iter == a.iter0 && c.p == a.p0)
     && (|c.target| > 0 ==> KeyMin < c.lastKey <= a.maxKey)
     && (c.iter > a.iter0 ==> a.disk[c.iter - 1].key <= c.lastKey)
     && (c.p > a.p0 ==> a.mem[c.p - 1].key <= c.lastKey)
     && (c.iter < |a.disk| ==> a.disk[c.iter].key > c.lastKey)
     && (c.p < |a.mem| ==> a.mem[c.p].key >= c.lastKey)
     && |c.target| <= a.maxRows) == true
  }

  ghost predicate Merged(a: MergeArgs, c: Pos)
  {
    Runs(a, c) && Folded(a, c) && Keys(a, c)
  }

  lemma OpenRuns(a: MergeArgs, c: Pos)
    requires Runs(a, c)
    ensures Run(a.disk, a.iter0, c.iter, c.dtaken) && Run(a.mem, a.p0, c.p, c.mtaken)
  {
  }

  lemma OpenKeys(a: MergeArgs, c: Pos)
    requires Keys(a, c)
    ensures a.iter0 <= c.iter <= |a.disk| && a.p0 <= c.p <= |a.mem|
    ensures c.lastKey == (if |c.target| == 0 then KeyMin else c.target[|c.target| - 1].key)
    ensures c.numOfRows == (if |c.target| == 0 then 0 else |c.target| - 1)
    ensures |c.target| == 0 ==> c.iter == a.iter0 && c.p == a.p0
    ensures |c.target| > 0 ==> KeyMin < c.lastKey <= a.maxKey
    ensures c.iter > a.iter0 ==> a.disk[c.iter - 1].key <= c.lastKey
    ensures c.p > a.p0 ==> a.mem[c.p - 1].key <= c.lastKey
    ensures c.iter < |a.disk| ==> a.disk[c.iter].key > c.lastKey
    ensures c.p < |a.mem| ==> a.mem[c.p].key >= c.lastKey
    ensures |c.target| <= a.maxRows
  {
  }

  /** Whether a call stops after a step: the target is full and, corrected,
      the next memory row does not repeat the key of the last row built. */
  predicate Stops(a: MergeArgs, c: Pos)
  {
    c.numOfRows >= a.maxRows - 1 && !(c.p < |a.mem| && a.mem[c.p].key == c.lastKey)
  }

  /** Between steps: rows built, and a full target only before a repeat of its last key. */
  ghost predicate Between(a: MergeArgs, c: Pos)
  {
    (Merged(a, c) && (|c.target| == a.maxRows ==> c.p < |a.mem| && a.mem[c.p].key == c.lastKey)) == true
  }

  /** After a step, before the stop test. */
  ghost predicate Stepped(a: MergeArgs, c: Pos)
  {
    (Merged(a, c) && |c.target| > 0) == true
  }

  lemma OpenBetween(a: MergeArgs, c: Pos)
    requires Between(a, c)
    ensures Merged(a, c) && (|c.target| == a.maxRows ==> c.p < |a.mem| && a.mem[c.p].key == c.lastKey)
  {
  }

  /** Between steps, the positions lie within the inputs. */
  lemma Bounded(a: MergeArgs, c: Pos)
    requires Between(a, c)
    ensures c.iter <= |a.disk| && c.p <= |a.mem|
  {
    OpenKeys(a, c);
  }

  lemma OpenStepped(a: MergeArgs, c: Pos)
    requires Stepped(a, c)
    ensures Merged(a, c) && |c.target| > 0
  {
  }

  lemma Resume(a: MergeArgs, c: Pos)
    requires Stepped(a, c) && !Stops(a, c)
    ensures Between(a, c)
  {
  }

  lemma Start(a: MergeArgs)
    requires MergeArgsValid(a)
    ensures Between(a, Pos(a.iter0, a.p0, [], KeyMin, 0, [], []))
  {
    OpenArgs(a);
  }

  /** What a call has done when it returns. */
  ghost predicate Loaded(a: MergeArgs, target: seq<Built>, iter: nat, p: nat)
  {
    (a.iter0 <= iter <= |a.disk| && a.p0 <= p <= |a.mem|
    && (forall q | a.p0 <= q < p :: a.mem[q].key <= a.maxKey)
    && target == Fold(Interleave(a.disk[a.iter0..iter], a.mem[a.p0..p]), a.update)
    && |target| <= a.maxRows
    && (|target| < a.maxRows ==> iter == |a.disk| && (p == |a.mem| || a.mem[p].key > a.maxKey))
    && (|target| == 0 ==> iter == a.iter0 && p == a.p0)
    && (|target| > 0 ==>
      (forall q | a.iter0 <= q < iter :: a.disk[q].key <= target[|target| - 1].key)
      && (forall q | a.p0 <= q < p :: a.mem[q].key <= target[|target| - 1].key)
      && (iter < |a.disk| ==> a.disk[iter].key > target[|target| - 1].key)
      && (p < |a.mem| ==> a.mem[p].key > target[|target| - 1].key))) == true
  }

  lemma OpenLoaded(a: MergeArgs, target: seq<Built>, iter: nat, p: nat)
    requires Loaded(a, target, iter, p)
    ensures a.iter0 <= iter <= |a.disk| && a.p0 <= p <= |a.mem|
    ensures forall q | a.p0 <= q < p :: a.mem[q].key <= a.maxKey
    ensures target == Fold(Interleave(a.disk[a.iter0..iter], a.mem[a.p0..p]), a.update)
    ensures |target| <= a.maxRows
    ensures |target| < a.maxRows ==> iter == |a.disk| && (p == |a.mem| || a.mem[p].key > a.maxKey)
    ensures |target| == 0 ==> iter == a.iter0 && p == a.p0
    ensures |target| > 0 ==>
      (forall q | a.iter0 <= q < iter :: a.disk[q].key <= target[|target| - 1].key)
      && (forall q | a.p0 <= q < p :: a.mem[q].key <= target[|target| - 1].key)
      && (iter < |a.disk| ==> a.disk[iter].key > target[|target| - 1].key)
      && (p < |a.mem| ==> a.mem[p].key > target[|target| - 1].key)
  {
  }

  /** Every row taken is at or below the key of the last row built, and
      every memory row taken at or below maxKey; the rows taken are the runs
      of the inputs from where the call started. */
  lemma TakenBelow(a: MergeArgs, c: Pos)
    requires MergeArgsValid(a) && Merged(a, c)
    ensures c.dtaken == a.disk[a.iter0..c.iter] && c.mtaken == a.mem[a.p0..c.p]
    ensures forall q | a.iter0 <= q < c.iter :: a.disk[q].key <= c.lastKey
    ensures forall q | a.p0 <= q < c.p :: a.mem[q].key <= c.lastKey
    ensures forall q | a.p0 <= q < c.p :: a.mem[q].key <= a.maxKey
  {
    OpenArgs(a);
    OpenRuns(a, c);
    OpenKeys(a, c);
    RunSlice(a.disk, a.iter0, c.iter, c.dtaken);
    RunSlice(a.mem, a.p0, c.p, c.mtaken);
    forall q | a.iter0 <= q < c.iter ensures a.disk[q].key <= c.lastKey {
      assert a.disk[q].key <= a.disk[c.iter - 1].key;
    }
    forall q | a.p0 <= q < c.p ensures a.mem[q].key <= c.lastKey {
      assert a.mem[q].key <= a.mem[c.p - 1].key;
    }
  }

  /** Both inputs drained: every disk row and every memory row up to maxKey taken. */
  lemma FinishDrained(a: MergeArgs, c: Pos)
    requires MergeArgsValid(a) && Between(a, c)
    requires NextDiskKey(a.disk, c.iter) == KeyMax && NextMemKey(a.mem, c.p, a.maxKey) == KeyMax
    ensures Loaded(a, c.target, c.iter, c.p)
  {
    OpenBetween(a, c);
    OpenKeys(a, c);
    TakenBelow(a, c);
  }

  /** A full target, the next memory row not repeating its last key. */
  lemma FinishFull(a: MergeArgs, c: Pos)
    requires MergeArgsValid(a) && Stepped(a, c) && Stops(a, c)
    ensures Loaded(a, c.target, c.iter, c.p)
  {
    OpenStepped(a, c);
    OpenKeys(a, c);
    TakenBelow(a, c);
  }

  /** What the inputs say about the rows at the two positions and right after them. */
  ghost predicate Local(a: MergeArgs, iter: nat, p: nat)
  {
    (iter < |a.disk| ==> ValidKey(a.disk[iter].key) && a.disk[iter].key <= a.maxKey)
    && (iter + 1 < |a.disk| ==> a.disk[iter].key < a.disk[iter + 1].key)
    && (p < |a.mem| ==> ValidKey(a.mem[p].key))
    && (p + 1 < |a.mem| ==> a.mem[p].key <= a.mem[p + 1].key)
  }

  lemma LocalFacts(a: MergeArgs, iter: nat, p: nat)
    requires MergeArgsValid(a)
    ensures Local(a, iter, p)
  {
    OpenArgs(a);
  }

  /** A disk row above every memory row taken and above the last row built
      starts a row of its own. */
  lemma FoldDiskNew(d: seq<Row>, s: seq<Row>, t: seq<Built>, x: Row, update: bool)
    requires t == Fold(Interleave(d, s), update)
    requires |s| == 0 || s[|s| - 1].key < x.key
    requires |t| == 0 || t[|t| - 1].key != x.key
    ensures Fold(Interleave(d + [x], s), update) == t + [Built(x.key, [x])]
  {
    InterleaveDisk(d, x, s);
    FoldSnoc(Interleave(d, s), x, update);
  }

  /** A memory row not below any disk row taken and not repeating the last
      row built starts a row of its own. */
  lemma FoldMemNew(d: seq<Row>, s: seq<Row>, t: seq<Built>, y: Row, update: bool)
    requires t == Fold(Interleave(d, s), update)
    requires |d| == 0 || d[|d| - 1].key <= y.key
    requires |t| == 0 || t[|t| - 1].key != y.key
    ensures Fold(Interleave(d, s + [y]), update) == t + [Built(y.key, [y])]
  {
    InterleaveMem(d, s, y);
    FoldSnoc(Interleave(d, s), y, update);
  }

  /** A memory row repeating the key of the last row built, not below any
      disk row taken, is merged into it with update and dropped otherwise. */
  lemma FoldMemRepeat(d: seq<Row>, s: seq<Row>, t: seq<Built>, y: Row, update: bool)
    requires t == Fold(Interleave(d, s), update)
    requires |d| == 0 || d[|d| - 1].key <= y.key
    requires |t| > 0 && t[|t| - 1].key == y.key
    ensures Fold(Interleave(d, s + [y]), update) == if update then MergeLast(t, y) else t
  {
    InterleaveMem(d, s, y);
    FoldSnoc(Interleave(d, s), y, update);
  }

  /** Where a call stands after taking the next disk row into a row of its own. */
  ghost function DiskTaken(a: MergeArgs, c: Pos): Pos
    requires c.iter < |a.disk|
  {
    var x := a.disk[c.iter];
    Pos(c.iter + 1, c.p, c.target + [Built(x.key, [x])], x.key,
        if c.lastKey != KeyMin then c.numOfRows + 1 else c.numOfRows, c.dtaken + [x], c.mtaken)
  }

  /** Where a call stands after taking the next memory row into a row of its own. */
  ghost function MemNewTaken(a: MergeArgs, c: Pos): Pos
    requires c.p < |a.mem|
  {
    var y := a.mem[c.p];
    Pos(c.iter, c.p + 1, c.target + [Built(y.key, [y])], y.key,
        if c.lastKey != KeyMin then c.numOfRows + 1 else c.numOfRows, c.dtaken, c.mtaken + [y])
  }

  /** Where a call stands after merging the next memory row into the row
      being built, or dropping it. */
  ghost function MemRepeatTaken(a: MergeArgs, c: Pos): Pos
    requires c.p < |a.mem|
  {
    var y := a.mem[c.p];
    Pos(c.iter, c.p + 1, if a.update then MergeLast(c.target, y) else c.target, c.lastKey,
        c.numOfRows, c.dtaken, c.mtaken + [y])
  }

  /** Where a call stands after taking the next disk row and the next memory
      row of the same key. */
  ghost function BothTaken(a: MergeArgs, c: Pos): Pos
    requires c.iter < |a.disk| && c.p < |a.mem|
  {
    var x, y := a.disk[c.iter], a.mem[c.p];
    Pos(c.iter + 1, c.p + 1, StartMerged(c.target, x, y, a.update), x.key,
        if c.lastKey != KeyMin then c.numOfRows + 1 else c.numOfRows, c.dtaken + [x], c.mtaken + [y])
  }

  /** The rows built after starting a row with disk row x and merging memory
      row y of the same key into it with update, or dropping y without. */
  function StartMerged(t: seq<Built>, x: Row, y: Row, update: bool): seq<Built>
  {
    if update then MergeLast(t + [Built(x.key, [x])], y) else t + [Built(x.key, [x])]
  }

  /** Starting a row with x adds one row, of x's key. */
  lemma StartMergedShape(t: seq<Built>, x: Row, y: Row, update: bool)
    ensures |StartMerged(t, x, y, update)| == |t| + 1
    ensures StartMerged(t, x, y, update)[|t|].key == x.key
  {
    MergeLastKeeps(t + [Built(x.key, [x])], y);
  }

  lemma KeysDisk(a: MergeArgs, c: Pos)
    requires Keys(a, c) && Local(a, c.iter, c.p)
    requires NextDiskKey(a.disk, c.iter) < NextMemKey(a.mem, c.p, a.maxKey)
    requires |c.target| == a.maxRows ==> c.p < |a.mem| && a.mem[c.p].key == c.lastKey
    ensures c.iter < |a.disk| && Keys(a, DiskTaken(a, c))
  {
    OpenKeys(a, c);
    if c.p < |a.mem| {
      assert ValidKey(a.mem[c.p].key);
    }
  }

  lemma KeysMemNew(a: MergeArgs, c: Pos)
    requires Keys(a, c) && Local(a, c.iter, c.p)
    requires NextDiskKey(a.disk, c.iter) > NextMemKey(a.mem, c.p, a.maxKey)
    requires NextMemKey(a.mem, c.p, a.maxKey) != c.lastKey
    requires |c.target| == a.maxRows ==> c.p < |a.mem| && a.mem[c.p].key == c.lastKey
    ensures c.p < |a.mem| && Keys(a, MemNewTaken(a, c))
  {
    OpenKeys(a, c);
  }

  lemma KeysMemRepeat(a: MergeArgs, c: Pos)
    requires Keys(a, c) && Local(a, c.iter, c.p)
    requires NextDiskKey(a.disk, c.iter) > NextMemKey(a.mem, c.p, a.maxKey)
    requires NextMemKey(a.mem, c.p, a.maxKey) == c.lastKey
    ensures c.p < |a.mem| && |c.target| > 0 && Keys(a, MemRepeatTaken(a, c))
  {
    OpenKeys(a, c);
    MergeLastKeeps(c.target, a.mem[c.p]);
  }

  lemma KeysBoth(a: MergeArgs, c: Pos)
    requires Keys(a, c) && Local(a, c.iter, c.p)
    requires NextDiskKey(a.disk, c.iter) == NextMemKey(a.mem, c.p, a.maxKey) != KeyMax
    requires |c.target| == a.maxRows ==> c.p < |a.mem| && a.mem[c.p].key == c.lastKey
    ensures c.iter < |a.disk| && c.p < |a.mem| && c.lastKey < a.disk[c.iter].key
    ensures Keys(a, BothTaken(a, c))
  {
    OpenKeys(a, c);
    StartMergedShape(c.target, a.disk[c.iter], a.mem[c.p], a.update);
  }

  /** The facts about the last rows taken and built that a step needs. */
  lemma Edges(a: MergeArgs, c: Pos)
    requires Runs(a, c) && Keys(a, c)
    ensures |c.dtaken| == 0 || c.dtaken[|c.dtaken| - 1].key <= c.lastKey
    ensures |c.mtaken| == 0 || c.mtaken[|c.mtaken| - 1].key <= c.lastKey
    ensures |c.target| == 0 || c.target[|c.target| - 1].key == c.lastKey
    ensures c.iter < |a.disk| ==> a.disk[c.iter].key > c.lastKey
    ensures c.p < |a.mem| ==> a.mem[c.p].key >= c.lastKey
  {
    OpenRuns(a, c);
    OpenKeys(a, c);
    if |c.dtaken| > 0 {
      assert c.dtaken[|c.dtaken| - 1] == a.disk[c.iter - 1];
    }
    if |c.mtaken| > 0 {
      assert c.mtaken[|c.mtaken| - 1] == a.mem[c.p - 1];
    }
  }

  lemma RunsDisk(a: MergeArgs, c: Pos)
    requires Runs(a, c) && c.iter < |a.disk|
    ensures Runs(a, DiskTaken(a, c))
  {
    OpenRuns(a, c);
    RunSnoc(a.disk, a.iter0, c.iter, c.dtaken);
  }

  lemma RunsMemNew(a: MergeArgs, c: Pos)
    requires Runs(a, c) && c.p < |a.mem|
    ensures Runs(a, MemNewTaken(a, c))
  {
    OpenRuns(a, c);
    RunSnoc(a.mem, a.p0, c.p, c.mtaken);
  }

  lemma RunsMemRepeat(a: MergeArgs, c: Pos)
    requires Runs(a, c) && c.p < |a.mem|
    ensures Runs(a, MemRepeatTaken(a, c))
  {
    OpenRuns(a, c);
    RunSnoc(a.mem, a.p0, c.p, c.mtaken);
  }

  lemma RunsBoth(a: MergeArgs, c: Pos)
    requires Runs(a, c) && c.iter < |a.disk| && c.p < |a.mem|
    ensures Runs(a, BothTaken(a, c))
  {
    OpenRuns(a, c);
    RunSnoc(a.disk, a.iter0, c.iter, c.dtaken);
    RunSnoc(a.mem, a.p0, c.p, c.mtaken);
  }

  lemma FoldedDisk(a: MergeArgs, c: Pos)
    requires Runs(a, c) && Folded(a, c) && Keys(a, c) && c.iter < |a.disk|
    requires c.p < |a.mem| ==> a.disk[c.iter].key < a.mem[c.p].key
    ensures Folded(a, DiskTaken(a, c))
  {
    Edges(a, c);
    FoldDiskNew(c.dtaken, c.mtaken, c.target, a.disk[c.iter], a.update);
  }

  lemma FoldedMemNew(a: MergeArgs, c: Pos)
    requires Runs(a, c) && Folded(a, c) && Keys(a, c) && c.p < |a.mem|
    requires c.iter < |a.disk| ==> a.mem[c.p].key < a.disk[c.iter].key
    requires a.mem[c.p].key != c.lastKey
    ensures Folded(a, MemNewTaken(a, c))
  {
    Edges(a, c);
    FoldMemNew(c.dtaken, c.mtaken, c.target, a.mem[c.p], a.update);
  }

  lemma FoldedMemRepeat(a: MergeArgs, c: Pos)
    requires Runs(a, c) && Folded(a, c) && Keys(a, c) && c.p < |a.mem|
    requires a.mem[c.p].key == c.lastKey && |c.target| > 0
    ensures Folded(a, MemRepeatTaken(a, c))
  {
    Edges(a, c);
    FoldMemRepeat(c.dtaken, c.mtaken, c.target, a.mem[c.p], a.update);
  }

  lemma FoldedBoth(a: MergeArgs, c: Pos)
    requires Runs(a, c) && Folded(a, c) && Keys(a, c) && c.iter < |a.disk| && c.p < |a.mem|
    requires a.disk[c.iter].key == a.mem[c.p].key && c.lastKey < a.disk[c.iter].key
    ensures Folded(a, BothTaken(a, c))
  {
    Edges(a, c);
    var x := a.disk[c.iter];
    FoldDiskNew(c.dtaken, c.mtaken, c.target, x, a.update);
    FoldMemRepeat(c.dtaken + [x], c.mtaken, c.target + [Built(x.key, [x])], a.mem[c.p], a.update);
  }

  /** The next disk row, below the next memory row, starts a row of its own. */
  lemma TakeDisk(a: MergeArgs, c: Pos, n: Pos)
    requires Between(a, c) && Local(a, c.iter, c.p)
    requires NextDiskKey(a.disk, c.iter) < NextMemKey(a.mem, c.p, a.maxKey)
    requires n.iter == DiskTaken(a, c).iter
    requires n.p == DiskTaken(a, c).p
    requires n.target == DiskTaken(a, c).target
    requires n.lastKey == DiskTaken(a, c).lastKey
    requires n.numOfRows == DiskTaken(a, c).numOfRows
    requires n.dtaken == DiskTaken(a, c).dtaken
    requires n.mtaken == DiskTaken(a, c).mtaken
    ensures c.iter < |a.disk| && Stepped(a, n)
  {
    assert n == DiskTaken(a, c);
    OpenBetween(a, c);
    KeysDisk(a, c);
    RunsDisk(a, c);
    FoldedDisk(a, c);
  }

  /** The next memory row, below the next disk row and repeating the key of
      the row being built, is merged into it with update and dropped otherwise. */
  lemma TakeMemRepeat(a: MergeArgs, c: Pos, n: Pos)
    requires Between(a, c) && Local(a, c.iter, c.p)
    requires NextDiskKey(a.disk, c.iter) > NextMemKey(a.mem, c.p, a.maxKey)
    requires NextMemKey(a.mem, c.p, a.maxKey) == c.lastKey
    requires n.iter == MemRepeatTaken(a, c).iter
    requires n.p == MemRepeatTaken(a, c).p
    requires n.target == MemRepeatTaken(a, c).target
    requires n.lastKey == MemRepeatTaken(a, c).lastKey
    requires n.numOfRows == MemRepeatTaken(a, c).numOfRows
    requires n.dtaken == MemRepeatTaken(a, c).dtaken
    requires n.mtaken == MemRepeatTaken(a, c).mtaken
    ensures c.p < |a.mem| && |c.target| > 0 && Stepped(a, n)
  {
    assert n == MemRepeatTaken(a, c);
    OpenBetween(a, c);
    KeysMemRepeat(a, c);
    RunsMemRepeat(a, c);
    FoldedMemRepeat(a, c);
  }

  /** The next memory row, below the next disk row and above the key of the
      row being built, starts a row of its own. */
  lemma TakeMemNew(a: MergeArgs, c: Pos, n: Pos)
    requires Between(a, c) && Local(a, c.iter, c.p)
    requires NextDiskKey(a.disk, c.iter) > NextMemKey(a.mem, c.p, a.maxKey)
    requires NextMemKey(a.mem, c.p, a.maxKey) != c.lastKey
    requires n.iter == MemNewTaken(a, c).iter
    requires n.p == MemNewTaken(a, c).p
    requires n.target == MemNewTaken(a, c).target
    requires n.lastKey == MemNewTaken(a, c).lastKey
    requires n.numOfRows == MemNewTaken(a, c).numOfRows
    requires n.dtaken == MemNewTaken(a, c).dtaken
    requires n.mtaken == MemNewTaken(a, c).mtaken
    ensures c.p < |a.mem| && Stepped(a, n)
  {
    assert n == MemNewTaken(a, c);
    OpenBetween(a, c);
    KeysMemNew(a, c);
    RunsMemNew(a, c);
    FoldedMemNew(a, c);
  }

  /** The next disk row and the next memory row share a key: a row of that
      key starts with the disk row, and the memory row is merged into it with
      update and dropped otherwise. */
  lemma TakeBoth(a: MergeArgs, c: Pos, n: Pos)
    requires Between(a, c) && Local(a, c.iter, c.p)
    requires NextDiskKey(a.disk, c.iter) == NextMemKey(a.mem, c.p, a.maxKey) != KeyMax
    requires n.iter == BothTaken(a, c).iter
    requires n.p == BothTaken(a, c).p
    requires n.target == BothTaken(a, c).target
    requires n.lastKey == BothTaken(a, c).lastKey
    requires n.numOfRows == BothTaken(a, c).numOfRows
    requires n.dtaken == BothTaken(a, c).dtaken
    requires n.mtaken == BothTaken(a, c).mtaken
    ensures c.iter < |a.disk| && c.p < |a.mem| && c.lastKey < a.disk[c.iter].key
    ensures Stepped(a, n)
  {
    assert n == BothTaken(a, c);
    OpenBetween(a, c);
    KeysBoth(a, c);
    RunsBoth(a, c);
    FoldedBoth(a, c);
  }

  /** The variables one call updates: the next disk and memory rows, the
      rows built, the key of the row being built and its index. */
  datatype MergeState = MergeState(iter: nat, p: nat, target: seq<Built>, lastKey: int, numOfRows: int)

  /** One step of a call, on its variables: a disk row below the next memory
      row starts a row; a memory row below the next disk row is merged into
      the row being built when it repeats its key and starts a row otherwise;
      a disk row and a memory row of one key start a row from the disk row,
      the memory row merged in with update. Each step takes at least one row. */
  function MergeStepOf(a: MergeArgs, st: MergeState): (r: MergeState)
    requires RowKeysValid(a.disk) && RowKeysValid(a.mem) && st.iter <= |a.disk| && st.p <= |a.mem|
    requires NextDiskKey(a.disk, st.iter) != KeyMax || NextMemKey(a.mem, st.p, a.maxKey) != KeyMax
    ensures st.iter <= r.iter <= |a.disk| && st.p <= r.p <= |a.mem| && st.iter + st.p < r.iter + r.p
    ensures r.iter + r.p <= st.iter + st.p + 2
  {
    var key1 := NextDiskKey(a.disk, st.iter);
    var key2 := NextMemKey(a.mem, st.p, a.maxKey);
    var n := if st.lastKey != KeyMin then st.numOfRows + 1 else st.numOfRows;
    if key1 < key2 then
      MergeState(st.iter + 1, st.p, st.target + [Built(key1, [a.disk[st.iter]])], key1, n)
    else if key1 > key2 then
      if key2 == st.lastKey then
        MergeState(st.iter, st.p + 1, if a.update then MergeLast(st.target, a.mem[st.p]) else st.target,
                   st.lastKey, st.numOfRows)
      else
        MergeState(st.iter, st.p + 1, st.target + [Built(key2, [a.mem[st.p]])], key2, n)
    else
      MergeState(st.iter + 1, st.p + 1, StartMerged(st.target, a.disk[st.iter], a.mem[st.p], a.update), key1, n)
  }

  /** A call as written: it stops as soon as maxRows - 1 rows lie before the
      row being built, even when the next memory row repeats that row's key. */
  function RunAsWritten(a: MergeArgs, st: MergeState): (r: MergeState)
    requires RowKeysValid(a.disk) && RowKeysValid(a.mem) && st.iter <= |a.disk| && st.p <= |a.mem|
    ensures st.iter <= r.iter <= |a.disk| && st.p <= r.p <= |a.mem|
    decreases |a.disk| - st.iter + |a.mem| - st.p
  {
    if NextDiskKey(a.disk, st.iter) == KeyMax && NextMemKey(a.mem, st.p, a.maxKey) == KeyMax then st
    else
      var n := MergeStepOf(a, st);
      if n.numOfRows >= a.maxRows - 1 then n else RunAsWritten(a, n)
  }

  /** The inputs of a call that shows the as-written stop splitting a key. */
  const SplitDisk: seq<Row> := [Row(1, false, 0)]
  const SplitMem: seq<Row> := [Row(2, false, 1), Row(2, false, 2)]

  function SplitArgs(iter0: nat, p0: nat): MergeArgs
  {
    MergeArgs(SplitDisk, iter0, SplitMem, p0, 10, 2, false)
  }

  /** As written, the first call builds two rows and stops with the next
      memory row repeating the key of the last one. */
  lemma SplitFirstBlock()
    ensures RunAsWritten(SplitArgs(0, 0), MergeState(0, 0, [], KeyMin, 0))
      == MergeState(1, 1, [Built(1, [Row(1, false, 0)]), Built(2, [Row(2, false, 1)])], 2, 1)
  {
    var a := SplitArgs(0, 0);
    var s1 := MergeStepOf(a, MergeState(0, 0, [], KeyMin, 0));
    assert s1 == MergeState(1, 0, [Built(1, [Row(1, false, 0)])], 1, 0);
    assert MergeStepOf(a, s1)
      == MergeState(1, 1, [Built(1, [Row(1, false, 0)]), Built(2, [Row(2, false, 1)])], 2, 1);
  }

  /** As written, the call that resumes there starts a row of key 2 again. */
  lemma SplitSecondBlock()
    ensures RunAsWritten(SplitArgs(1, 1), MergeState(1, 1, [], KeyMin, 0))
      == MergeState(1, 2, [Built(2, [Row(2, false, 2)])], 2, 0)
  {
    assert MergeStepOf(SplitArgs(1, 1), MergeState(1, 1, [], KeyMin, 0))
      == MergeState(1, 2, [Built(2, [Row(2, false, 2)])], 2, 0);
  }

  /** Without update, the rows of the inputs fold into one row per key. */
  lemma SplitFold()
    ensures Fold(Interleave(SplitDisk, SplitMem), false)
      == [Built(1, [Row(1, false, 0)]), Built(2, [Row(2, false, 1)])]
  {
    var rows := [Row(1, false, 0), Row(2, false, 1), Row(2, false, 2)];
    assert Interleave(SplitDisk, SplitMem) == rows;
    assert rows[..1] == [Row(1, false, 0)] && rows[..2] == [Row(1, false, 0), Row(2, false, 1)];
    assert Fold(rows[..1], false) == [Built(1, [Row(1, false, 0)])];
    assert Fold(rows[..2], false) == [Built(1, [Row(1, false, 0)]), Built(2, [Row(2, false, 1)])];
  }

  /** As written, on valid inputs, two consecutive calls write two blocks that
      share key 2, against the corrected call's promise that the next memory
      row is above the last key built, and the blocks hold one row more than
      the fold of the rows they took. */
  lemma {:induction false} SplitKeyAsWritten()
    ensures MergeArgsValid(SplitArgs(0, 0))
    ensures RunAsWritten(SplitArgs(0, 0), MergeState(0, 0, [], KeyMin, 0)).target[1].key
      == SplitMem[RunAsWritten(SplitArgs(0, 0), MergeState(0, 0, [], KeyMin, 0)).p].key
    ensures RunAsWritten(SplitArgs(0, 0), MergeState(0, 0, [], KeyMin, 0)).target
      + RunAsWritten(SplitArgs(1, 1), MergeState(1, 1, [], KeyMin, 0)).target
      != Fold(Interleave(SplitDisk, SplitMem), false)
  {
    SplitFirstBlock();
    SplitSecondBlock();
    SplitFold();
  }

  /** Where a call stands after one step. */
  ghost function Taken(a: MergeArgs, c: Pos): Pos
    requires RowKeysValid(a.disk) && RowKeysValid(a.mem) && c.iter <= |a.disk| && c.p <= |a.mem|
    requires NextDiskKey(a.disk, c.iter) != KeyMax || NextMemKey(a.mem, c.p, a.maxKey) != KeyMax
  {
    var r := MergeStepOf(a, MergeState(c.iter, c.p, c.target, c.lastKey, c.numOfRows));
    Pos(r.iter, r.p, r.target, r.lastKey, r.numOfRows,
        if r.iter > c.iter then c.dtaken + [a.disk[c.iter]] else c.dtaken,
        if r.p > c.p then c.mtaken + [a.mem[c.p]] else c.mtaken)
  }

  /** A step keeps the rows built the fold of the rows taken. */
  lemma StepTaken(a: MergeArgs, c: Pos)
    requires MergeArgsValid(a) && Between(a, c)
    requires c.iter <= |a.disk| && c.p <= |a.mem|
    requires NextDiskKey(a.disk, c.iter) != KeyMax || NextMemKey(a.mem, c.p, a.maxKey) != KeyMax
    ensures RowKeysValid(a.disk) && RowKeysValid(a.mem)
    ensures Stepped(a, Taken(a, c))
  {
    OpenArgs(a);
    LocalFacts(a, c.iter, c.p);
    var key1 := NextDiskKey(a.disk, c.iter);
    var key2 := NextMemKey(a.mem, c.p, a.maxKey);
    if key1 < key2 {
      TakeDisk(a, c, Taken(a, c));
    } else if key1 > key2 {
      if key2 == c.lastKey {
        TakeMemRepeat(a, c, Taken(a, c));
      } else {
        TakeMemNew(a, c, Taken(a, c));
      }
    } else {
      TakeBoth(a, c, Taken(a, c));
    }
  }

  /** One pass of the loop of a call that has rows left: take the next
      rows and stop when the target is full and the next memory row does not
      repeat the key of the last row built. */
  method MergeOne(a: MergeArgs, iter: nat, p: nat, target: seq<Built>, lastKey: int, numOfRows: int,
                  ghost dtaken: seq<Row>, ghost mtaken: seq<Row>)
    returns (iter': nat, p': nat, target': seq<Built>, lastKey': int, numOfRows': int, done: bool,
             ghost dtaken': seq<Row>, ghost mtaken': seq<Row>)
    requires MergeArgsValid(a) && Between(a, Pos(iter, p, target, lastKey, numOfRows, dtaken, mtaken))
    requires iter <= |a.disk| && p <= |a.mem|
    requires NextDiskKey(a.disk, iter) != KeyMax || NextMemKey(a.mem, p, a.maxKey) != KeyMax
    ensures !done ==> Between(a, Pos(iter', p', target', lastKey', numOfRows', dtaken', mtaken'))
    ensures done ==> Loaded(a, target', iter', p')
    ensures iter <= iter' <= |a.disk| && p <= p' <= |a.mem| && iter + p < iter' + p'
  {
    ghost var c := Pos(iter, p, target, lastKey, numOfRows, dtaken, mtaken);
    StepTaken(a, c);
    var st := MergeStepOf(a, MergeState(iter, p, target, lastKey, numOfRows));
    iter', p', target', lastKey', numOfRows' := st.iter, st.p, st.target, st.lastKey, st.numOfRows;
    dtaken', mtaken' := Taken(a, c).dtaken, Taken(a, c).mtaken;
    done := numOfRows' >= a.maxRows - 1 && !(p' < |a.mem| && a.mem[p'].key == lastKey');
    if done {
      FinishFull(a, Pos(iter', p', target', lastKey', numOfRows', dtaken', mtaken'));
    } else {
      Resume(a, Pos(iter', p', target', lastKey', numOfRows', dtaken', mtaken'));
    }
  }

  /** Builds the next block of rows from the disk rows from iter0 on and the
      memory rows from p0 on that are at most maxKey, in key order, a disk row
      ahead of the memory rows of its key. A memory row repeating the key of
      the row being built is merged into it when the storage updates rows and
      dropped otherwise. The rows built are exactly the fold of the rows taken,
      at most maxRows of them; the call stops early only with maxRows rows
      built, and never between two rows of one key, so every row left has a key
      above every row taken. */
  method LoadAndMergeFromCache(disk: seq<Row>, iter0: nat, mem: seq<Row>, p0: nat,
                               maxKey: int, maxRows: int, update: bool)
    returns (target: seq<Built>, iter: nat, p: nat)
    requires MergeArgsValid(MergeArgs(disk, iter0, mem, p0, maxKey, maxRows, update))
    ensures iter0 <= iter <= |disk| && p0 <= p <= |mem|
    ensures forall q | p0 <= q < p :: mem[q].key <= maxKey
    ensures target == Fold(Interleave(disk[iter0..iter], mem[p0..p]), update)
    ensures |target| <= maxRows
    ensures |target| < maxRows ==> iter == |disk| && (p == |mem| || mem[p].key > maxKey)
    ensures |target| == 0 ==> iter == iter0 && p == p0
    ensures |target| > 0 ==>
      (forall q | iter0 <= q < iter :: disk[q].key <= target[|target| - 1].key)
      && (forall q | p0 <= q < p :: mem[q].key <= target[|target| - 1].key)
      && (iter < |disk| ==> disk[iter].key > target[|target| - 1].key)
      && (p < |mem| ==> mem[p].key > target[|target| - 1].key)
  {
    var a := MergeArgs(disk, iter0, mem, p0, maxKey, maxRows, update);
    target, iter, p := MergeLoop(a);
    OpenLoaded(a, target, iter, p);
  }

  /** The loop of a call: steps until the inputs are drained or the target is full. */
  method MergeLoop(a: MergeArgs) returns (target: seq<Built>, iter: nat, p: nat)
    requires MergeArgsValid(a)
    ensures Loaded(a, target, iter, p)
  {
    OpenArgs(a);
    target, iter, p := [], a.iter0, a.p0;
    var lastKey := KeyMin;
    var numOfRows := 0;
    ghost var dtaken: seq<Row>, mtaken: seq<Row> := [], [];
    Start(a);
    var done := false;
    while !done
      invariant !done ==> Between(a, Pos(iter, p, target, lastKey, numOfRows, dtaken, mtaken))
      invariant done ==> Loaded(a, target, iter, p)
      decreases !done, |a.disk| - iter + |a.mem| - p
    {
      ghost var c := Pos(iter, p, target, lastKey, numOfRows, dtaken, mtaken);
      Bounded(a, c);
      if NextDiskKey(a.disk, iter) == KeyMax && NextMemKey(a.mem, p, a.maxKey) == KeyMax {
        FinishDrained(a, c);
        done := true;
      } else {
        iter, p, target, lastKey, numOfRows, done, dtaken, mtaken
          := MergeOne(a, iter, p, target, lastKey, numOfRows, dtaken, mtaken);
      }
    }
  }
}
