// Reading memory rows of one table up to a key limit, against the sorted
// keys of a block already on disk (the filter keys): counting how many rows
// the merge would insert, update or delete, the key range it touches, and,
// when a target is given, building the rows to write.
//
// The counts are specified per key, not per step: a key is inserted when the
// memory holds a live row for it and it does not meet a disk key with a live
// row first; it is updated when its first memory row is live and meets a disk
// key and duplicates update; a delete succeeds when the first memory row of a
// disk key deletes it.

module TsdbLoad {
  import opened Wrappers
  import opened TsdbRules

  /** Disk key i of f. The order of f is stated over it, so that the order
      is only brought to bear on keys a proof names through it. */
  function KeyAt(f: seq<int>, i: int): int
    requires 0 <= i < |f|
  {
    f[i]
  }

  /** Disk keys of a block: strictly increasing. */
  predicate IncreasingKeys(f: seq<int>)
  {
    forall i, j {:trigger KeyAt(f, i), KeyAt(f, j)} | 0 <= i < j < |f| :: KeyAt(f, i) < KeyAt(f, j)
  }

  lemma KeysOrdered(f: seq<int>, i: int, j: int)
    requires IncreasingKeys(f) && 0 <= i < j < |f|
    ensures f[i] < f[j]
  {
    assert KeyAt(f, i) < KeyAt(f, j);
  }

  predicate KeysValid(f: seq<int>)
  {
    forall i | 0 <= i < |f| :: ValidKey(f[i])
  }

  /** How many leading memory rows lie at or below the key limit. */
  function Window(mem: seq<Row>, maxKey: int): (w: nat)
    ensures w <= |mem|
    ensures forall i | 0 <= i < w :: mem[i].key <= maxKey
    ensures w < |mem| ==> mem[w].key > maxKey
  {
    if |mem| == 0 || mem[0].key > maxKey then 0 else 1 + Window(mem[1..], maxKey)
  }

  /** Row i is the first of its key in s. */
  predicate OpensKey(s: seq<Row>, i: int)
  {
    0 <= i < |s| && (i == 0 || s[i - 1].key != s[i].key)
  }

  /** Keys with a live row in s. */
  function LiveKeys(s: seq<Row>): set<int>
  {
    if |s| == 0 then {}
    else LiveKeys(s[..|s| - 1]) + (if s[|s| - 1].deleted then {} else {s[|s| - 1].key})
  }

  /** Keys of f whose first row in s is live. */
  function MatchedLive(s: seq<Row>, f: seq<int>): set<int>
  {
    if |s| == 0 then {}
    else MatchedLive(s[..|s| - 1], f)
         + (if OpensKey(s, |s| - 1) && !s[|s| - 1].deleted && s[|s| - 1].key in f then {s[|s| - 1].key} else {})
  }

  /** Keys of f whose first row in s deletes it. */
  function MatchedDeleted(s: seq<Row>, f: seq<int>): set<int>
  {
    if |s| == 0 then {}
    else MatchedDeleted(s[..|s| - 1], f)
         + (if OpensKey(s, |s| - 1) && s[|s| - 1].deleted && s[|s| - 1].key in f then {s[|s| - 1].key} else {})
  }

  /** Number of deleting rows in s. */
  function DeletedCount(s: seq<Row>): nat
  {
    if |s| == 0 then 0 else DeletedCount(s[..|s| - 1]) + (if s[|s| - 1].deleted then 1 else 0)
  }

  /** The live rows of key k in s, in order. */
  function LiveRows(s: seq<Row>, k: int): seq<Row>
  {
    if |s| == 0 then []
    else LiveRows(s[..|s| - 1], k) + (if !s[|s| - 1].deleted && s[|s| - 1].key == k then [s[|s| - 1]] else [])
  }

  /** Keys the merge inserts: a live row, and not a disk key whose first memory row is live. */
  function InsertedKeys(s: seq<Row>, f: seq<int>): set<int>
  {
    LiveKeys(s) - MatchedLive(s, f)
  }

  /** Keys the merge updates: disk keys whose first memory row is live, when duplicates update. */
  function UpdatedKeys(s: seq<Row>, f: seq<int>, keepDup: bool): set<int>
  {
    if keepDup then MatchedLive(s, f) else {}
  }

  /** Keys whose range the merge covers: the disk keys read, except those a
      memory row deletes, and the inserted keys. */
  function Touched(s: seq<Row>, f: seq<int>, read: set<int>): set<int>
  {
    (read - MatchedDeleted(s, f)) + InsertedKeys(s, f)
  }

  /** The first n disk keys. */
  function ReadKeys(f: seq<int>, n: nat): set<int>
  {
    set i | 0 <= i < n && i < |f| :: f[i]
  }

  lemma ReadOneMore(f: seq<int>, n: nat)
    requires n < |f| && IncreasingKeys(f)
    ensures ReadKeys(f, n + 1) == ReadKeys(f, n) + {f[n]}
    ensures f[n] !in ReadKeys(f, n)
  {
    assert f[n] in ReadKeys(f, n + 1);
    forall i | 0 <= i < n
      ensures f[i] != f[n]
    {
      KeysOrdered(f, i, n);
    }
  }

  /** keyFirst and keyLast are the least and greatest of t, or the sentinels when t is empty. */
  predicate Spans(keyFirst: int, keyLast: int, t: set<int>)
  {
    (t == {} ==> keyFirst == KeyMax && keyLast == KeyMin)
    && (t != {} ==> keyFirst in t && keyLast in t && forall x | x in t :: keyFirst <= x <= keyLast)
  }

  /** The rows merged into the built row of key k: every live row of k when
      duplicates update, otherwise only the first. */
  function Expected(s: seq<Row>, k: int, keepDup: bool): seq<Row>
  {
    var rows := LiveRows(s, k);
    if keepDup || |rows| == 0 then rows else rows[..1]
  }

  /** The target holds one row per inserted or updated key, in key order, each
      merged from the rows Expected says. */
  predicate BuiltFrom(t: seq<Built>, s: seq<Row>, f: seq<int>, keepDup: bool)
  {
    IncreasingBuilt(t)
    && BuiltKeys(t) == InsertedKeys(s, f) + UpdatedKeys(s, f, keepDup)
    && forall b | b in t :: b.versions == Expected(s, b.key, keepDup)
  }

  /** The caller's promise behind the source's assertion: with duplicates
      updating, no disk key is deleted by its first memory row. */
  predicate NoDeleteOfDiskKey(mem: seq<Row>, maxKey: int, f: seq<int>)
  {
    forall i | 0 <= i < |mem| && OpensKey(mem, i) && mem[i].deleted && mem[i].key <= maxKey :: mem[i].key !in f
  }

  function WithKey(info: MergeInfo, k: int): MergeInfo
  {
    info.(keyFirst := if k < info.keyFirst then k else info.keyFirst,
          keyLast := if k > info.keyLast then k else info.keyLast)
  }

  /** The statistics after a deleting row that meets no disk key. */
  function DeleteFailed(info: MergeInfo): MergeInfo
  {
    info.(rowsDeleteFailed := info.rowsDeleteFailed + 1)
  }

  /** The statistics after a row inserted under key k. */
  function Inserted(info: MergeInfo, k: int): MergeInfo
  {
    WithKey(info.(rowsInserted := info.rowsInserted + 1, nOperations := info.nOperations + 1), k)
  }

  /** The statistics after a deleting row that meets its disk key. */
  function DeleteSucceeded(info: MergeInfo): MergeInfo
  {
    info.(rowsDeleteSucceed := info.rowsDeleteSucceed + 1, nOperations := info.nOperations + 1)
  }

  /** The statistics after a row that updates the disk row of key k. */
  function Updated(info: MergeInfo, k: int): MergeInfo
  {
    WithKey(info.(rowsUpdated := info.rowsUpdated + 1, nOperations := info.nOperations + 1), k)
  }

  /** The rows built after row r starts a row of its own, when rows are built. */
  function Emit(collect: bool, t: seq<Built>, r: Row): seq<Built>
  {
    if collect then t + [Built(r.key, [r])] else t
  }

  /** The arguments of one read. */
  datatype Args = Args(mem: seq<Row>, maxKey: int, maxRowsToRead: int, collect: bool, maxPoints: int,
                       filter: seq<int>, keepDup: bool)

  predicate ArgsValid(a: Args)
  {
    a.maxRowsToRead > 0 && SortedRows(a.mem) && RowKeysValid(a.mem)
    && IncreasingKeys(a.filter) && KeysValid(a.filter)
    && (a.keepDup ==> NoDeleteOfDiskKey(a.mem, a.maxKey, a.filter))
  }

  /** The counters agree with the classification of the rows consumed. */
  ghost predicate Counted(s: seq<Row>, f: seq<int>, keepDup: bool, info: MergeInfo)
  {
    info.rowsInserted == |InsertedKeys(s, f)|
    && info.rowsUpdated == |UpdatedKeys(s, f, keepDup)|
    && info.rowsDeleteSucceed == |MatchedDeleted(s, f)|
    && info.rowsDeleteSucceed + info.rowsDeleteFailed == DeletedCount(s)
    && info.nOperations == info.rowsInserted + info.rowsUpdated + info.rowsDeleteSucceed
  }

  /** lastKey or discardKey is the key of the last row consumed exactly when
      that key has a live row; lastKey is the key of a row built. */
  ghost predicate Folding(s: seq<Row>, f: seq<int>, keepDup: bool, lastKey: int, discardKey: int)
  {
    (|s| == 0 ==> lastKey == KeyMin && discardKey == KeyMin)
    && (|s| > 0 ==>
          (lastKey == KeyMin || lastKey <= s[|s| - 1].key)
          && (discardKey == KeyMin || discardKey <= s[|s| - 1].key)
          && ((lastKey == s[|s| - 1].key || discardKey == s[|s| - 1].key) <==> s[|s| - 1].key in LiveKeys(s)))
    && (lastKey != KeyMin ==> lastKey in InsertedKeys(s, f) + UpdatedKeys(s, f, keepDup))
    && (keepDup ==> discardKey == KeyMin)
  }

  /** The disk keys not read lie above the rows consumed, those read lie below
      the next row or equal the last one consumed, and every disk key met by
      its first memory row has been read. */
  ghost predicate Aligned(a: Args, j: nat, fi: nat)
    requires j <= |a.mem| && fi <= |a.filter|
  {
    (j > 0 ==> forall x | fi <= x < |a.filter| :: a.filter[x] > a.mem[j - 1].key)
    && (j < Window(a.mem, a.maxKey) ==> forall x | 0 <= x < fi ::
          a.filter[x] < a.mem[j].key || (j > 0 && a.mem[j - 1].key == a.filter[x]))
    && MatchedDeleted(a.mem[..j], a.filter) <= ReadKeys(a.filter, fi)
    && MatchedLive(a.mem[..j], a.filter) <= ReadKeys(a.filter, fi)
  }

  // Sealing facts from the solver. The read's loop state is a large
  // conjunction; a step that only passes it on should not make the solver
  // unfold it. Such a fact is stated as "for every z with Shown(.., z)" (or
  // Hidden, or Sealed): the predicate is always true, but the solver only
  // instantiates the quantifier once a term Shown(.., z) appears, which the
  // matching opening lemma (Unlined, Unkept, Open) supplies with z = 0. The
  // meaning is unchanged; only where the solver may look inside changes.
  // For the same reason some predicates read "(...) == true": the value is
  // the same, but the solver keeps it as one fact instead of splitting it.

  /** Always true: a term Shown(a, j, fi, z) is what lets the solver look inside Lined(a, j, fi). */
  predicate Shown(a: Args, j: nat, fi: nat, z: int)
  {
    true
  }

  /** Aligned, held behind Shown; Unlined opens it. */
  ghost predicate Lined(a: Args, j: nat, fi: nat)
    requires j <= |a.mem| && fi <= |a.filter|
  {
    forall z {:trigger Shown(a, j, fi, z)} | Shown(a, j, fi, z) :: Aligned(a, j, fi)
  }

  lemma Unlined(a: Args, j: nat, fi: nat)
    requires j <= |a.mem| && fi <= |a.filter| && Lined(a, j, fi)
    ensures Aligned(a, j, fi)
  {
    assert Shown(a, j, fi, 0);
  }

  /** With a target, it holds the rows built so far, the last of key lastKey. */
  ghost predicate Collected(s: seq<Row>, f: seq<int>, keepDup: bool, collect: bool, lastKey: int, t: seq<Built>)
  {
    if collect then
      BuiltFrom(t, s, f, keepDup)
      && (|t| == 0 <==> lastKey == KeyMin)
      && (|t| > 0 ==> t[|t| - 1].key == lastKey)
    else t == []
  }

  /** The read stops before the row limit and the target's capacity are passed. */
  ghost predicate Capped(a: Args, info: MergeInfo)
  {
    info.rowsInserted - info.rowsDeleteSucceed <= a.maxRowsToRead
    && (a.collect ==> info.nOperations <= a.maxPoints || info.nOperations == 0)
  }

  /** What a read in progress keeps about the rows s consumed, the disk keys
      f and the set read of those read: the counters, the last keys, the rows
      built and the key range. */
  datatype Part = Part(s: seq<Row>, f: seq<int>, keepDup: bool, collect: bool, info: MergeInfo,
                       lastKey: int, discardKey: int, t: seq<Built>, read: set<int>)

  /** Always true: a term Hidden(p, z) is what lets the solver look inside Kept(p). */
  predicate Hidden(p: Part, z: int)
  {
    true
  }

  /** The facts of p, held behind Hidden so that a step that only passes them
      on does not unfold them; Unkept opens them. */
  ghost predicate Kept(p: Part)
  {
    forall z {:trigger Hidden(p, z)} | Hidden(p, z) ::
      Counted(p.s, p.f, p.keepDup, p.info) && Folding(p.s, p.f, p.keepDup, p.lastKey, p.discardKey)
      && Collected(p.s, p.f, p.keepDup, p.collect, p.lastKey, p.t)
      && Spans(p.info.keyFirst, p.info.keyLast, Touched(p.s, p.f, p.read))
  }

  lemma Unkept(s: seq<Row>, f: seq<int>, keepDup: bool, collect: bool, info: MergeInfo,
               lastKey: int, discardKey: int, t: seq<Built>, read: set<int>)
    requires Kept(Part(s, f, keepDup, collect, info, lastKey, discardKey, t, read))
    ensures Counted(s, f, keepDup, info) && Folding(s, f, keepDup, lastKey, discardKey)
    ensures Collected(s, f, keepDup, collect, lastKey, t)
    ensures Spans(info.keyFirst, info.keyLast, Touched(s, f, read))
  {
    assert Hidden(Part(s, f, keepDup, collect, info, lastKey, discardKey, t, read), 0);
  }

  ghost predicate Inv(a: Args, j: nat, fi: nat, info: MergeInfo, lastKey: int, discardKey: int, target: seq<Built>)
  {
    j <= Window(a.mem, a.maxKey) && fi <= |a.filter|
    && Kept(Part(a.mem[..j], a.filter, a.keepDup, a.collect, info, lastKey, discardKey, target, ReadKeys(a.filter, fi)))
    && Lined(a, j, fi)
    && Capped(a, info)
  }

  /** The classification of one more row extends the classification of the
      rows before it. */
  lemma Snoc(s: seq<Row>, r: Row, f: seq<int>)
    ensures LiveKeys(s + [r]) == LiveKeys(s) + (if r.deleted then {} else {r.key})
    ensures MatchedLive(s + [r], f)
      == MatchedLive(s, f) + (if OpensKey(s + [r], |s|) && !r.deleted && r.key in f then {r.key} else {})
    ensures MatchedDeleted(s + [r], f)
      == MatchedDeleted(s, f) + (if OpensKey(s + [r], |s|) && r.deleted && r.key in f then {r.key} else {})
    ensures DeletedCount(s + [r]) == DeletedCount(s) + (if r.deleted then 1 else 0)
  {
    assert (s + [r])[..|s|] == s;
  }

  lemma SnocRows(s: seq<Row>, r: Row)
    ensures forall k :: LiveRows(s + [r], k) == LiveRows(s, k) + (if !r.deleted && r.key == k then [r] else [])
  {
    assert (s + [r])[..|s|] == s;
  }

  /** Every classified key is the key of some row, so in a sorted sequence it
      is at most the last row's key; live matches are live keys. */
  lemma {:induction false} Bounds(s: seq<Row>, f: seq<int>)
    requires SortedRows(s)
    ensures MatchedLive(s, f) <= LiveKeys(s)
    ensures forall e | e in LiveKeys(s) :: e <= s[|s| - 1].key
    ensures forall e | e in MatchedDeleted(s, f) :: e <= s[|s| - 1].key
  {
    if |s| > 0 {
      var p := s[..|s| - 1];
      assert p + [s[|s| - 1]] == s;
      Bounds(p, f);
      Snoc(p, s[|s| - 1], f);
    }
  }

  /** Key k has live rows exactly when it is a live key. */
  lemma {:induction false} LiveRowsPresent(s: seq<Row>, k: int)
    ensures |LiveRows(s, k)| > 0 <==> k in LiveKeys(s)
  {
    if |s| > 0 {
      LiveRowsPresent(s[..|s| - 1], k);
    }
  }

  lemma SpansAdd(first: int, last: int, t: set<int>, k: int)
    requires Spans(first, last, t) && ValidKey(k)
    ensures Spans(if k < first then k else first, if k > last then k else last, t + {k})
  {
  }

  /** Row r may follow the rows s: keys in order, r's key a real one. */
  predicate Follows(s: seq<Row>, r: Row)
  {
    SortedRows(s) && ValidKey(r.key) && (|s| > 0 ==> s[|s| - 1].key <= r.key)
  }

  /** Consuming row j of valid arguments extends the prefix by a row that follows it. */
  lemma NextRow(a: Args, j: nat)
    requires ArgsValid(a) && j < |a.mem|
    ensures a.mem[..j + 1] == a.mem[..j] + [a.mem[j]]
    ensures Follows(a.mem[..j], a.mem[j])
  {
  }

  /** A key above every row of s is not classified in s. */
  lemma Fresh(s: seq<Row>, f: seq<int>, k: int)
    requires SortedRows(s) && (|s| > 0 ==> s[|s| - 1].key < k)
    ensures k !in LiveKeys(s) && k !in MatchedLive(s, f) && k !in MatchedDeleted(s, f)
  {
    if |s| > 0 {
      Bounds(s, f);
    }
  }

  /** A row read while the next disk key is above it is not the first row of
      a disk key. */
  lemma NotOpeningMatch(a: Args, j: nat, fi: nat)
    requires ArgsValid(a) && j < Window(a.mem, a.maxKey) && fi <= |a.filter| && Aligned(a, j, fi)
    requires fi == |a.filter| || a.filter[fi] > a.mem[j].key
    ensures !(OpensKey(a.mem[..j + 1], j) && a.mem[j].key in a.filter)
  {
    NextRow(a, j);
    var k := a.mem[j].key;
    if k in a.filter {
      var x :| 0 <= x < |a.filter| && a.filter[x] == k;
      if fi < x {
        KeysOrdered(a.filter, fi, x);
      }
      assert x < fi;
      assert j > 0 && a.mem[j - 1].key == k;
    }
  }

  /** A row read when it equals the next disk key is above every row before it. */
  lemma OpeningMatch(a: Args, j: nat, fi: nat)
    requires ArgsValid(a) && j < Window(a.mem, a.maxKey) && fi < |a.filter| && Aligned(a, j, fi)
    requires a.filter[fi] == a.mem[j].key
    ensures j > 0 ==> a.mem[j - 1].key < a.mem[j].key
    ensures OpensKey(a.mem[..j + 1], j) && a.mem[j].key in a.filter
  {
  }

  /** Consuming row j, reading the next disk key as well when adv, keeps the
      disk keys aligned with the memory rows. */
  lemma AlignedRow(a: Args, j: nat, fi: nat, adv: bool)
    requires ArgsValid(a) && j < Window(a.mem, a.maxKey) && fi <= |a.filter| && Aligned(a, j, fi)
    requires adv ==> fi < |a.filter| && a.filter[fi] == a.mem[j].key
    requires !adv ==> fi == |a.filter| || a.filter[fi] > a.mem[j].key
    ensures Aligned(a, j + 1, if adv then fi + 1 else fi)
  {
    NextRow(a, j);
    Snoc(a.mem[..j], a.mem[j], a.filter);
    forall x | fi < x < |a.filter|
      ensures a.filter[fi] < a.filter[x]
    {
      KeysOrdered(a.filter, fi, x);
    }
    if adv {
      ReadOneMore(a.filter, fi);
    } else {
      NotOpeningMatch(a, j, fi);
    }
  }

  /** Nothing read yet: no counts, an empty key range, no rows built. */
  lemma StartInv(a: Args)
    requires ArgsValid(a)
    ensures Reading(a, Cursor(0, 0, MergeInfo(0, 0, 0, 0, 0, KeyMax, KeyMin), KeyMin, KeyMin, []))
  {
    assert a.mem[..0] == [];
  }

  /** Where a read stands: j memory rows consumed, fi disk keys read, the
      statistics so far, the key of the last row built, the last disk key
      whose memory rows are discarded, and the rows built. */
  datatype Cursor = Cursor(j: nat, fi: nat, info: MergeInfo, lastKey: int, discardKey: int, target: seq<Built>)

  /** Always true: a term Sealed(a, c, z) is what lets the solver look inside Reading(a, c). */
  predicate Sealed(a: Args, c: Cursor, z: int)
  {
    true
  }

  /** A cursor of the read loop together with the arguments: Inv, held
      behind Sealed so that a turn of the loop, which only passes it on,
      does not unfold it; Open opens it. */
  ghost predicate Reading(a: Args, c: Cursor)
  {
    forall z {:trigger Sealed(a, c, z)} | Sealed(a, c, z) :: Inv(a, c.j, c.fi, c.info, c.lastKey, c.discardKey, c.target) == true
  }

  lemma Open(a: Args, j: nat, fi: nat, info: MergeInfo, lastKey: int, discardKey: int, target: seq<Built>)
    requires Reading(a, Cursor(j, fi, info, lastKey, discardKey, target))
    ensures Inv(a, j, fi, info, lastKey, discardKey, target)
  {
    assert Sealed(a, Cursor(j, fi, info, lastKey, discardKey, target), 0);
  }

  // Reading a disk key below the next memory row.

  lemma FilterSpans(s: seq<Row>, f: seq<int>, fi: nat, info: MergeInfo)
    requires IncreasingKeys(f) && KeysValid(f) && fi < |f|
    requires MatchedDeleted(s, f) <= ReadKeys(f, fi)
    requires Spans(info.keyFirst, info.keyLast, Touched(s, f, ReadKeys(f, fi)))
    ensures Spans(WithKey(info, f[fi]).keyFirst, WithKey(info, f[fi]).keyLast, Touched(s, f, ReadKeys(f, fi + 1)))
  {
    ReadOneMore(f, fi);
    var read := ReadKeys(f, fi);
    assert Touched(s, f, read + {f[fi]}) == Touched(s, f, read) + {f[fi]};
    SpansAdd(info.keyFirst, info.keyLast, Touched(s, f, read), f[fi]);
  }

  /** Widening the key range leaves the counters as they are. */
  lemma WidenCounted(s: seq<Row>, f: seq<int>, keepDup: bool, info: MergeInfo, k: int)
    requires Counted(s, f, keepDup, info)
    ensures Counted(s, f, keepDup, WithKey(info, k))
  {
  }

  lemma FilterAligned(a: Args, j: nat, fi: nat)
    requires ArgsValid(a) && j <= Window(a.mem, a.maxKey) && fi < |a.filter| && Lined(a, j, fi)
    requires j < Window(a.mem, a.maxKey) ==> a.filter[fi] < a.mem[j].key
    ensures Lined(a, j, fi + 1)
  {
    Unlined(a, j, fi);
    ReadOneMore(a.filter, fi);
  }

  /** Reading a disk key on its own widens the key range by it and leaves
      everything else as it is. */
  lemma FilterKeeps(a: Args, j: nat, fi: nat, info: MergeInfo, lastKey: int, discardKey: int, t: seq<Built>)
    requires ArgsValid(a) && j <= |a.mem| && fi < |a.filter| && Lined(a, j, fi)
    requires Kept(Part(a.mem[..j], a.filter, a.keepDup, a.collect, info, lastKey, discardKey, t, ReadKeys(a.filter, fi)))
    ensures Kept(Part(a.mem[..j], a.filter, a.keepDup, a.collect, WithKey(info, a.filter[fi]), lastKey, discardKey, t,
                      ReadKeys(a.filter, fi + 1)))
  {
    var s, f := a.mem[..j], a.filter;
    Unlined(a, j, fi);
    Unkept(s, f, a.keepDup, a.collect, info, lastKey, discardKey, t, ReadKeys(f, fi));
    FilterSpans(s, f, fi, info);
    WidenCounted(s, f, a.keepDup, info, f[fi]);
  }

  lemma FilterStep(a: Args, j: nat, fi: nat, info: MergeInfo, lastKey: int, discardKey: int, target: seq<Built>)
    requires ArgsValid(a) && Reading(a, Cursor(j, fi, info, lastKey, discardKey, target)) && fi < |a.filter|
    requires j < |a.mem| && a.mem[j].key <= a.maxKey ==> a.filter[fi] < a.mem[j].key
    ensures Reading(a, Cursor(j, fi + 1, WithKey(info, a.filter[fi]), lastKey, discardKey, target))
  {
    Open(a, j, fi, info, lastKey, discardKey, target);
    FilterKeeps(a, j, fi, info, lastKey, discardKey, target);
    FilterAligned(a, j, fi);
  }

  // Consuming a memory row. Each case first states how the classification of
  // the rows s grows to that of s2, one row r longer, then what the step
  // keeps; the step lemmas put the two together.

  /** In sorted rows, live matches are live keys, and a key above the last
      row is classified nowhere. */
  lemma Above(s: seq<Row>, f: seq<int>, k: int)
    requires SortedRows(s) && (|s| > 0 ==> s[|s| - 1].key <= k)
    ensures MatchedLive(s, f) <= LiveKeys(s)
    ensures (|s| == 0 || s[|s| - 1].key < k) ==> k !in LiveKeys(s) && k !in MatchedDeleted(s, f)
  {
    if |s| > 0 {
      Bounds(s, f);
    }
  }

  /** s2 ends with a row of key k. */
  predicate EndsWith(s2: seq<Row>, k: int)
  {
    |s2| > 0 && s2[|s2| - 1].key == k
  }

  /** Row r consumed after the rows s, giving the rows s2, with the disk keys
      f and the set read of those read before it. */
  datatype Consumed = Consumed(s: seq<Row>, s2: seq<Row>, f: seq<int>, r: Row, read: set<int>)

  /** Always true: a term Marked(c, z) is what lets the solver look inside Passing(c) and Opening(c). */
  predicate Marked(c: Consumed, z: int)
  {
    true
  }

  /** r is not the first row of a disk key: the matches stay, and r only adds
      its key to the live keys or to the deleted rows. */
  ghost predicate Passing(c: Consumed)
  {
    forall z {:trigger Marked(c, z)} | Marked(c, z) ::
      MatchedLive(c.s2, c.f) == MatchedLive(c.s, c.f) && MatchedDeleted(c.s2, c.f) == MatchedDeleted(c.s, c.f)
      && (c.r.deleted ==> LiveKeys(c.s2) == LiveKeys(c.s) && DeletedCount(c.s2) == DeletedCount(c.s) + 1
                          && LiveRows(c.s2, c.r.key) == LiveRows(c.s, c.r.key))
      && (!c.r.deleted ==> LiveKeys(c.s2) == LiveKeys(c.s) + {c.r.key} && DeletedCount(c.s2) == DeletedCount(c.s)
                           && LiveRows(c.s2, c.r.key) == LiveRows(c.s, c.r.key) + [c.r])
      && (forall x | x != c.r.key :: LiveRows(c.s2, x) == LiveRows(c.s, x))
      && EndsWith(c.s2, c.r.key) && ValidKey(c.r.key)
      && (|c.s| > 0 ==> c.s[|c.s| - 1].key <= c.r.key)
      && ((|c.s| == 0 || c.s[|c.s| - 1].key < c.r.key) ==> c.r.key !in LiveKeys(c.s))
      && MatchedLive(c.s, c.f) <= LiveKeys(c.s)
  }

  lemma Unpassing(s: seq<Row>, s2: seq<Row>, f: seq<int>, r: Row, read: set<int>)
    requires Passing(Consumed(s, s2, f, r, read))
    ensures MatchedLive(s2, f) == MatchedLive(s, f) && MatchedDeleted(s2, f) == MatchedDeleted(s, f)
    ensures r.deleted ==> LiveKeys(s2) == LiveKeys(s) && DeletedCount(s2) == DeletedCount(s) + 1
                          && LiveRows(s2, r.key) == LiveRows(s, r.key)
    ensures !r.deleted ==> LiveKeys(s2) == LiveKeys(s) + {r.key} && DeletedCount(s2) == DeletedCount(s)
                           && LiveRows(s2, r.key) == LiveRows(s, r.key) + [r]
    ensures forall x | x != r.key :: LiveRows(s2, x) == LiveRows(s, x)
    ensures EndsWith(s2, r.key) && ValidKey(r.key)
    ensures |s| > 0 ==> s[|s| - 1].key <= r.key
    ensures (|s| == 0 || s[|s| - 1].key < r.key) ==> r.key !in LiveKeys(s)
    ensures MatchedLive(s, f) <= LiveKeys(s)
  {
    assert Marked(Consumed(s, s2, f, r, read), 0);
  }

  /** r is the first row of a disk key not read before: its key is new to
      everything, and joins the deleted matches or the live keys and the
      live matches. */
  ghost predicate Opening(c: Consumed)
  {
    forall z {:trigger Marked(c, z)} | Marked(c, z) ::
      c.r.key !in LiveKeys(c.s) && c.r.key !in MatchedLive(c.s, c.f) && c.r.key !in MatchedDeleted(c.s, c.f)
      && c.r.key !in c.read
      && (c.r.deleted ==> MatchedDeleted(c.s2, c.f) == MatchedDeleted(c.s, c.f) + {c.r.key}
                          && MatchedLive(c.s2, c.f) == MatchedLive(c.s, c.f)
                          && LiveKeys(c.s2) == LiveKeys(c.s) && DeletedCount(c.s2) == DeletedCount(c.s) + 1
                          && LiveRows(c.s2, c.r.key) == LiveRows(c.s, c.r.key))
      && (!c.r.deleted ==> MatchedLive(c.s2, c.f) == MatchedLive(c.s, c.f) + {c.r.key}
                           && MatchedDeleted(c.s2, c.f) == MatchedDeleted(c.s, c.f)
                           && LiveKeys(c.s2) == LiveKeys(c.s) + {c.r.key} && DeletedCount(c.s2) == DeletedCount(c.s)
                           && LiveRows(c.s2, c.r.key) == LiveRows(c.s, c.r.key) + [c.r])
      && (forall x | x != c.r.key :: LiveRows(c.s2, x) == LiveRows(c.s, x))
      && EndsWith(c.s2, c.r.key) && ValidKey(c.r.key)
      && (|c.s| > 0 ==> c.s[|c.s| - 1].key < c.r.key)
  }

  lemma Unopening(s: seq<Row>, s2: seq<Row>, f: seq<int>, r: Row, read: set<int>)
    requires Opening(Consumed(s, s2, f, r, read))
    ensures r.key !in LiveKeys(s) && r.key !in MatchedLive(s, f) && r.key !in MatchedDeleted(s, f) && r.key !in read
    ensures r.deleted ==> MatchedDeleted(s2, f) == MatchedDeleted(s, f) + {r.key} && MatchedLive(s2, f) == MatchedLive(s, f)
                          && LiveKeys(s2) == LiveKeys(s) && DeletedCount(s2) == DeletedCount(s) + 1
                          && LiveRows(s2, r.key) == LiveRows(s, r.key)
    ensures !r.deleted ==> MatchedLive(s2, f) == MatchedLive(s, f) + {r.key} && MatchedDeleted(s2, f) == MatchedDeleted(s, f)
                           && LiveKeys(s2) == LiveKeys(s) + {r.key} && DeletedCount(s2) == DeletedCount(s)
                           && LiveRows(s2, r.key) == LiveRows(s, r.key) + [r]
    ensures forall x | x != r.key :: LiveRows(s2, x) == LiveRows(s, x)
    ensures EndsWith(s2, r.key) && ValidKey(r.key)
    ensures |s| > 0 ==> s[|s| - 1].key < r.key
  {
    assert Marked(Consumed(s, s2, f, r, read), 0);
  }

  /** The key of the built rows already in t stay below k. */
  lemma BuiltAppend(t: seq<Built>, k: int, v: seq<Row>)
    requires IncreasingBuilt(t) && (|t| > 0 ==> t[|t| - 1].key < k)
    ensures IncreasingBuilt(t + [Built(k, v)])
    ensures BuiltKeys(t + [Built(k, v)]) == BuiltKeys(t) + {k}
    ensures forall b | b in t :: b.key < k
  {
    var t2 := t + [Built(k, v)];
    forall i | 0 <= i < |t| ensures t[i].key < k {
      if i < |t| - 1 {
        assert t[i].key < t[|t| - 1].key;
      }
    }
    forall x | x in BuiltKeys(t) ensures x in BuiltKeys(t2) {
      var b :| b in t && b.key == x;
      assert b in t2;
    }
    assert t2[|t|] in t2;
  }

  /** A row that changes neither the keys built nor the rows expected for
      them leaves the target as it is. */
  lemma CollectedSame(s: seq<Row>, s2: seq<Row>, f: seq<int>, keepDup: bool, collect: bool,
                      lastKey: int, t: seq<Built>, k: int)
    requires Collected(s, f, keepDup, collect, lastKey, t)
    requires InsertedKeys(s2, f) == InsertedKeys(s, f) && UpdatedKeys(s2, f, keepDup) == UpdatedKeys(s, f, keepDup)
    requires forall x | x != k :: LiveRows(s2, x) == LiveRows(s, x)
    requires k in BuiltKeys(t) ==> Expected(s2, k, keepDup) == Expected(s, k, keepDup)
    ensures Collected(s2, f, keepDup, collect, lastKey, t)
  {
    if collect {
      forall b | b in t ensures b.versions == Expected(s2, b.key, keepDup) {
        if b.key == k {
          assert b.key in BuiltKeys(t);
        }
      }
    }
  }

  /** A row of a new key appended to the target as a row of its own. */
  lemma CollectedAppend(s: seq<Row>, s2: seq<Row>, f: seq<int>, keepDup: bool, collect: bool,
                        lastKey: int, t: seq<Built>, r: Row)
    requires Collected(s, f, keepDup, collect, lastKey, t) && (lastKey == KeyMin || lastKey < r.key) && ValidKey(r.key)
    requires (InsertedKeys(s2, f) == InsertedKeys(s, f) + {r.key} && UpdatedKeys(s2, f, keepDup) == UpdatedKeys(s, f, keepDup))
             || (InsertedKeys(s2, f) == InsertedKeys(s, f) && UpdatedKeys(s2, f, keepDup) == UpdatedKeys(s, f, keepDup) + {r.key})
    requires forall x | x != r.key :: LiveRows(s2, x) == LiveRows(s, x)
    requires r.key !in LiveKeys(s) && LiveRows(s2, r.key) == LiveRows(s, r.key) + [r]
    ensures Collected(s2, f, keepDup, collect, r.key, Emit(collect, t, r))
  {
    LiveRowsPresent(s, r.key);
    assert InsertedKeys(s2, f) + UpdatedKeys(s2, f, keepDup) == InsertedKeys(s, f) + UpdatedKeys(s, f, keepDup) + {r.key};
    if collect {
      var t2 := t + [Built(r.key, [r])];
      BuiltAppend(t, r.key, [r]);
      forall b | b in t2 ensures b.versions == Expected(s2, b.key, keepDup) {
        if b in t {
          assert b.key != r.key;
        }
      }
    }
  }

  /** A duplicate live row of the key built last, merged into it. */
  lemma CollectedMerge(s: seq<Row>, s2: seq<Row>, f: seq<int>, collect: bool, lastKey: int, t: seq<Built>, r: Row)
    requires Collected(s, f, true, collect, lastKey, t) && lastKey == r.key && ValidKey(r.key)
    requires InsertedKeys(s2, f) == InsertedKeys(s, f) && UpdatedKeys(s2, f, true) == UpdatedKeys(s, f, true)
    requires forall x | x != r.key :: LiveRows(s2, x) == LiveRows(s, x)
    requires LiveRows(s2, r.key) == LiveRows(s, r.key) + [r]
    ensures Collected(s2, f, true, collect, lastKey, if collect then MergeLast(t, r) else t)
  {
    if collect {
      var m := MergeLast(t, r);
      MergeLastKeeps(t, r);
      assert IncreasingBuilt(m) by {
        forall i, i2 | 0 <= i < i2 < |m| ensures m[i].key < m[i2].key {
          assert t[i].key < t[i2].key;
        }
      }
      forall b | b in m ensures b.versions == Expected(s2, b.key, true) {
        var i :| 0 <= i < |m| && m[i] == b;
        if i < |t| - 1 {
          assert t[i] in t && t[i].key < t[|t| - 1].key;
        } else {
          assert t[|t| - 1] in t;
        }
      }
    }
  }

  /** A duplicate live row of the last consumed key: merged into the row
      built for it when duplicates update, dropped otherwise. */
  lemma CollectedDuplicate(s: seq<Row>, s2: seq<Row>, f: seq<int>, keepDup: bool, collect: bool,
                           lastKey: int, t: seq<Built>, r: Row)
    requires Collected(s, f, keepDup, collect, lastKey, t) && ValidKey(r.key) && !r.deleted
    requires r.key in LiveKeys(s) && (keepDup ==> lastKey == r.key)
    requires InsertedKeys(s2, f) == InsertedKeys(s, f) && UpdatedKeys(s2, f, keepDup) == UpdatedKeys(s, f, keepDup)
    requires forall x | x != r.key :: LiveRows(s2, x) == LiveRows(s, x)
    requires LiveRows(s2, r.key) == LiveRows(s, r.key) + [r]
    ensures Collected(s2, f, keepDup, collect, lastKey, if keepDup && collect then MergeLast(t, r) else t)
  {
    if keepDup {
      CollectedMerge(s, s2, f, collect, lastKey, t, r);
    } else {
      LiveRowsPresent(s, r.key);
      var rows := LiveRows(s, r.key);
      assert (rows + [r])[..1] == rows[..1];
      CollectedSame(s, s2, f, keepDup, collect, lastKey, t, r.key);
    }
  }

  /** The memory rows of a disk key whose first row is live and that
      duplicates do not update leave the target as it is. */
  lemma CollectedDiscard(s: seq<Row>, s2: seq<Row>, f: seq<int>, collect: bool, lastKey: int, t: seq<Built>, k: int)
    requires Collected(s, f, false, collect, lastKey, t) && k !in LiveKeys(s)
    requires InsertedKeys(s2, f) == InsertedKeys(s, f)
    requires forall x | x != k :: LiveRows(s2, x) == LiveRows(s, x)
    ensures Collected(s2, f, false, collect, lastKey, t)
  {
    CollectedSame(s, s2, f, false, collect, lastKey, t, k);
  }

  /** A row that follows s and is not the first row of a disk key. */
  lemma PassingRow(s: seq<Row>, r: Row, f: seq<int>, read: set<int>)
    requires Follows(s, r) && !(OpensKey(s + [r], |s|) && r.key in f)
    ensures Passing(Consumed(s, s + [r], f, r, read))
  {
    Snoc(s, r, f);
    SnocRows(s, r);
    Above(s, f, r.key);
  }

  /** A row above every row of s that is the first row of a disk key not read. */
  lemma OpeningRow(s: seq<Row>, r: Row, f: seq<int>, read: set<int>)
    requires Follows(s, r) && (|s| > 0 ==> s[|s| - 1].key < r.key) && OpensKey(s + [r], |s|)
    requires r.key in f && r.key !in read
    ensures Opening(Consumed(s, s + [r], f, r, read))
  {
    Snoc(s, r, f);
    SnocRows(s, r);
    Fresh(s, f, r.key);
    LiveRowsPresent(s, r.key);
  }

  /** Consuming row j while the next disk key is above it: the row is not
      the first row of a disk key. */
  lemma GreaterFacts(a: Args, j: nat, fi: nat)
    requires ArgsValid(a) && j < Window(a.mem, a.maxKey) && fi <= |a.filter| && Lined(a, j, fi)
    requires fi == |a.filter| || a.filter[fi] > a.mem[j].key
    ensures Lined(a, j + 1, fi)
    ensures Passing(Consumed(a.mem[..j], a.mem[..j + 1], a.filter, a.mem[j], ReadKeys(a.filter, fi)))
  {
    Unlined(a, j, fi);
    NextRow(a, j);
    NotOpeningMatch(a, j, fi);
    AlignedRow(a, j, fi, false);
    PassingRow(a.mem[..j], a.mem[j], a.filter, ReadKeys(a.filter, fi));
  }

  /** Consuming row j when it equals the next disk key: the row is the first
      of its key, and the disk key is read with it. */
  lemma EqualFacts(a: Args, j: nat, fi: nat)
    requires ArgsValid(a) && j < Window(a.mem, a.maxKey) && fi < |a.filter| && Lined(a, j, fi)
    requires a.filter[fi] == a.mem[j].key
    ensures Lined(a, j + 1, fi + 1)
    ensures a.mem[j].deleted ==> !a.keepDup
    ensures ReadKeys(a.filter, fi + 1) == ReadKeys(a.filter, fi) + {a.mem[j].key}
    ensures Opening(Consumed(a.mem[..j], a.mem[..j + 1], a.filter, a.mem[j], ReadKeys(a.filter, fi)))
  {
    Unlined(a, j, fi);
    NextRow(a, j);
    OpeningMatch(a, j, fi);
    AlignedRow(a, j, fi, true);
    ReadOneMore(a.filter, fi);
    OpeningRow(a.mem[..j], a.mem[j], a.filter, ReadKeys(a.filter, fi));
  }

  /** A deleting row that meets no disk key only counts as a failed delete. */
  lemma DeleteFailedCounts(s: seq<Row>, s2: seq<Row>, f: seq<int>, keepDup: bool, info: MergeInfo)
    requires LiveKeys(s2) == LiveKeys(s) && MatchedLive(s2, f) == MatchedLive(s, f)
    requires MatchedDeleted(s2, f) == MatchedDeleted(s, f) && DeletedCount(s2) == DeletedCount(s) + 1
    requires Counted(s, f, keepDup, info)
    ensures Counted(s2, f, keepDup, DeleteFailed(info))
    ensures InsertedKeys(s2, f) == InsertedKeys(s, f) && UpdatedKeys(s2, f, keepDup) == UpdatedKeys(s, f, keepDup)
    ensures forall read :: Touched(s2, f, read) == Touched(s, f, read)
  {
  }

  /** A row whose key has no live row before it and that adds no live key
      leaves lastKey and discardKey as they are. */
  lemma FoldingUnchanged(s: seq<Row>, s2: seq<Row>, f: seq<int>, keepDup: bool, lastKey: int, discardKey: int, k: int)
    requires ValidKey(k) && EndsWith(s2, k) && (|s| > 0 ==> s[|s| - 1].key <= k)
    requires (|s| == 0 || s[|s| - 1].key < k) ==> k !in LiveKeys(s)
    requires LiveKeys(s2) == LiveKeys(s)
    requires InsertedKeys(s2, f) == InsertedKeys(s, f) && UpdatedKeys(s2, f, keepDup) == UpdatedKeys(s, f, keepDup)
    requires Folding(s, f, keepDup, lastKey, discardKey)
    ensures Folding(s2, f, keepDup, lastKey, discardKey)
  {
  }

  lemma DeleteFailedKeeps(s: seq<Row>, s2: seq<Row>, f: seq<int>, keepDup: bool, collect: bool, info: MergeInfo,
                          lastKey: int, discardKey: int, t: seq<Built>, r: Row, read: set<int>)
    requires Passing(Consumed(s, s2, f, r, read)) && r.deleted
    requires Kept(Part(s, f, keepDup, collect, info, lastKey, discardKey, t, read))
    ensures Kept(Part(s2, f, keepDup, collect, DeleteFailed(info), lastKey, discardKey, t, read))
  {
    Unkept(s, f, keepDup, collect, info, lastKey, discardKey, t, read);
    Unpassing(s, s2, f, r, read);
    DeleteFailedCounts(s, s2, f, keepDup, info);
    FoldingUnchanged(s, s2, f, keepDup, lastKey, discardKey, r.key);
    CollectedSame(s, s2, f, keepDup, collect, lastKey, t, r.key);
  }

  lemma DeleteFailedStep(a: Args, j: nat, fi: nat, info: MergeInfo, lastKey: int, discardKey: int, target: seq<Built>)
    requires ArgsValid(a) && Reading(a, Cursor(j, fi, info, lastKey, discardKey, target))
    requires j < |a.mem| && a.mem[j].key <= a.maxKey
    requires a.mem[j].deleted && (fi < |a.filter| ==> a.filter[fi] > a.mem[j].key)
    ensures Reading(a, Cursor(j + 1, fi, DeleteFailed(info), lastKey, discardKey, target))
  {
    Open(a, j, fi, info, lastKey, discardKey, target);
    var s, s2, r := a.mem[..j], a.mem[..j + 1], a.mem[j];
    GreaterFacts(a, j, fi);
    DeleteFailedKeeps(s, s2, a.filter, a.keepDup, a.collect, info, lastKey, discardKey, target, r, ReadKeys(a.filter, fi));
  }

  /** A live row whose key is neither lastKey nor discardKey is the first
      live row of its key, above the key of every row built. */
  lemma NewKey(s: seq<Row>, f: seq<int>, keepDup: bool, lastKey: int, discardKey: int, k: int)
    requires ValidKey(k) && Folding(s, f, keepDup, lastKey, discardKey) && (|s| > 0 ==> s[|s| - 1].key <= k)
    requires (|s| == 0 || s[|s| - 1].key < k) ==> k !in LiveKeys(s)
    requires lastKey != k && discardKey != k
    ensures k !in LiveKeys(s) && (lastKey == KeyMin || lastKey < k)
    ensures discardKey == KeyMin || discardKey <= k
  {
  }

  /** A key new to the live keys, added to them alone. */
  lemma LiveAdd(live: set<int>, matched: set<int>, k: int)
    requires k !in live && matched <= live
    ensures (live + {k}) - matched == (live - matched) + {k}
    ensures k !in live - matched
  {
  }

  /** A live row of a new key that meets no disk key is inserted. */
  lemma InsertCounts(s: seq<Row>, s2: seq<Row>, f: seq<int>, keepDup: bool, info: MergeInfo, k: int)
    requires k !in LiveKeys(s) && MatchedLive(s, f) <= LiveKeys(s)
    requires LiveKeys(s2) == LiveKeys(s) + {k} && MatchedLive(s2, f) == MatchedLive(s, f)
    requires MatchedDeleted(s2, f) == MatchedDeleted(s, f) && DeletedCount(s2) == DeletedCount(s)
    requires Counted(s, f, keepDup, info)
    ensures Counted(s2, f, keepDup, Inserted(info, k))
    ensures InsertedKeys(s2, f) == InsertedKeys(s, f) + {k} && UpdatedKeys(s2, f, keepDup) == UpdatedKeys(s, f, keepDup)
    ensures forall read :: Touched(s2, f, read) == Touched(s, f, read) + {k}
  {
    LiveAdd(LiveKeys(s), MatchedLive(s, f), k);
  }

  /** The key of a row built last becomes lastKey. */
  lemma FoldingBuilt(s2: seq<Row>, f: seq<int>, keepDup: bool, discardKey: int, k: int)
    requires ValidKey(k) && EndsWith(s2, k) && k in LiveKeys(s2)
    requires k in InsertedKeys(s2, f) + UpdatedKeys(s2, f, keepDup)
    requires discardKey == KeyMin || discardKey <= k
    requires keepDup ==> discardKey == KeyMin
    ensures Folding(s2, f, keepDup, k, discardKey)
  {
  }

  /** What inserting row r keeps, on the rows consumed before and after it. */
  lemma InsertKeeps(s: seq<Row>, s2: seq<Row>, f: seq<int>, keepDup: bool, collect: bool, info: MergeInfo,
                    lastKey: int, discardKey: int, t: seq<Built>, r: Row, read: set<int>)
    requires Passing(Consumed(s, s2, f, r, read)) && !r.deleted && lastKey != r.key && discardKey != r.key
    requires Kept(Part(s, f, keepDup, collect, info, lastKey, discardKey, t, read))
    ensures Kept(Part(s2, f, keepDup, collect, Inserted(info, r.key), r.key, discardKey, Emit(collect, t, r), read))
  {
    Unkept(s, f, keepDup, collect, info, lastKey, discardKey, t, read);
    InsertParts(s, s2, f, keepDup, collect, info, lastKey, discardKey, t, r, read);
  }

  lemma InsertParts(s: seq<Row>, s2: seq<Row>, f: seq<int>, keepDup: bool, collect: bool, info: MergeInfo,
                    lastKey: int, discardKey: int, t: seq<Built>, r: Row, read: set<int>)
    requires Passing(Consumed(s, s2, f, r, read)) && !r.deleted && lastKey != r.key && discardKey != r.key
    requires Counted(s, f, keepDup, info) && Folding(s, f, keepDup, lastKey, discardKey)
    requires Collected(s, f, keepDup, collect, lastKey, t) && Spans(info.keyFirst, info.keyLast, Touched(s, f, read))
    ensures Counted(s2, f, keepDup, Inserted(info, r.key)) && Folding(s2, f, keepDup, r.key, discardKey)
    ensures Collected(s2, f, keepDup, collect, r.key, Emit(collect, t, r))
    ensures Spans(Inserted(info, r.key).keyFirst, Inserted(info, r.key).keyLast, Touched(s2, f, read))
  {
    InsertTally(s, s2, f, keepDup, info, lastKey, discardKey, r, read);
    InsertBuilt(s, s2, f, keepDup, collect, info, lastKey, discardKey, t, r, read);
  }

  lemma InsertTally(s: seq<Row>, s2: seq<Row>, f: seq<int>, keepDup: bool, info: MergeInfo,
                    lastKey: int, discardKey: int, r: Row, read: set<int>)
    requires Passing(Consumed(s, s2, f, r, read)) && !r.deleted && lastKey != r.key && discardKey != r.key
    requires Counted(s, f, keepDup, info) && Folding(s, f, keepDup, lastKey, discardKey)
    ensures Counted(s2, f, keepDup, Inserted(info, r.key)) && Folding(s2, f, keepDup, r.key, discardKey)
  {
    Unpassing(s, s2, f, r, read);
    NewKey(s, f, keepDup, lastKey, discardKey, r.key);
    InsertCounts(s, s2, f, keepDup, info, r.key);
    FoldingBuilt(s2, f, keepDup, discardKey, r.key);
  }

  lemma InsertBuilt(s: seq<Row>, s2: seq<Row>, f: seq<int>, keepDup: bool, collect: bool, info: MergeInfo,
                    lastKey: int, discardKey: int, t: seq<Built>, r: Row, read: set<int>)
    requires Passing(Consumed(s, s2, f, r, read)) && !r.deleted && lastKey != r.key && discardKey != r.key
    requires Folding(s, f, keepDup, lastKey, discardKey)
    requires Collected(s, f, keepDup, collect, lastKey, t) && Spans(info.keyFirst, info.keyLast, Touched(s, f, read))
    ensures Collected(s2, f, keepDup, collect, r.key, Emit(collect, t, r))
    ensures Spans(Inserted(info, r.key).keyFirst, Inserted(info, r.key).keyLast, Touched(s2, f, read))
  {
    Unpassing(s, s2, f, r, read);
    NewKey(s, f, keepDup, lastKey, discardKey, r.key);
    CollectedAppend(s, s2, f, keepDup, collect, lastKey, t, r);
    SpansAdd(info.keyFirst, info.keyLast, Touched(s, f, read), r.key);
  }

  lemma InsertStep(a: Args, j: nat, fi: nat, info: MergeInfo, lastKey: int, discardKey: int, target: seq<Built>)
    requires ArgsValid(a) && Reading(a, Cursor(j, fi, info, lastKey, discardKey, target))
    requires j < |a.mem| && a.mem[j].key <= a.maxKey
    requires !a.mem[j].deleted && (fi < |a.filter| ==> a.filter[fi] > a.mem[j].key)
    requires info.rowsInserted - info.rowsDeleteSucceed < a.maxRowsToRead
    requires a.collect ==> info.nOperations < a.maxPoints
    requires lastKey != a.mem[j].key && discardKey != a.mem[j].key
    ensures Reading(a, Cursor(j + 1, fi,
                Inserted(info, a.mem[j].key),
                a.mem[j].key, discardKey,
                Emit(a.collect, target, a.mem[j])))
  {
    Open(a, j, fi, info, lastKey, discardKey, target);
    var s, s2, r := a.mem[..j], a.mem[..j + 1], a.mem[j];
    GreaterFacts(a, j, fi);
    InsertKeeps(s, s2, a.filter, a.keepDup, a.collect, info, lastKey, discardKey, target, r, ReadKeys(a.filter, fi));
  }

  /** A live row whose key is lastKey or discardKey repeats the last key
      consumed, which already has a live row; with duplicates updating it is
      the key built last. */
  lemma Seen(s: seq<Row>, f: seq<int>, keepDup: bool, lastKey: int, discardKey: int, k: int)
    requires ValidKey(k) && Folding(s, f, keepDup, lastKey, discardKey) && (|s| > 0 ==> s[|s| - 1].key <= k)
    requires lastKey == k || discardKey == k
    ensures EndsWith(s, k) && k in LiveKeys(s)
    ensures keepDup ==> lastKey == k
  {
  }

  /** A live row of a key that already has one changes no count. */
  lemma DuplicateCounts(s: seq<Row>, s2: seq<Row>, f: seq<int>, keepDup: bool, info: MergeInfo, k: int)
    requires k in LiveKeys(s) && LiveKeys(s2) == LiveKeys(s) + {k} && MatchedLive(s2, f) == MatchedLive(s, f)
    requires MatchedDeleted(s2, f) == MatchedDeleted(s, f) && DeletedCount(s2) == DeletedCount(s)
    requires Counted(s, f, keepDup, info)
    ensures LiveKeys(s2) == LiveKeys(s) && Counted(s2, f, keepDup, info)
    ensures InsertedKeys(s2, f) == InsertedKeys(s, f) && UpdatedKeys(s2, f, keepDup) == UpdatedKeys(s, f, keepDup)
    ensures forall read :: Touched(s2, f, read) == Touched(s, f, read)
  {
    assert LiveKeys(s2) == LiveKeys(s);
  }

  /** What a duplicate live row of the last key keeps: the counts, the key
      range and lastKey; it is merged into the row built last when
      duplicates update, dropped otherwise. */
  lemma DuplicateKeeps(s: seq<Row>, s2: seq<Row>, f: seq<int>, keepDup: bool, collect: bool, info: MergeInfo,
                       lastKey: int, discardKey: int, t: seq<Built>, r: Row, read: set<int>)
    requires Passing(Consumed(s, s2, f, r, read)) && !r.deleted && (lastKey == r.key || discardKey == r.key)
    requires Kept(Part(s, f, keepDup, collect, info, lastKey, discardKey, t, read))
    ensures Kept(Part(s2, f, keepDup, collect, info, lastKey, discardKey,
                      if keepDup && collect then MergeLast(t, r) else t, read))
  {
    Unkept(s, f, keepDup, collect, info, lastKey, discardKey, t, read);
    Unpassing(s, s2, f, r, read);
    Seen(s, f, keepDup, lastKey, discardKey, r.key);
    DuplicateCounts(s, s2, f, keepDup, info, r.key);
    FoldingUnchanged(s, s2, f, keepDup, lastKey, discardKey, r.key);
    CollectedDuplicate(s, s2, f, keepDup, collect, lastKey, t, r);
  }

  lemma DuplicateStep(a: Args, j: nat, fi: nat, info: MergeInfo, lastKey: int, discardKey: int, target: seq<Built>)
    requires ArgsValid(a) && Reading(a, Cursor(j, fi, info, lastKey, discardKey, target))
    requires j < |a.mem| && a.mem[j].key <= a.maxKey
    requires !a.mem[j].deleted && (fi < |a.filter| ==> a.filter[fi] > a.mem[j].key)
    requires lastKey == a.mem[j].key || discardKey == a.mem[j].key
    ensures Reading(a, Cursor(j + 1, fi, info, lastKey, discardKey,
                if a.keepDup && a.collect then MergeLast(target, a.mem[j]) else target))
  {
    Open(a, j, fi, info, lastKey, discardKey, target);
    var s, s2, r := a.mem[..j], a.mem[..j + 1], a.mem[j];
    GreaterFacts(a, j, fi);
    DuplicateKeeps(s, s2, a.filter, a.keepDup, a.collect, info, lastKey, discardKey, target, r, ReadKeys(a.filter, fi));
  }

  /** A key new to the deleted matches and the keys read, added to both. */
  lemma MatchDelete(deleted: set<int>, read: set<int>, k: int)
    requires k !in deleted && k !in read
    ensures (read + {k}) - (deleted + {k}) == read - deleted
    ensures |deleted + {k}| == |deleted| + 1
  {
  }

  /** A deleting row that is the first of a disk key counts as a successful delete. */
  lemma DeleteSucceedCounts(s: seq<Row>, s2: seq<Row>, f: seq<int>, info: MergeInfo, k: int, read: set<int>)
    requires k !in LiveKeys(s) && k !in MatchedDeleted(s, f) && k !in read
    requires MatchedDeleted(s2, f) == MatchedDeleted(s, f) + {k} && MatchedLive(s2, f) == MatchedLive(s, f)
    requires LiveKeys(s2) == LiveKeys(s) && DeletedCount(s2) == DeletedCount(s) + 1
    requires Counted(s, f, false, info)
    ensures Counted(s2, f, false, DeleteSucceeded(info))
    ensures InsertedKeys(s2, f) == InsertedKeys(s, f) && UpdatedKeys(s2, f, false) == UpdatedKeys(s, f, false)
    ensures Touched(s2, f, read + {k}) == Touched(s, f, read)
  {
    MatchDelete(MatchedDeleted(s, f), read, k);
  }

  /** What a deleting row that is the first of a disk key keeps: it counts as
      a successful delete, and its key leaves the key range. */
  lemma DeleteSucceedKeeps(s: seq<Row>, s2: seq<Row>, f: seq<int>, keepDup: bool, collect: bool, info: MergeInfo,
                           lastKey: int, discardKey: int, t: seq<Built>, r: Row, read: set<int>)
    requires Opening(Consumed(s, s2, f, r, read)) && r.deleted && !keepDup
    requires Kept(Part(s, f, keepDup, collect, info, lastKey, discardKey, t, read))
    ensures Kept(Part(s2, f, keepDup, collect, DeleteSucceeded(info), lastKey, discardKey, t, read + {r.key}))
  {
    Unkept(s, f, keepDup, collect, info, lastKey, discardKey, t, read);
    Unopening(s, s2, f, r, read);
    DeleteSucceedCounts(s, s2, f, info, r.key, read);
    FoldingUnchanged(s, s2, f, false, lastKey, discardKey, r.key);
    CollectedSame(s, s2, f, false, collect, lastKey, t, r.key);
  }

  lemma DeleteSucceedStep(a: Args, j: nat, fi: nat, info: MergeInfo, lastKey: int, discardKey: int, target: seq<Built>)
    requires ArgsValid(a) && Reading(a, Cursor(j, fi, info, lastKey, discardKey, target))
    requires j < |a.mem| && a.mem[j].key <= a.maxKey
    requires fi < |a.filter| && a.filter[fi] == a.mem[j].key && a.mem[j].deleted
    requires a.collect ==> info.nOperations < a.maxPoints
    ensures Reading(a, Cursor(j + 1, fi + 1,
                DeleteSucceeded(info),
                lastKey, discardKey, target))
  {
    Open(a, j, fi, info, lastKey, discardKey, target);
    var s, s2, r := a.mem[..j], a.mem[..j + 1], a.mem[j];
    EqualFacts(a, j, fi);
    DeleteSucceedKeeps(s, s2, a.filter, a.keepDup, a.collect, info, lastKey, discardKey, target, r, ReadKeys(a.filter, fi));
  }

  /** A key new to the live keys, the live matches, the deleted matches and
      the keys read, added to the live keys and the live matches. */
  lemma MatchAdd(live: set<int>, matched: set<int>, deleted: set<int>, read: set<int>, k: int)
    requires k !in live && k !in matched && k !in deleted && k !in read
    ensures (live + {k}) - (matched + {k}) == live - matched
    ensures ((read + {k}) - deleted) + (live - matched) == ((read - deleted) + (live - matched)) + {k}
    ensures |matched + {k}| == |matched| + 1
  {
  }

  /** A live row that is the first of a disk key counts as an update when duplicates update. */
  lemma UpdateCounts(s: seq<Row>, s2: seq<Row>, f: seq<int>, info: MergeInfo, k: int, read: set<int>)
    requires k !in LiveKeys(s) && k !in MatchedLive(s, f) && k !in MatchedDeleted(s, f) && k !in read
    requires MatchedLive(s2, f) == MatchedLive(s, f) + {k} && MatchedDeleted(s2, f) == MatchedDeleted(s, f)
    requires LiveKeys(s2) == LiveKeys(s) + {k} && DeletedCount(s2) == DeletedCount(s)
    requires Counted(s, f, true, info)
    ensures Counted(s2, f, true, Updated(info, k))
    ensures InsertedKeys(s2, f) == InsertedKeys(s, f) && UpdatedKeys(s2, f, true) == UpdatedKeys(s, f, true) + {k}
    ensures Touched(s2, f, read + {k}) == Touched(s, f, read) + {k}
  {
    MatchAdd(LiveKeys(s), MatchedLive(s, f), MatchedDeleted(s, f), read, k);
  }

  /** What a live row that is the first of a disk key keeps when duplicates
      update: the key counts as updated and a row is built for it. */
  lemma UpdateKeeps(s: seq<Row>, s2: seq<Row>, f: seq<int>, keepDup: bool, collect: bool, info: MergeInfo,
                    lastKey: int, discardKey: int, t: seq<Built>, r: Row, read: set<int>)
    requires Opening(Consumed(s, s2, f, r, read)) && !r.deleted && keepDup
    requires Kept(Part(s, f, keepDup, collect, info, lastKey, discardKey, t, read))
    ensures Kept(Part(s2, f, keepDup, collect, Updated(info, r.key), r.key, discardKey,
                      Emit(collect, t, r), read + {r.key}))
  {
    Unkept(s, f, keepDup, collect, info, lastKey, discardKey, t, read);
    Unopening(s, s2, f, r, read);
    var k := r.key;
    UpdateCounts(s, s2, f, info, k, read);
    FoldingBuilt(s2, f, true, discardKey, k);
    CollectedAppend(s, s2, f, true, collect, lastKey, t, r);
    SpansAdd(info.keyFirst, info.keyLast, Touched(s, f, read), k);
  }

  lemma UpdateStep(a: Args, j: nat, fi: nat, info: MergeInfo, lastKey: int, discardKey: int, target: seq<Built>)
    requires ArgsValid(a) && Reading(a, Cursor(j, fi, info, lastKey, discardKey, target))
    requires j < |a.mem| && a.mem[j].key <= a.maxKey
    requires fi < |a.filter| && a.filter[fi] == a.mem[j].key && !a.mem[j].deleted && a.keepDup
    requires a.collect ==> info.nOperations < a.maxPoints
    ensures Reading(a, Cursor(j + 1, fi + 1, Updated(info, a.mem[j].key), a.mem[j].key, discardKey,
                              Emit(a.collect, target, a.mem[j])))
  {
    Open(a, j, fi, info, lastKey, discardKey, target);
    EqualFacts(a, j, fi);
    UpdateKeeps(a.mem[..j], a.mem[..j + 1], a.filter, a.keepDup, a.collect, info, lastKey, discardKey, target, a.mem[j],
                ReadKeys(a.filter, fi));
  }

  /** A live row that is the first of a disk key changes no count when
      duplicates do not update; its key joins the key range. */
  lemma DiscardCounts(s: seq<Row>, s2: seq<Row>, f: seq<int>, info: MergeInfo, k: int, read: set<int>)
    requires k !in LiveKeys(s) && k !in MatchedLive(s, f) && k !in MatchedDeleted(s, f) && k !in read
    requires MatchedLive(s2, f) == MatchedLive(s, f) + {k} && MatchedDeleted(s2, f) == MatchedDeleted(s, f)
    requires LiveKeys(s2) == LiveKeys(s) + {k} && DeletedCount(s2) == DeletedCount(s)
    requires Counted(s, f, false, info)
    ensures Counted(s2, f, false, WithKey(info, k))
    ensures InsertedKeys(s2, f) == InsertedKeys(s, f) && k in LiveKeys(s2)
    ensures Touched(s2, f, read + {k}) == Touched(s, f, read) + {k}
  {
    MatchAdd(LiveKeys(s), MatchedLive(s, f), MatchedDeleted(s, f), read, k);
  }

  /** The key of a discarded row becomes discardKey. */
  lemma FoldingDiscard(s: seq<Row>, s2: seq<Row>, f: seq<int>, lastKey: int, discardKey: int, k: int)
    requires ValidKey(k) && EndsWith(s2, k) && (|s| > 0 ==> s[|s| - 1].key < k) && k in LiveKeys(s2)
    requires InsertedKeys(s2, f) == InsertedKeys(s, f)
    requires Folding(s, f, false, lastKey, discardKey)
    ensures Folding(s2, f, false, lastKey, k)
  {
  }

  /** What a live row that is the first of a disk key keeps when duplicates
      do not update: the disk row stays, the key is only read, and the rows of
      the key are discarded from here on. */
  lemma DiscardKeeps(s: seq<Row>, s2: seq<Row>, f: seq<int>, keepDup: bool, collect: bool, info: MergeInfo,
                     lastKey: int, discardKey: int, t: seq<Built>, r: Row, read: set<int>)
    requires Opening(Consumed(s, s2, f, r, read)) && !r.deleted && !keepDup
    requires Kept(Part(s, f, keepDup, collect, info, lastKey, discardKey, t, read))
    ensures Kept(Part(s2, f, keepDup, collect, WithKey(info, r.key), lastKey, r.key, t, read + {r.key}))
  {
    Unkept(s, f, keepDup, collect, info, lastKey, discardKey, t, read);
    Unopening(s, s2, f, r, read);
    var k := r.key;
    DiscardCounts(s, s2, f, info, k, read);
    FoldingDiscard(s, s2, f, lastKey, discardKey, k);
    CollectedDiscard(s, s2, f, collect, lastKey, t, k);
    SpansAdd(info.keyFirst, info.keyLast, Touched(s, f, read), k);
  }

  lemma DiscardStep(a: Args, j: nat, fi: nat, info: MergeInfo, lastKey: int, discardKey: int, target: seq<Built>)
    requires ArgsValid(a) && Reading(a, Cursor(j, fi, info, lastKey, discardKey, target))
    requires j < |a.mem| && a.mem[j].key <= a.maxKey
    requires fi < |a.filter| && a.filter[fi] == a.mem[j].key && !a.mem[j].deleted && !a.keepDup
    ensures Reading(a, Cursor(j + 1, fi + 1, WithKey(info, a.mem[j].key), lastKey, a.mem[j].key, target))
  {
    Open(a, j, fi, info, lastKey, discardKey, target);
    var s, s2, r := a.mem[..j], a.mem[..j + 1], a.mem[j];
    EqualFacts(a, j, fi);
    DiscardKeeps(s, s2, a.filter, a.keepDup, a.collect, info, lastKey, discardKey, target, r, ReadKeys(a.filter, fi));
  }

  /** The rows built lie below a key above the last row built. */
  lemma BuiltBelow(s: seq<Row>, f: seq<int>, keepDup: bool, collect: bool, lastKey: int, discardKey: int,
                   t: seq<Built>, k: int)
    requires Collected(s, f, keepDup, collect, lastKey, t) && Folding(s, f, keepDup, lastKey, discardKey)
    requires |s| > 0 ==> s[|s| - 1].key <= k
    requires lastKey != k
    ensures forall b | b in t :: b.key < k
  {
    if |t| > 0 {
      forall b | b in t ensures b.key < k {
        var i :| 0 <= i < |t| && t[i] == b;
        assert i == |t| - 1 || t[i].key < t[|t| - 1].key;
      }
    }
  }

  /** A read that stops at a row limit stops before a new key: every row
      built lies below the next memory row. */
  lemma StopBelow(a: Args, j: nat, fi: nat, info: MergeInfo, lastKey: int, discardKey: int, target: seq<Built>)
    requires ArgsValid(a) && Reading(a, Cursor(j, fi, info, lastKey, discardKey, target)) && j < |a.mem|
    requires lastKey != a.mem[j].key || (fi < |a.filter| && a.filter[fi] == a.mem[j].key)
    ensures forall b | b in target :: b.key < a.mem[j].key
  {
    Open(a, j, fi, info, lastKey, discardKey, target);
    Unkept(a.mem[..j], a.filter, a.keepDup, a.collect, info, lastKey, discardKey, target, ReadKeys(a.filter, fi));
    Unlined(a, j, fi);
    var s := a.mem[..j];
    if j > 0 {
      assert s[j - 1] == a.mem[j - 1];
    }
    BuiltBelow(s, a.filter, a.keepDup, a.collect, lastKey, discardKey, target, a.mem[j].key);
  }

  /** Operations a merge of rows s against the disk keys f performs: the
      keys it inserts, updates and deletes. */
  ghost function Ops(s: seq<Row>, f: seq<int>, keepDup: bool): nat
  {
    |InsertedKeys(s, f)| + |UpdatedKeys(s, f, keepDup)| + |MatchedDeleted(s, f)|
  }

  /** Row j is one the read counts as an operation: a live row of a new key
      below the next disk key, or the first row of a disk key when it deletes
      the key or duplicates update. */
  predicate Pending(a: Args, j: nat, fi: nat, lastKey: int, discardKey: int)
    requires j < |a.mem|
  {
    (!a.mem[j].deleted && (fi < |a.filter| ==> a.filter[fi] > a.mem[j].key)
     && lastKey != a.mem[j].key && discardKey != a.mem[j].key)
    || (fi < |a.filter| && a.filter[fi] == a.mem[j].key && (a.mem[j].deleted || a.keepDup))
  }

  /** The first row of a disk key that deletes it, or updates it when
      duplicates update, adds one operation. */
  lemma MatchedOp(s: seq<Row>, s2: seq<Row>, f: seq<int>, keepDup: bool, info: MergeInfo, r: Row)
    requires r.deleted || keepDup
    requires r.key !in LiveKeys(s) && r.key !in MatchedLive(s, f) && r.key !in MatchedDeleted(s, f)
    requires r.deleted ==> MatchedDeleted(s2, f) == MatchedDeleted(s, f) + {r.key}
                           && MatchedLive(s2, f) == MatchedLive(s, f) && LiveKeys(s2) == LiveKeys(s)
    requires !r.deleted ==> MatchedLive(s2, f) == MatchedLive(s, f) + {r.key}
                            && MatchedDeleted(s2, f) == MatchedDeleted(s, f) && LiveKeys(s2) == LiveKeys(s) + {r.key}
    requires Counted(s, f, keepDup, info)
    ensures Ops(s2, f, keepDup) == info.nOperations + 1
  {
    if !r.deleted {
      MatchAdd(LiveKeys(s), MatchedLive(s, f), MatchedDeleted(s, f), {}, r.key);
    }
  }

  /** In sorted rows ending at or below k, the live keys other than k lie below it. */
  lemma LiveBelow(s: seq<Row>, f: seq<int>, k: int)
    requires SortedRows(s) && (|s| > 0 ==> s[|s| - 1].key <= k) && k !in LiveKeys(s)
    ensures forall e | e in LiveKeys(s) :: e < k
  {
    Bounds(s, f);
  }

  lemma NextMatched(a: Args, j: nat, fi: nat, info: MergeInfo, lastKey: int, discardKey: int, target: seq<Built>)
    requires ArgsValid(a) && Reading(a, Cursor(j, fi, info, lastKey, discardKey, target)) && j < Window(a.mem, a.maxKey)
    requires fi < |a.filter| && a.filter[fi] == a.mem[j].key && (a.mem[j].deleted || a.keepDup)
    ensures Ops(a.mem[..j + 1], a.filter, a.keepDup) == info.nOperations + 1
    ensures forall k | k in LiveKeys(a.mem[..j]) :: k < a.mem[j].key
  {
    Open(a, j, fi, info, lastKey, discardKey, target);
    Unkept(a.mem[..j], a.filter, a.keepDup, a.collect, info, lastKey, discardKey, target, ReadKeys(a.filter, fi));
    EqualFacts(a, j, fi);
    Unopening(a.mem[..j], a.mem[..j + 1], a.filter, a.mem[j], ReadKeys(a.filter, fi));
    MatchedOp(a.mem[..j], a.mem[..j + 1], a.filter, a.keepDup, info, a.mem[j]);
    NextRow(a, j);
    LiveBelow(a.mem[..j], a.filter, a.mem[j].key);
  }

  lemma NextInserted(a: Args, j: nat, fi: nat, info: MergeInfo, lastKey: int, discardKey: int, target: seq<Built>)
    requires ArgsValid(a) && Reading(a, Cursor(j, fi, info, lastKey, discardKey, target)) && j < Window(a.mem, a.maxKey)
    requires !a.mem[j].deleted && (fi < |a.filter| ==> a.filter[fi] > a.mem[j].key)
    requires lastKey != a.mem[j].key && discardKey != a.mem[j].key
    ensures Ops(a.mem[..j + 1], a.filter, a.keepDup) == info.nOperations + 1
    ensures forall k | k in LiveKeys(a.mem[..j]) :: k < a.mem[j].key
  {
    Open(a, j, fi, info, lastKey, discardKey, target);
    Unkept(a.mem[..j], a.filter, a.keepDup, a.collect, info, lastKey, discardKey, target, ReadKeys(a.filter, fi));
    var s, s2, r := a.mem[..j], a.mem[..j + 1], a.mem[j];
    GreaterFacts(a, j, fi);
    Unpassing(s, s2, a.filter, r, ReadKeys(a.filter, fi));
    NewKey(s, a.filter, a.keepDup, lastKey, discardKey, r.key);
    InsertCounts(s, s2, a.filter, a.keepDup, info, r.key);
    NextRow(a, j);
    LiveBelow(s, a.filter, r.key);
  }

  /** A pending row adds one operation, and its key lies above every live
      key before it. */
  lemma NextOp(a: Args, j: nat, fi: nat, info: MergeInfo, lastKey: int, discardKey: int, target: seq<Built>)
    requires ArgsValid(a) && Reading(a, Cursor(j, fi, info, lastKey, discardKey, target))
    requires j < Window(a.mem, a.maxKey) && Pending(a, j, fi, lastKey, discardKey)
    ensures Ops(a.mem[..j + 1], a.filter, a.keepDup) == info.nOperations + 1
    ensures forall k | k in LiveKeys(a.mem[..j]) :: k < a.mem[j].key
  {
    if fi < |a.filter| && a.filter[fi] == a.mem[j].key {
      NextMatched(a, j, fi, info, lastKey, discardKey, target);
    } else {
      NextInserted(a, j, fi, info, lastKey, discardKey, target);
    }
  }

  /** Why a read stops: both inputs are exhausted, or a limit is reached
      just before a row that would count as an operation. */
  predicate Halted(a: Args, c: Cursor)
  {
    ((c.j >= |a.mem| || a.mem[c.j].key > a.maxKey) && c.fi >= |a.filter|)
    || (c.j < |a.mem| && a.mem[c.j].key <= a.maxKey && Pending(a, c.j, c.fi, c.lastKey, c.discardKey)
        && (c.info.rowsInserted - c.info.rowsDeleteSucceed >= a.maxRowsToRead
            || (a.collect && c.info.nOperations >= a.maxPoints)))
  }

  /** Halted, held as one fact. */
  predicate Stopped(a: Args, c: Cursor)
  {
    Halted(a, c) == true
  }

  lemma StopDrained(a: Args, c: Cursor)
    requires ArgsValid(a) && !(c.j < |a.mem| && a.mem[c.j].key <= a.maxKey)
    requires c.fi < |a.filter| ==> a.filter[c.fi] == KeyMax
    ensures Stopped(a, c)
  {
  }

  lemma StopInsert(a: Args, c: Cursor)
    requires c.j < |a.mem| && a.mem[c.j].key <= a.maxKey && !a.mem[c.j].deleted
    requires c.fi < |a.filter| ==> a.filter[c.fi] > a.mem[c.j].key
    requires c.lastKey != a.mem[c.j].key && c.discardKey != a.mem[c.j].key
    requires c.info.rowsInserted - c.info.rowsDeleteSucceed >= a.maxRowsToRead
             || (a.collect && c.info.nOperations >= a.maxPoints)
    ensures Stopped(a, c)
  {
  }

  lemma StopMatched(a: Args, c: Cursor)
    requires c.j < |a.mem| && a.mem[c.j].key <= a.maxKey && c.fi < |a.filter| && a.filter[c.fi] == a.mem[c.j].key
    requires a.mem[c.j].deleted || a.keepDup
    requires a.collect && c.info.nOperations >= a.maxPoints
    ensures Stopped(a, c)
  {
  }

  /** What a read that has stopped has done. */
  lemma Finish(mem: seq<Row>, maxKey: int, maxRowsToRead: int, collect: bool, maxPoints: int,
               filter: seq<int>, keepDup: bool,
               consumed: nat, read: nat, info: MergeInfo, lastKey: int, discardKey: int, target: seq<Built>)
    requires ArgsValid(Args(mem, maxKey, maxRowsToRead, collect, maxPoints, filter, keepDup))
    requires Reading(Args(mem, maxKey, maxRowsToRead, collect, maxPoints, filter, keepDup),
                     Cursor(consumed, read, info, lastKey, discardKey, target))
    requires Stopped(Args(mem, maxKey, maxRowsToRead, collect, maxPoints, filter, keepDup),
                     Cursor(consumed, read, info, lastKey, discardKey, target))
    ensures consumed <= Window(mem, maxKey) && read <= |filter|
    ensures Counted(mem[..consumed], filter, keepDup, info)
    ensures Spans(info.keyFirst, info.keyLast, Touched(mem[..consumed], filter, ReadKeys(filter, read)))
    ensures collect ==> BuiltFrom(target, mem[..consumed], filter, keepDup)
    ensures !collect ==> target == []
    ensures info.rowsInserted - info.rowsDeleteSucceed <= maxRowsToRead
    ensures collect ==> info.nOperations <= maxPoints || info.nOperations == 0
    ensures consumed < Window(mem, maxKey) ==> forall b | b in target :: b.key < mem[consumed].key
    ensures (consumed == Window(mem, maxKey) && read == |filter|)
            || info.rowsInserted - info.rowsDeleteSucceed >= maxRowsToRead
            || (collect && info.nOperations >= maxPoints)
    ensures consumed == Window(mem, maxKey) ==> read == |filter|
    ensures consumed < Window(mem, maxKey) ==> Ops(mem[..consumed + 1], filter, keepDup) == info.nOperations + 1
    ensures consumed < Window(mem, maxKey) ==> forall k | k in LiveKeys(mem[..consumed]) :: k < mem[consumed].key
  {
    var a := Args(mem, maxKey, maxRowsToRead, collect, maxPoints, filter, keepDup);
    Open(a, consumed, read, info, lastKey, discardKey, target);
    Unkept(mem[..consumed], filter, keepDup, collect, info, lastKey, discardKey, target, ReadKeys(filter, read));
    if consumed < |mem| && mem[consumed].key <= maxKey {
      StopBelow(a, consumed, read, info, lastKey, discardKey, target);
      NextOp(a, consumed, read, info, lastKey, discardKey, target);
    }
  }

  /** A disk key below the next memory row is read past: its disk row is kept. */
  lemma SkipKeyNext(a: Args, j: nat, fi: nat, info: MergeInfo, lastKey: int, discardKey: int, target: seq<Built>)
    requires ArgsValid(a) && Reading(a, Cursor(j, fi, info, lastKey, discardKey, target))
    requires fi < |a.filter|
    requires j < |a.mem| && a.mem[j].key <= a.maxKey ==> a.filter[fi] < a.mem[j].key
    ensures Reading(a, Cursor(j, fi + 1, WithKey(info, a.filter[fi]), lastKey, discardKey, target))
  {
    FilterStep(a, j, fi, info, lastKey, discardKey, target);
  }

  /** A deleted memory row of a key not on disk fails to delete. */
  lemma FailDeleteNext(a: Args, j: nat, fi: nat, info: MergeInfo, lastKey: int, discardKey: int, target: seq<Built>)
    requires ArgsValid(a) && Reading(a, Cursor(j, fi, info, lastKey, discardKey, target))
    requires j < |a.mem| && a.mem[j].key <= a.maxKey
    requires fi < |a.filter| ==> a.filter[fi] > a.mem[j].key
    requires a.mem[j].deleted
    ensures Reading(a, Cursor(j + 1, fi, DeleteFailed(info), lastKey, discardKey, target))
  {
    DeleteFailedStep(a, j, fi, info, lastKey, discardKey, target);
  }

  /** A live memory row of a new key not on disk is inserted. */
  lemma InsertNext(a: Args, j: nat, fi: nat, info: MergeInfo, lastKey: int, discardKey: int, target: seq<Built>)
    requires ArgsValid(a) && Reading(a, Cursor(j, fi, info, lastKey, discardKey, target))
    requires j < |a.mem| && a.mem[j].key <= a.maxKey
    requires fi < |a.filter| ==> a.filter[fi] > a.mem[j].key
    requires !a.mem[j].deleted && lastKey != a.mem[j].key && discardKey != a.mem[j].key
    requires info.rowsInserted - info.rowsDeleteSucceed < a.maxRowsToRead
    requires a.collect ==> info.nOperations < a.maxPoints
    ensures Reading(a, Cursor(j + 1, fi,
                Inserted(info, a.mem[j].key),
                a.mem[j].key, discardKey, Emit(a.collect, target, a.mem[j])))
  {
    InsertStep(a, j, fi, info, lastKey, discardKey, target);
  }

  /** A live memory row of the key just built or discarded is a duplicate: it joins the row built when duplicates update. */
  lemma RepeatNext(a: Args, j: nat, fi: nat, info: MergeInfo, lastKey: int, discardKey: int, target: seq<Built>)
    requires ArgsValid(a) && Reading(a, Cursor(j, fi, info, lastKey, discardKey, target))
    requires j < |a.mem| && a.mem[j].key <= a.maxKey
    requires fi < |a.filter| ==> a.filter[fi] > a.mem[j].key
    requires !a.mem[j].deleted && (lastKey == a.mem[j].key || discardKey == a.mem[j].key)
    ensures Reading(a, Cursor(j + 1, fi, info, lastKey, discardKey, if a.keepDup && a.collect then MergeLast(target, a.mem[j]) else target))
  {
    DuplicateStep(a, j, fi, info, lastKey, discardKey, target);
  }

  /** A deleted memory row of a disk key deletes it. */
  lemma DeleteNext(a: Args, j: nat, fi: nat, info: MergeInfo, lastKey: int, discardKey: int, target: seq<Built>)
    requires ArgsValid(a) && Reading(a, Cursor(j, fi, info, lastKey, discardKey, target))
    requires j < |a.mem| && a.mem[j].key <= a.maxKey
    requires fi < |a.filter| && a.filter[fi] == a.mem[j].key
    requires a.mem[j].deleted
    requires a.collect ==> info.nOperations < a.maxPoints
    ensures Reading(a, Cursor(j + 1, fi + 1,
                DeleteSucceeded(info),
                lastKey, discardKey, target))
  {
    DeleteSucceedStep(a, j, fi, info, lastKey, discardKey, target);
  }

  /** A live memory row of a disk key updates it when duplicates update. */
  lemma UpdateNext(a: Args, j: nat, fi: nat, info: MergeInfo, lastKey: int, discardKey: int, target: seq<Built>)
    requires ArgsValid(a) && Reading(a, Cursor(j, fi, info, lastKey, discardKey, target))
    requires j < |a.mem| && a.mem[j].key <= a.maxKey
    requires fi < |a.filter| && a.filter[fi] == a.mem[j].key
    requires !a.mem[j].deleted && a.keepDup
    requires a.collect ==> info.nOperations < a.maxPoints
    ensures Reading(a, Cursor(j + 1, fi + 1,
                Updated(info, a.mem[j].key),
                a.mem[j].key, discardKey, Emit(a.collect, target, a.mem[j])))
  {
    UpdateStep(a, j, fi, info, lastKey, discardKey, target);
  }

  /** A live memory row of a disk key is discarded when duplicates do not update: the disk row is kept. */
  lemma DiscardNext(a: Args, j: nat, fi: nat, info: MergeInfo, lastKey: int, discardKey: int, target: seq<Built>)
    requires ArgsValid(a) && Reading(a, Cursor(j, fi, info, lastKey, discardKey, target))
    requires j < |a.mem| && a.mem[j].key <= a.maxKey
    requires fi < |a.filter| && a.filter[fi] == a.mem[j].key
    requires !a.mem[j].deleted && !a.keepDup
    ensures Reading(a, Cursor(j + 1, fi + 1, WithKey(info, a.mem[j].key), lastKey, a.mem[j].key, target))
  {
    DiscardStep(a, j, fi, info, lastKey, discardKey, target);
  }

  /** One turn of the read loop as a function of the cursor: None where the
      read stops, otherwise the cursor after consuming the next disk key or
      memory row. */
  function StepOf(a: Args, c: Cursor): (r: Option<Cursor>)
    requires ArgsValid(a) && c.j <= |a.mem| && c.fi <= |a.filter|
    ensures r.Some? ==> c.j <= r.value.j <= |a.mem| && c.fi <= r.value.fi <= |a.filter|
    ensures r.Some? ==> c.j + c.fi < r.value.j + r.value.fi
    ensures r.Some? ==> c.info.nOperations <= r.value.info.nOperations <= c.info.nOperations + 1
  {
    var rowKey := if c.j < |a.mem| && a.mem[c.j].key <= a.maxKey then a.mem[c.j].key else KeyMax;
    var fKey := if c.fi < |a.filter| then a.filter[c.fi] else KeyMax;
    if fKey == KeyMax && rowKey == KeyMax then None
    else if fKey < rowKey then
      Some(Cursor(c.j, c.fi + 1, WithKey(c.info, a.filter[c.fi]), c.lastKey, c.discardKey, c.target))
    else if fKey > rowKey then
      if a.mem[c.j].deleted then
        Some(Cursor(c.j + 1, c.fi, DeleteFailed(c.info), c.lastKey, c.discardKey, c.target))
      else if c.lastKey != rowKey && c.discardKey != rowKey then
        if c.info.rowsInserted - c.info.rowsDeleteSucceed >= a.maxRowsToRead
           || (a.collect && c.info.nOperations >= a.maxPoints) then None
        else Some(Cursor(c.j + 1, c.fi, Inserted(c.info, rowKey), rowKey, c.discardKey, Emit(a.collect, c.target, a.mem[c.j])))
      else
        Some(Cursor(c.j + 1, c.fi, c.info, c.lastKey, c.discardKey,
                    if a.keepDup && a.collect then MergeLast(c.target, a.mem[c.j]) else c.target))
    else if a.mem[c.j].deleted then
      if a.collect && c.info.nOperations >= a.maxPoints then None
      else Some(Cursor(c.j + 1, c.fi + 1, DeleteSucceeded(c.info), c.lastKey, c.discardKey, c.target))
    else if a.keepDup then
      if a.collect && c.info.nOperations >= a.maxPoints then None
      else Some(Cursor(c.j + 1, c.fi + 1, Updated(c.info, rowKey), rowKey, c.discardKey, Emit(a.collect, c.target, a.mem[c.j])))
    else
      Some(Cursor(c.j + 1, c.fi + 1, WithKey(c.info, rowKey), c.lastKey, rowKey, c.target))
  }

  /** The read from cursor c on, as a function: turns of StepOf until one stops. */
  function RunFrom(a: Args, c: Cursor): (r: Cursor)
    requires ArgsValid(a) && c.j <= |a.mem| && c.fi <= |a.filter|
    decreases |a.mem| - c.j + |a.filter| - c.fi
  {
    match StepOf(a, c)
    case None => c
    case Some(n) => RunFrom(a, n)
  }

  /** Two cursors that stand at the same place with the same statistics;
      only the rows built may differ. */
  predicate SameRead(c: Cursor, d: Cursor)
  {
    c.j == d.j && c.fi == d.fi && c.info == d.info && c.lastKey == d.lastKey && c.discardKey == d.discardKey
  }

  /** The operations counted never go down along a read. */
  lemma {:induction false} RunCounts(a: Args, c: Cursor)
    requires ArgsValid(a) && c.j <= |a.mem| && c.fi <= |a.filter|
    ensures RunFrom(a, c).info.nOperations >= c.info.nOperations
    decreases |a.mem| - c.j + |a.filter| - c.fi
  {
    match StepOf(a, c)
    case None =>
    case Some(n) => RunCounts(a, n);
  }

  /** One turn with and without a target: the turn with a target goes on only
      where the one without does, to the same place, and it stops where the
      other goes on only when the operation would pass the capacity. */
  lemma StepAgain(a: Args, b: Args, ca: Cursor, cb: Cursor)
    requires ArgsValid(a) && !a.collect && b == a.(collect := true)
    requires ca.j <= |a.mem| && ca.fi <= |a.filter| && SameRead(ca, cb)
    ensures StepOf(b, cb).Some? ==> StepOf(a, ca).Some? && SameRead(StepOf(a, ca).value, StepOf(b, cb).value)
    ensures StepOf(b, cb).None? && StepOf(a, ca).Some? ==> StepOf(a, ca).value.info.nOperations > b.maxPoints
  {
  }

  /** A read that builds rows into a target of capacity maxPoints ends where
      the same read without a target ends, with the same statistics, as long
      as the read without a target counts no more than maxPoints operations:
      the capacity is then never what stops it. */
  lemma {:induction false} ReadAgain(a: Args, b: Args, ca: Cursor, cb: Cursor)
    requires ArgsValid(a) && !a.collect && b == a.(collect := true)
    requires ca.j <= |a.mem| && ca.fi <= |a.filter| && SameRead(ca, cb)
    requires RunFrom(a, ca).info.nOperations <= b.maxPoints
    ensures SameRead(RunFrom(a, ca), RunFrom(b, cb))
    decreases |a.mem| - ca.j + |a.filter| - ca.fi
  {
    StepAgain(a, b, ca, cb);
    var sa, sb := StepOf(a, ca), StepOf(b, cb);
    if sb.Some? {
      ReadAgain(a, b, sa.value, sb.value);
    } else if sa.Some? {
      RunCounts(a, sa.value);
      assert false;
    }
  }

  /** Where every read starts. */
  function StartCursor(): Cursor
  {
    Cursor(0, 0, MergeInfo(0, 0, 0, 0, 0, KeyMax, KeyMin), KeyMin, KeyMin, [])
  }

  /** A turn of the read loop that goes on: the invariant holds at the new
      cursor, which has consumed a memory row or read a disk key more. */
  ghost predicate Advanced(a: Args, j: nat, fi: nat,
                           j2: nat, fi2: nat, info2: MergeInfo, lastKey2: int, discardKey2: int, target2: seq<Built>)
  {
    Reading(a, Cursor(j2, fi2, info2, lastKey2, discardKey2, target2))
    && j2 <= |a.mem| && fi2 <= |a.filter| && j <= j2 && fi <= fi2 && j + fi < j2 + fi2
  }

  /** One turn of the read loop: stop where the read stands, or consume the
      next disk key or memory row. A side that is exhausted, or a memory row
      above maxKey, counts as the largest key. */
  method ReadStep(a: Args, j: nat, fi: nat, info: MergeInfo, lastKey: int, discardKey: int, target: seq<Built>)
    returns (stop: bool, j2: nat, fi2: nat, info2: MergeInfo, lastKey2: int, discardKey2: int, target2: seq<Built>)
    requires ArgsValid(a) && Reading(a, Cursor(j, fi, info, lastKey, discardKey, target))
    requires j <= |a.mem| && fi <= |a.filter|
    ensures stop ==> Stopped(a, Cursor(j, fi, info, lastKey, discardKey, target))
    ensures !stop ==> Advanced(a, j, fi, j2, fi2, info2, lastKey2, discardKey2, target2) == true
    ensures StepOf(a, Cursor(j, fi, info, lastKey, discardKey, target))
            == if stop then None else Some(Cursor(j2, fi2, info2, lastKey2, discardKey2, target2))
  {
    stop, j2, fi2, info2, lastKey2, discardKey2, target2 := false, j, fi, info, lastKey, discardKey, target;
    var rowKey := if j < |a.mem| && a.mem[j].key <= a.maxKey then a.mem[j].key else KeyMax;
    var fKey := if fi < |a.filter| then a.filter[fi] else KeyMax;
    if fKey == KeyMax && rowKey == KeyMax {
      StopDrained(a, Cursor(j, fi, info, lastKey, discardKey, target));
      stop := true;
    } else if fKey < rowKey {
      SkipKeyNext(a, j, fi, info, lastKey, discardKey, target);
      fi2, info2 := fi + 1, WithKey(info, a.filter[fi]);
    } else if fKey > rowKey {
      stop, j2, fi2, info2, lastKey2, discardKey2, target2 := ReadBelowKey(a, j, fi, info, lastKey, discardKey, target);
    } else {
      stop, j2, fi2, info2, lastKey2, discardKey2, target2 := ReadAtKey(a, j, fi, info, lastKey, discardKey, target);
    }
  }

  /** A memory row below the next disk key: a failed delete, an insert, or a
      duplicate of the key just built or discarded. */
  method ReadBelowKey(a: Args, j: nat, fi: nat, info: MergeInfo, lastKey: int, discardKey: int, target: seq<Built>)
    returns (stop: bool, j2: nat, fi2: nat, info2: MergeInfo, lastKey2: int, discardKey2: int, target2: seq<Built>)
    requires ArgsValid(a) && Reading(a, Cursor(j, fi, info, lastKey, discardKey, target))
    requires j < |a.mem| && a.mem[j].key <= a.maxKey && fi <= |a.filter|
    requires fi == |a.filter| || a.filter[fi] > a.mem[j].key
    ensures stop ==> Stopped(a, Cursor(j, fi, info, lastKey, discardKey, target))
    ensures !stop ==> Advanced(a, j, fi, j2, fi2, info2, lastKey2, discardKey2, target2) == true
    ensures StepOf(a, Cursor(j, fi, info, lastKey, discardKey, target))
            == if stop then None else Some(Cursor(j2, fi2, info2, lastKey2, discardKey2, target2))
  {
    stop, j2, fi2, info2, lastKey2, discardKey2, target2 := false, j, fi, info, lastKey, discardKey, target;
    var rowKey := a.mem[j].key;
    if a.mem[j].deleted {
      FailDeleteNext(a, j, fi, info, lastKey, discardKey, target);
      j2, info2 := j + 1, DeleteFailed(info);
    } else if lastKey != rowKey && discardKey != rowKey {
      if info.rowsInserted - info.rowsDeleteSucceed >= a.maxRowsToRead || (a.collect && info.nOperations >= a.maxPoints) {
        StopInsert(a, Cursor(j, fi, info, lastKey, discardKey, target));
        stop := true;
      } else {
        InsertNext(a, j, fi, info, lastKey, discardKey, target);
        j2 := j + 1;
        info2 := Inserted(info, rowKey);
        lastKey2 := rowKey;
        target2 := Emit(a.collect, target, a.mem[j]);
      }
    } else {
      RepeatNext(a, j, fi, info, lastKey, discardKey, target);
      j2 := j + 1;
      target2 := if a.keepDup && a.collect then MergeLast(target, a.mem[j]) else target;
    }
  }

  /** A memory row of the next disk key: a delete, an update, or, when
      duplicates do not update, a row discarded in favour of the disk row. */
  method ReadAtKey(a: Args, j: nat, fi: nat, info: MergeInfo, lastKey: int, discardKey: int, target: seq<Built>)
    returns (stop: bool, j2: nat, fi2: nat, info2: MergeInfo, lastKey2: int, discardKey2: int, target2: seq<Built>)
    requires ArgsValid(a) && Reading(a, Cursor(j, fi, info, lastKey, discardKey, target))
    requires j < |a.mem| && a.mem[j].key <= a.maxKey
    requires fi < |a.filter| && a.filter[fi] == a.mem[j].key
    ensures stop ==> Stopped(a, Cursor(j, fi, info, lastKey, discardKey, target))
    ensures !stop ==> Advanced(a, j, fi, j2, fi2, info2, lastKey2, discardKey2, target2) == true
    ensures StepOf(a, Cursor(j, fi, info, lastKey, discardKey, target))
            == if stop then None else Some(Cursor(j2, fi2, info2, lastKey2, discardKey2, target2))
  {
    stop, j2, fi2, info2, lastKey2, discardKey2, target2 := false, j, fi, info, lastKey, discardKey, target;
    var rowKey := a.mem[j].key;
    if a.mem[j].deleted {
      if a.collect && info.nOperations >= a.maxPoints {
        StopMatched(a, Cursor(j, fi, info, lastKey, discardKey, target));
        stop := true;
      } else {
        DeleteNext(a, j, fi, info, lastKey, discardKey, target);
        j2, fi2 := j + 1, fi + 1;
        info2 := DeleteSucceeded(info);
      }
    } else if a.keepDup {
      if a.collect && info.nOperations >= a.maxPoints {
        StopMatched(a, Cursor(j, fi, info, lastKey, discardKey, target));
        stop := true;
      } else {
        UpdateNext(a, j, fi, info, lastKey, discardKey, target);
        j2, fi2 := j + 1, fi + 1;
        info2 := Updated(info, rowKey);
        lastKey2 := rowKey;
        target2 := Emit(a.collect, target, a.mem[j]);
      }
    } else {
      DiscardNext(a, j, fi, info, lastKey, discardKey, target);
      j2, fi2, info2, discardKey2 := j + 1, fi + 1, WithKey(info, rowKey), rowKey;
    }
  }

  /** The read loop: turns of ReadStep from the start until one stops. */
  method ReadAll(a: Args) returns (j: nat, fi: nat, info: MergeInfo, lastKey: int, discardKey: int, target: seq<Built>)
    requires ArgsValid(a)
    ensures Reading(a, Cursor(j, fi, info, lastKey, discardKey, target))
    ensures Stopped(a, Cursor(j, fi, info, lastKey, discardKey, target))
    ensures Cursor(j, fi, info, lastKey, discardKey, target) == RunFrom(a, StartCursor())
  {
    j, fi, info, lastKey, discardKey, target := 0, 0, MergeInfo(0, 0, 0, 0, 0, KeyMax, KeyMin), KeyMin, KeyMin, [];
    StartInv(a);
    while true
      invariant Reading(a, Cursor(j, fi, info, lastKey, discardKey, target))
      invariant j <= |a.mem| && fi <= |a.filter|
      invariant RunFrom(a, Cursor(j, fi, info, lastKey, discardKey, target)) == RunFrom(a, StartCursor())
      decreases |a.mem| - j + |a.filter| - fi
    {
      var stop, j2, fi2, info2, lastKey2, discardKey2, target2 := ReadStep(a, j, fi, info, lastKey, discardKey, target);
      if stop {
        break;
      }
      j, fi, info, lastKey, discardKey, target := j2, fi2, info2, lastKey2, discardKey2, target2;
    }
  }

  /** Reads the memory rows at or below maxKey against the disk keys filter,
      both in key order, and returns the statistics of merging them, how many
      memory rows were consumed and, when collect is set, the rows built.
      The counts, the key range and the rows built are those the per-key
      classification gives for the rows consumed and the disk keys read. The
      read goes on until both inputs are exhausted, and stops early only
      before a row that would count as an operation past the row limit
      maxRowsToRead or, with a target, its capacity maxPoints; it never stops
      between two live rows of one key. */
  method LoadDataFromCache(mem: seq<Row>, maxKey: int, maxRowsToRead: int, collect: bool, maxPoints: int,
                           filter: seq<int>, keepDup: bool)
    returns (info: MergeInfo, consumed: nat, target: seq<Built>, ghost read: nat)
    requires ArgsValid(Args(mem, maxKey, maxRowsToRead, collect, maxPoints, filter, keepDup))
    ensures consumed <= Window(mem, maxKey) && read <= |filter|
    ensures Counted(mem[..consumed], filter, keepDup, info)
    ensures Spans(info.keyFirst, info.keyLast, Touched(mem[..consumed], filter, ReadKeys(filter, read)))
    ensures collect ==> BuiltFrom(target, mem[..consumed], filter, keepDup)
    ensures !collect ==> target == []
    ensures info.rowsInserted - info.rowsDeleteSucceed <= maxRowsToRead
    ensures collect ==> info.nOperations <= maxPoints || info.nOperations == 0
    ensures consumed < Window(mem, maxKey) ==> forall b | b in target :: b.key < mem[consumed].key
    ensures (consumed == Window(mem, maxKey) && read == |filter|)
            || info.rowsInserted - info.rowsDeleteSucceed >= maxRowsToRead
            || (collect && info.nOperations >= maxPoints)
    ensures consumed == Window(mem, maxKey) ==> read == |filter|
    ensures consumed < Window(mem, maxKey) ==> Ops(mem[..consumed + 1], filter, keepDup) == info.nOperations + 1
    ensures consumed < Window(mem, maxKey) ==> forall k | k in LiveKeys(mem[..consumed]) :: k < mem[consumed].key
    ensures var r := RunFrom(Args(mem, maxKey, maxRowsToRead, collect, maxPoints, filter, keepDup), StartCursor());
            info == r.info && consumed == r.j && read == r.fi && target == r.target
  {
    var lastKey, discardKey;
    consumed, read, info, lastKey, discardKey, target := ReadAll(Args(mem, maxKey, maxRowsToRead, collect, maxPoints, filter, keepDup));
    Finish(mem, maxKey, maxRowsToRead, collect, maxPoints, filter, keepDup, consumed, read, info, lastKey, discardKey, target);
  }
}
