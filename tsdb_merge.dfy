// Merging the rows of a block already on disk with the memory rows of its
// table into new blocks: the two sorted streams are interleaved in key order,
// a disk row before memory rows of the same key, and folded into rows to
// write, one per key. A memory row repeating the key of the row being built is
// merged into it when the storage updates rows and dropped otherwise.

module TsdbMerge {
  import opened TsdbRules

  /** Rows of a disk block: keys strictly increasing. */
  predicate DiskSorted(d: seq<Row>)
  {
    forall i, j | 0 <= i < j < |d| :: d[i].key < d[j].key
  }

  /** Every key of a lies below every key of b. */
  predicate Before(a: seq<Row>, b: seq<Row>)
  {
    forall i, j | 0 <= i < |a| && 0 <= j < |b| :: a[i].key < b[j].key
  }

  function KeySet(s: seq<Row>): set<int>
  {
    set q | 0 <= q < |s| :: s[q].key
  }

  /** The rows of key k in s, in order. */
  function KeyRows(s: seq<Row>, k: int): seq<Row>
  {
    if |s| == 0 then []
    else KeyRows(s[..|s| - 1], k) + (if s[|s| - 1].key == k then [s[|s| - 1]] else [])
  }

  /** Disk rows d and memory rows s in key order, a disk row ahead of the
      memory rows of its key. */
  function Interleave(d: seq<Row>, s: seq<Row>): seq<Row>
    decreases |d| + |s|
  {
    if |d| == 0 then s
    else if |s| == 0 then d
    else if d[|d| - 1].key > s[|s| - 1].key then Interleave(d[..|d| - 1], s) + [d[|d| - 1]]
    else Interleave(d, s[..|s| - 1]) + [s[|s| - 1]]
  }

  /** One more row for the rows being built: a new key starts a row, the key
      of the last row is merged into it with update and dropped without. */
  function Add(t: seq<Built>, r: Row, update: bool): seq<Built>
  {
    if |t| > 0 && t[|t| - 1].key == r.key then (if update then MergeLast(t, r) else t)
    else t + [Built(r.key, [r])]
  }

  /** The rows built from a stream of rows in key order. */
  function Fold(rows: seq<Row>, update: bool): seq<Built>
  {
    if |rows| == 0 then [] else Add(Fold(rows[..|rows| - 1], update), rows[|rows| - 1], update)
  }

  /** What a built row holds: all rows of its key with update, the first without. */
  function Chosen(rows: seq<Row>, update: bool): seq<Row>
  {
    if update || |rows| == 0 then rows else rows[..1]
  }

  // ---------------------------------------------------------------------
  // The interleaving

  lemma DiskSortedRows(d: seq<Row>)
    requires DiskSorted(d)
    ensures SortedRows(d)
  {
  }

  lemma Regroup(a: seq<Row>, b: seq<Row>, c: seq<Row>)
    ensures (a + b) + c == a + (b + c)
  {
  }

  /** Appending a disk row above the last memory row appends it to the interleaving. */
  lemma InterleaveDisk(d: seq<Row>, x: Row, s: seq<Row>)
    requires |s| == 0 || s[|s| - 1].key < x.key
    ensures Interleave(d + [x], s) == Interleave(d, s) + [x]
  {
    assert (d + [x])[..|d|] == d;
  }

  /** Appending a memory row not below the last disk row appends it to the interleaving. */
  lemma InterleaveMem(d: seq<Row>, s: seq<Row>, y: Row)
    requires |d| == 0 || d[|d| - 1].key <= y.key
    ensures Interleave(d, s + [y]) == Interleave(d, s) + [y]
  {
    assert (s + [y])[..|s|] == s;
  }

  /** The interleaving holds the keys of both inputs. */
  lemma {:induction false} InterleaveKeySet(d: seq<Row>, s: seq<Row>)
    ensures KeySet(Interleave(d, s)) == KeySet(d) + KeySet(s)
    decreases |d| + |s|
  {
    if |d| == 0 || |s| == 0 {
    } else if d[|d| - 1].key > s[|s| - 1].key {
      var d', x := d[..|d| - 1], d[|d| - 1];
      assert d == d' + [x];
      InterleaveKeySet(d', s);
      KeySetSnoc(Interleave(d', s), x);
      KeySetSnoc(d', x);
    } else {
      var s', y := s[..|s| - 1], s[|s| - 1];
      assert s == s' + [y];
      InterleaveKeySet(d, s');
      KeySetSnoc(Interleave(d, s'), y);
      KeySetSnoc(s', y);
    }
  }

  /** The rows of a key in the interleaving are the disk rows of the key
      followed by its memory rows. */
  lemma {:induction false} InterleaveKeyRows(d: seq<Row>, s: seq<Row>, k: int)
    requires SortedRows(s)
    ensures KeyRows(Interleave(d, s), k) == KeyRows(d, k) + KeyRows(s, k)
    decreases |d| + |s|
  {
    if |d| == 0 || |s| == 0 {
    } else if d[|d| - 1].key > s[|s| - 1].key {
      var d', x := d[..|d| - 1], d[|d| - 1];
      assert d == d' + [x];
      var m := Interleave(d', s);
      assert Interleave(d, s) == m + [x];
      InterleaveKeyRows(d', s, k);
      if x.key == k {
        KeyRowsAbove(s, k);
      }
      KeyRowsDiskStep(m, d', s, x, k);
    } else {
      var s', y := s[..|s| - 1], s[|s| - 1];
      assert s == s' + [y];
      var m := Interleave(d, s');
      assert Interleave(d, s) == m + [y];
      InterleaveKeyRows(d, s', k);
      KeyRowsMemStep(m, d, s', y, k);
    }
  }

  lemma KeyRowsDiskStep(m: seq<Row>, d: seq<Row>, s: seq<Row>, x: Row, k: int)
    requires KeyRows(m, k) == KeyRows(d, k) + KeyRows(s, k)
    requires x.key == k ==> KeyRows(s, k) == []
    ensures KeyRows(m + [x], k) == KeyRows(d + [x], k) + KeyRows(s, k)
  {
    KeyRowsSnoc(m, x, k);
    KeyRowsSnoc(d, x, k);
    var a, b, c := KeyRows(d, k), KeyRows(s, k), if x.key == k then [x] else [];
    assert (a + b) + c == (a + c) + b;
  }

  lemma KeyRowsMemStep(m: seq<Row>, d: seq<Row>, s: seq<Row>, y: Row, k: int)
    requires KeyRows(m, k) == KeyRows(d, k) + KeyRows(s, k)
    ensures KeyRows(m + [y], k) == KeyRows(d, k) + KeyRows(s + [y], k)
  {
    KeyRowsSnoc(m, y, k);
    KeyRowsSnoc(s, y, k);
    Regroup(KeyRows(d, k), KeyRows(s, k), if y.key == k then [y] else []);
  }

  lemma KeyRowsSnoc(s: seq<Row>, r: Row, k: int)
    ensures KeyRows(s + [r], k) == KeyRows(s, k) + (if r.key == k then [r] else [])
  {
    assert (s + [r])[..|s|] == s;
  }

  /** Every key of s is at most k. */
  lemma KeysAtMost(s: seq<Row>, k: int)
    requires forall x | x in KeySet(s) :: x <= k
    ensures forall q | 0 <= q < |s| :: s[q].key <= k
  {
    forall q | 0 <= q < |s| ensures s[q].key <= k {
      assert s[q].key in KeySet(s);
    }
  }

  /** The interleaving of two sorted inputs is sorted. */
  lemma {:induction false} InterleaveSorted(d: seq<Row>, s: seq<Row>)
    requires SortedRows(d) && SortedRows(s)
    ensures SortedRows(Interleave(d, s))
    decreases |d| + |s|
  {
    if |d| == 0 || |s| == 0 {
    } else if d[|d| - 1].key > s[|s| - 1].key {
      var d', x := d[..|d| - 1], d[|d| - 1];
      InterleaveSorted(d', s);
      InterleaveKeySet(d', s);
      KeysAtMost(Interleave(d', s), x.key);
      SortedSnoc(Interleave(d', s), x);
    } else {
      var s', y := s[..|s| - 1], s[|s| - 1];
      InterleaveSorted(d, s');
      InterleaveKeySet(d, s');
      KeysAtMost(Interleave(d, s'), y.key);
      SortedSnoc(Interleave(d, s'), y);
    }
  }

  lemma SortedSnoc(s: seq<Row>, r: Row)
    requires SortedRows(s) && forall q | 0 <= q < |s| :: s[q].key <= r.key
    ensures SortedRows(s + [r])
  {
  }

  lemma SortedInit(s: seq<Row>, r: Row)
    requires SortedRows(s + [r])
    ensures SortedRows(s)
  {
    forall i, j | 0 <= i <= j < |s| ensures s[i].key <= s[j].key {
      assert (s + [r])[i] == s[i] && (s + [r])[j] == s[j];
    }
  }

  lemma KeySetSnoc(s: seq<Row>, r: Row)
    ensures KeySet(s + [r]) == KeySet(s) + {r.key}
  {
    assert (s + [r])[|s|] == r;
    forall k | k in KeySet(s) ensures k in KeySet(s + [r]) {
      var q :| 0 <= q < |s| && s[q].key == k;
      assert (s + [r])[q] == s[q];
    }
  }

  /** A sorted sequence has no row of a key above its last. */
  lemma {:induction false} KeyRowsAbove(s: seq<Row>, k: int)
    requires SortedRows(s) && (|s| == 0 || s[|s| - 1].key < k)
    ensures KeyRows(s, k) == []
  {
    if |s| > 0 {
      KeyRowsAbove(s[..|s| - 1], k);
    }
  }

  /** A key of s has a row in s. */
  lemma {:induction false} KeyRowsPresent(s: seq<Row>, k: int)
    requires k in KeySet(s)
    ensures |KeyRows(s, k)| > 0
  {
    if s[|s| - 1].key != k {
      var q :| 0 <= q < |s| && s[q].key == k;
      assert s[..|s| - 1][q].key == k;
      KeyRowsPresent(s[..|s| - 1], k);
    }
  }

  /** A disk block holds at most one row of a key. */
  lemma {:induction false} DiskKeyOnce(d: seq<Row>, k: int)
    requires DiskSorted(d)
    ensures |KeyRows(d, k)| <= 1
  {
    if |d| > 0 {
      DiskKeyOnce(d[..|d| - 1], k);
      if d[|d| - 1].key == k {
        KeyRowsAbove(d[..|d| - 1], k);
      }
    }
  }

  // ---------------------------------------------------------------------
  // Folding rows into built rows

  lemma FoldSnoc(rows: seq<Row>, r: Row, update: bool)
    ensures Fold(rows + [r], update) == Add(Fold(rows, update), r, update)
  {
    assert (rows + [r])[..|rows|] == rows;
  }

  /** The last row built has the key of the last row folded. */
  lemma FoldLast(rows: seq<Row>, update: bool)
    requires |rows| > 0
    ensures |Fold(rows, update)| > 0
    ensures Fold(rows, update)[|Fold(rows, update)| - 1].key == rows[|rows| - 1].key
  {
    var t := Fold(rows[..|rows| - 1], update);
    if |t| > 0 && t[|t| - 1].key == rows[|rows| - 1].key && update {
      MergeLastKeeps(t, rows[|rows| - 1]);
    }
  }

  /** Adding a row not below the last row built keeps the keys increasing. */
  lemma AddIncreasing(t: seq<Built>, x: Row, update: bool)
    requires IncreasingBuilt(t) && (|t| > 0 ==> t[|t| - 1].key <= x.key)
    ensures IncreasingBuilt(Add(t, x, update))
  {
    if |t| > 0 && t[|t| - 1].key == x.key {
      if update {
        MergeLastKeeps(t, x);
      }
    } else {
      var t2 := t + [Built(x.key, [x])];
      forall i, j | 0 <= i < j < |t2| ensures t2[i].key < t2[j].key {
        if j == |t| {
          assert t[i].key <= t[|t| - 1].key;
        }
      }
    }
  }

  /** Adding a row adds its key to the keys built. */
  lemma AddKeys(t: seq<Built>, x: Row, update: bool)
    ensures BuiltKeys(Add(t, x, update)) == BuiltKeys(t) + {x.key}
  {
    if |t| > 0 && t[|t| - 1].key == x.key {
      assert t[|t| - 1] in t;
      if update {
        MergeLastKeeps(t, x);
      }
    } else {
      var t2 := t + [Built(x.key, [x])];
      assert t2[|t|] in t2;
      forall k | k in BuiltKeys(t) ensures k in BuiltKeys(t2) {
        var b :| b in t && b.key == k;
        assert b in t2;
      }
    }
  }

  /** Folding rows in key order builds rows in increasing key order. */
  lemma {:induction false} FoldIncreasing(rows: seq<Row>, update: bool)
    requires SortedRows(rows)
    ensures IncreasingBuilt(Fold(rows, update))
  {
    if |rows| > 0 {
      var r', x := rows[..|rows| - 1], rows[|rows| - 1];
      FoldIncreasing(r', update);
      if |r'| > 0 {
        FoldLast(r', update);
      }
      AddIncreasing(Fold(r', update), x, update);
    }
  }

  /** Folding builds one row for each key of the rows folded. */
  lemma {:induction false} FoldKeySet(rows: seq<Row>, update: bool)
    ensures BuiltKeys(Fold(rows, update)) == KeySet(rows)
  {
    if |rows| > 0 {
      var r', x := rows[..|rows| - 1], rows[|rows| - 1];
      assert rows == r' + [x];
      FoldKeySet(r', update);
      AddKeys(Fold(r', update), x, update);
      KeySetSnoc(r', x);
    }
  }

  /** A built row of another key is not affected by one more row. */
  lemma VersionOther(b: Built, r: seq<Row>, x: Row, update: bool)
    requires b.versions == Chosen(KeyRows(r, b.key), update) && b.key != x.key
    ensures b.versions == Chosen(KeyRows(r + [x], b.key), update)
  {
    KeyRowsSnoc(r, x, b.key);
  }

  /** Merging one more row of a key into its built row, or dropping it, follows Chosen. */
  lemma VersionMerged(v: seq<Row>, rows: seq<Row>, x: Row, update: bool)
    requires |rows| > 0 && v == Chosen(rows, update)
    ensures (if update then v + [x] else v) == Chosen(rows + [x], update)
  {
    if !update {
      assert (rows + [x])[..1] == rows[..1];
    }
  }

  /** One more row of the key of the last built row keeps each built row
      holding what Chosen says. */
  lemma AddVersionsSame(t: seq<Built>, r: seq<Row>, x: Row, update: bool)
    requires |t| > 0 && t[|t| - 1].key == x.key
    requires IncreasingBuilt(t) && BuiltKeys(t) == KeySet(r)
    requires forall n | 0 <= n < |t| :: t[n].versions == Chosen(KeyRows(r, t[n].key), update)
    ensures var t2 := Add(t, x, update);
      forall n | 0 <= n < |t2| :: t2[n].versions == Chosen(KeyRows(r + [x], t2[n].key), update)
  {
    var t2 := Add(t, x, update);
    var last := |t| - 1;
    assert t[last] in t;
    KeyRowsPresent(r, x.key);
    KeyRowsSnoc(r, x, x.key);
    VersionMerged(t[last].versions, KeyRows(r, x.key), x, update);
    if update {
      MergeLastKeeps(t, x);
    }
    forall n | 0 <= n < last ensures t2[n].versions == Chosen(KeyRows(r + [x], t2[n].key), update) {
      VersionOther(t[n], r, x, update);
    }
  }

  /** The rows of a key above every earlier row are the one row of that key. */
  lemma KeyRowsNew(r: seq<Row>, x: Row)
    requires SortedRows(r + [x])
    requires |r| > 0 ==> r[|r| - 1].key < x.key
    ensures KeyRows(r + [x], x.key) == [x]
  {
    if |r| > 0 {
      assert (r + [x])[|r| - 1] == r[|r| - 1] && (r + [x])[|r|] == x;
    }
    SortedInit(r, x);
    KeyRowsAbove(r, x.key);
    KeyRowsSnoc(r, x, x.key);
  }

  /** One more row of a key above every built row keeps each built row
      holding what Chosen says. */
  lemma AddVersionsNew(t: seq<Built>, r: seq<Row>, x: Row, update: bool)
    requires forall n | 0 <= n < |t| :: t[n].key < x.key
    requires KeyRows(r + [x], x.key) == [x]
    requires forall n | 0 <= n < |t| :: t[n].versions == Chosen(KeyRows(r, t[n].key), update)
    ensures var t2 := t + [Built(x.key, [x])];
      forall n | 0 <= n < |t2| :: t2[n].versions == Chosen(KeyRows(r + [x], t2[n].key), update)
  {
    var t2 := t + [Built(x.key, [x])];
    forall n | 0 <= n < |t2| ensures t2[n].versions == Chosen(KeyRows(r + [x], t2[n].key), update) {
      if n < |t| {
        assert t2[n] == t[n];
        VersionOther(t[n], r, x, update);
      }
    }
  }

  /** Every row built in key order is below a key above its last. */
  lemma BuiltBelow(t: seq<Built>, k: int)
    requires IncreasingBuilt(t) && (|t| == 0 || t[|t| - 1].key < k)
    ensures forall n | 0 <= n < |t| :: t[n].key < k
  {
    forall n | 0 <= n < |t| ensures t[n].key < k {
      if n < |t| - 1 {
        assert t[n].key < t[|t| - 1].key;
      }
    }
  }

  /** A row in key order whose key is not that of the last built row lies
      above the last row folded and above every built row. */
  lemma NewKeyAbove(t: seq<Built>, r: seq<Row>, x: Row)
    requires SortedRows(r + [x]) && BuiltKeys(t) == KeySet(r)
    requires |r| > 0 ==> |t| > 0 && t[|t| - 1].key == r[|r| - 1].key
    requires !(|t| > 0 && t[|t| - 1].key == x.key)
    ensures |r| > 0 ==> r[|r| - 1].key < x.key
    ensures |t| == 0 || t[|t| - 1].key < x.key
  {
    if |t| > 0 {
      assert t[0] in t;
      assert t[0].key in KeySet(r);
      var q :| 0 <= q < |r| && r[q].key == t[0].key;
    }
    if |r| > 0 {
      assert (r + [x])[|r| - 1] == r[|r| - 1] && (r + [x])[|r|] == x;
    }
  }

  /** One more row in key order keeps each built row holding what Chosen says. */
  lemma AddVersions(t: seq<Built>, r: seq<Row>, x: Row, update: bool)
    requires SortedRows(r + [x])
    requires IncreasingBuilt(t) && BuiltKeys(t) == KeySet(r)
    requires |r| > 0 ==> |t| > 0 && t[|t| - 1].key == r[|r| - 1].key
    requires forall n | 0 <= n < |t| :: t[n].versions == Chosen(KeyRows(r, t[n].key), update)
    ensures var t2 := Add(t, x, update);
      forall n | 0 <= n < |t2| :: t2[n].versions == Chosen(KeyRows(r + [x], t2[n].key), update)
  {
    if |t| > 0 && t[|t| - 1].key == x.key {
      AddVersionsSame(t, r, x, update);
    } else {
      NewKeyAbove(t, r, x);
      KeyRowsNew(r, x);
      BuiltBelow(t, x.key);
      AddVersionsNew(t, r, x, update);
    }
  }

  /** Each row built from rows in key order holds what Chosen says of the rows of its key. */
  lemma {:induction false} FoldVersions(rows: seq<Row>, update: bool)
    requires SortedRows(rows)
    ensures var t := Fold(rows, update);
      forall n | 0 <= n < |t| :: t[n].versions == Chosen(KeyRows(rows, t[n].key), update)
  {
    if |rows| > 0 {
      var r', x := rows[..|rows| - 1], rows[|rows| - 1];
      assert rows == r' + [x];
      SortedInit(r', x);
      FoldVersions(r', update);
      FoldIncreasing(r', update);
      FoldKeySet(r', update);
      if |r'| > 0 {
        FoldLast(r', update);
      }
      AddVersions(Fold(r', update), r', x, update);
    }
  }

  /** The rows built from a disk block and memory rows: one per key of either,
      in increasing key order, each holding the disk row of its key followed by
      the memory rows of the key when the storage updates rows, and only the
      first of these otherwise. A disk key thus keeps its disk row, and memory
      rows are merged over it only with update. */
  lemma MergedRows(d: seq<Row>, s: seq<Row>, update: bool)
    requires DiskSorted(d) && SortedRows(s)
    ensures var t := Fold(Interleave(d, s), update);
      IncreasingBuilt(t)
      && BuiltKeys(t) == KeySet(d) + KeySet(s)
      && (forall n | 0 <= n < |t| :: t[n].versions == Chosen(KeyRows(d, t[n].key) + KeyRows(s, t[n].key), update))
      && (forall k :: |KeyRows(d, k)| <= 1)
  {
    DiskSortedRows(d);
    var m := Interleave(d, s);
    InterleaveSorted(d, s);
    InterleaveKeySet(d, s);
    FoldIncreasing(m, update);
    FoldKeySet(m, update);
    FoldVersions(m, update);
    var t := Fold(m, update);
    forall n | 0 <= n < |t|
      ensures t[n].versions == Chosen(KeyRows(d, t[n].key) + KeyRows(s, t[n].key), update)
    {
      InterleaveKeyRows(d, s, t[n].key);
    }
    forall k ensures |KeyRows(d, k)| <= 1 {
      DiskKeyOnce(d, k);
    }
  }

  // ---------------------------------------------------------------------
  // Splitting a merge into blocks

  /** Adding a row after rows built from lower keys adds it to the later part. */
  lemma AddAppend(x: seq<Built>, t: seq<Built>, y: Row, update: bool)
    requires |t| == 0 ==> |x| == 0 || x[|x| - 1].key < y.key
    ensures Add(x + t, y, update) == x + Add(t, y, update)
  {
    if |t| > 0 {
      assert (x + t)[|x + t| - 1] == t[|t| - 1];
      assert (x + t)[..|x + t| - 1] == x + t[..|t| - 1];
    } else {
      assert x + t == x;
    }
  }

  /** Folding rows that all lie below the rest folds the two parts apart. */
  lemma {:induction false} FoldSplit(a: seq<Row>, b: seq<Row>, update: bool)
    requires Before(a, b)
    ensures Fold(a + b, update) == Fold(a, update) + Fold(b, update)
  {
    if |b| == 0 {
      assert a + b == a;
    } else {
      var b', y := b[..|b| - 1], b[|b| - 1];
      assert b == b' + [y];
      assert a + b == (a + b') + [y];
      FoldSplit(a, b', update);
      FoldSnoc(a + b', y, update);
      FoldSnoc(b', y, update);
      if |b'| == 0 && |a| > 0 {
        FoldLast(a, update);
      } else if |b'| > 0 {
        FoldLast(b', update);
      }
      AddAppend(Fold(a, update), Fold(b', update), y, update);
    }
  }

  /** The last disk row, above the last memory row, extends both sides of a split. */
  lemma SplitDiskStep(d1: seq<Row>, d2: seq<Row>, x: Row, s1: seq<Row>, s2: seq<Row>)
    requires Interleave(d1 + d2, s1 + s2) == Interleave(d1, s1) + Interleave(d2, s2)
    requires |s1 + s2| == 0 || (s1 + s2)[|s1 + s2| - 1].key < x.key
    requires |s2| == 0 || s2[|s2| - 1].key < x.key
    ensures Interleave(d1 + (d2 + [x]), s1 + s2) == Interleave(d1, s1) + Interleave(d2 + [x], s2)
  {
    Regroup(d1, d2, [x]);
    InterleaveDisk(d1 + d2, x, s1 + s2);
    InterleaveDisk(d2, x, s2);
    Regroup(Interleave(d1, s1), Interleave(d2, s2), [x]);
  }

  /** The last memory row, not below the last disk row, extends both sides of a split. */
  lemma SplitMemStep(d1: seq<Row>, d2: seq<Row>, s1: seq<Row>, s2: seq<Row>, y: Row)
    requires Interleave(d1 + d2, s1 + s2) == Interleave(d1, s1) + Interleave(d2, s2)
    requires |d1 + d2| == 0 || (d1 + d2)[|d1 + d2| - 1].key <= y.key
    requires |d2| == 0 || d2[|d2| - 1].key <= y.key
    ensures Interleave(d1 + d2, s1 + (s2 + [y])) == Interleave(d1, s1) + Interleave(d2, s2 + [y])
  {
    Regroup(s1, s2, [y]);
    InterleaveMem(d1 + d2, s1 + s2, y);
    InterleaveMem(d2, s2, y);
    Regroup(Interleave(d1, s1), Interleave(d2, s2), [y]);
  }

  /** Interleaving inputs split at a key, everything of the first parts below
      everything of the second, interleaves the two parts apart. */
  lemma {:induction false} InterleaveSplit(d1: seq<Row>, d2: seq<Row>, s1: seq<Row>, s2: seq<Row>)
    requires Before(d1, d2) && Before(d1, s2) && Before(s1, d2) && Before(s1, s2)
    ensures Interleave(d1 + d2, s1 + s2) == Interleave(d1, s1) + Interleave(d2, s2)
    decreases |d2| + |s2|
  {
    if |d2| == 0 && |s2| == 0 {
      assert d1 + d2 == d1 && s1 + s2 == s1;
    } else if |d2| > 0 && (|s2| == 0 || d2[|d2| - 1].key > s2[|s2| - 1].key) {
      var d2', x := d2[..|d2| - 1], d2[|d2| - 1];
      assert d2 == d2' + [x];
      InterleaveSplit(d1, d2', s1, s2);
      if |s2| == 0 {
        assert s1 + s2 == s1;
      }
      SplitDiskStep(d1, d2', x, s1, s2);
    } else {
      var s2', y := s2[..|s2| - 1], s2[|s2| - 1];
      assert s2 == s2' + [y];
      InterleaveSplit(d1, d2, s1, s2');
      if |d2| == 0 {
        assert d1 + d2 == d1;
      }
      SplitMemStep(d1, d2, s1, s2', y);
    }
  }

  /** Merging two key ranges one after the other builds the rows of merging
      them at once: blocks cut where everything before lies below everything
      after hold, together, the rows of one merge. */
  lemma BlocksConcatenate(d1: seq<Row>, d2: seq<Row>, s1: seq<Row>, s2: seq<Row>, update: bool)
    requires Before(d1, d2) && Before(d1, s2) && Before(s1, d2) && Before(s1, s2)
    ensures Fold(Interleave(d1 + d2, s1 + s2), update)
            == Fold(Interleave(d1, s1), update) + Fold(Interleave(d2, s2), update)
  {
    InterleaveSplit(d1, d2, s1, s2);
    var a, b := Interleave(d1, s1), Interleave(d2, s2);
    InterleaveKeySet(d1, s1);
    InterleaveKeySet(d2, s2);
    forall i, j | 0 <= i < |a| && 0 <= j < |b| ensures a[i].key < b[j].key {
      assert a[i].key in KeySet(a);
      assert b[j].key in KeySet(b);
    }
    FoldSplit(a, b, update);
  }
}
