// The vnode metadata caches: a chained hash table from table uid to the
// table's metadata (the entry cache) and a second one from super-table uid
// to its child-table count (the stats cache). Both keep an array of bucket
// chains, grow by doubling when the number of entries reaches the number of
// buckets, and shrink by halving when fewer than a quarter of the buckets
// are in use, never below their base size.

module MetaCache {
  import opened Wrappers

  /** Initial and minimum bucket count of the entry cache. */
  const BaseBucket: int := 1024
  /** Initial and minimum bucket count of the stats cache. */
  const StatsBucket: int := 16

  /** Return codes of the cache operations: success or "not found". */
  datatype Status = Success | NotFound

  /** Cached facts about one table. */
  datatype MetaInfo = MetaInfo(uid: int, suid: int, version: int, skmVer: int)

  /** Cached statistics about one super table. */
  datatype StbStats = StbStats(uid: int, ctbNum: int)

  /** One link of a bucket chain: the key and the cached value. */
  datatype Entry<V> = Entry(uid: int, info: V)

  function Abs(x: int): nat
  {
    if x < 0 then -x else x
  }

  /** The bucket a uid hashes to: its absolute value modulo the bucket count. */
  function BucketOf(uid: int, nBucket: int): (b: nat)
    requires nBucket > 0
    ensures b < nBucket
    ensures uid >= 0 ==> b == uid % nBucket
  {
    Abs(uid) % nBucket
  }

  /** n is base times a power of two. */
  ghost predicate Doublings(n: int, base: int)
    decreases n
  {
    base > 0 && n >= base && (n == base || (n % 2 == 0 && Doublings(n / 2, base)))
  }

  lemma DoublingsGrow(n: int, base: int)
    requires Doublings(n, base)
    ensures Doublings(2 * n, base)
  {
    assert (2 * n) / 2 == n;
  }

  /** Doubling, or halving above the base size, keeps the bucket count a base times a power of two. */
  lemma ResizeKeepsShape(n: int, base: int, count: int, expand: bool)
    requires Doublings(n, base) && count <= n
    requires !expand ==> n > base && count <= n / 2
    ensures var m := if expand then 2 * n else n / 2;
      Doublings(m, base) && count <= m && m > 0
  {
    if expand {
      DoublingsGrow(n, base);
    }
  }

  /** The number of entries held by all chains together. */
  ghost function Total<T>(bs: seq<seq<T>>): nat
  {
    if |bs| == 0 then 0 else Total(bs[..|bs| - 1]) + |bs[|bs| - 1]|
  }

  lemma {:induction false} TotalAppend<T>(bs: seq<seq<T>>, i: nat)
    requires i < |bs|
    ensures Total(bs[..i + 1]) == Total(bs[..i]) + |bs[i]|
  {
    assert bs[..i + 1][..i] == bs[..i];
  }

  lemma {:induction false} TotalUpdate<T>(bs: seq<seq<T>>, k: nat, x: seq<T>)
    requires k < |bs|
    ensures Total(bs[k := x]) == Total(bs) - |bs[k]| + |x|
    decreases |bs|
  {
    var n := |bs| - 1;
    if k == n {
      assert bs[k := x][..n] == bs[..n];
    } else {
      TotalUpdate(bs[..n], k, x);
      assert bs[k := x][..n] == bs[..n][k := x];
    }
  }

  lemma {:induction false} TotalAllEmpty<T>(bs: seq<seq<T>>)
    requires forall i | 0 <= i < |bs| :: bs[i] == []
    ensures Total(bs) == 0
  {
    if |bs| > 0 {
      TotalAllEmpty(bs[..|bs| - 1]);
    }
  }

  /** No uid occurs twice in one chain. */
  ghost predicate NoDupUids<V>(chain: seq<Entry<V>>)
  {
    forall p: int, q: int | 0 <= p < q < |chain| :: chain[p].uid != chain[q].uid
  }

  /** Unlinking entry `j` keeps exactly the entries with another uid. */
  lemma RemovedFromChain<V>(chain: seq<Entry<V>>, j: nat)
    requires NoDupUids(chain) && j < |chain|
    ensures var rest := chain[..j] + chain[j + 1..];
      && NoDupUids(rest)
      && (forall e :: e in rest <==> e in chain && e.uid != chain[j].uid)
  {
    var rest := chain[..j] + chain[j + 1..];
    assert forall k | 0 <= k < |rest| :: rest[k] == chain[if k < j then k else k + 1];
    forall e
      ensures e in rest <==> e in chain && e.uid != chain[j].uid
    {
      if e in chain && e.uid != chain[j].uid {
        var k :| 0 <= k < |chain| && chain[k] == e;
        assert rest[if k < j then k else k - 1] == e;
      }
    }
  }

  /** A new head whose uid the chain lacks keeps the chain free of duplicates. */
  lemma PrependedToChain<V>(chain: seq<Entry<V>>, e: Entry<V>)
    requires NoDupUids(chain)
    requires forall f | f in chain :: f.uid != e.uid
    ensures NoDupUids([e] + chain)
  {
    var c := [e] + chain;
    forall p: int, q: int | 0 <= p < q < |c|
      ensures c[p].uid != c[q].uid
    {
      assert c[q] == chain[q - 1];
      if p == 0 {
        assert chain[q - 1] in chain;
      } else {
        assert c[p] == chain[p - 1];
      }
    }
  }

  /** Overwriting entry `j` by one with the same uid. */
  lemma ReplacedInChain<V>(chain: seq<Entry<V>>, j: nat, e: Entry<V>)
    requires NoDupUids(chain) && j < |chain| && chain[j].uid == e.uid
    ensures NoDupUids(chain[j := e])
    ensures forall f :: f in chain[j := e] <==> f == e || (f in chain && f.uid != e.uid)
  {
    var c := chain[j := e];
    assert c[j] == e;
    forall f
      ensures f in c <==> f == e || (f in chain && f.uid != e.uid)
    {
      if f in chain && f.uid != e.uid {
        var k :| 0 <= k < |chain| && chain[k] == f;
        assert c[k] == f;
      }
      if f in c && f != e {
        var k :| 0 <= k < |c| && c[k] == f;
        assert k != j && chain[k] == f;
        if k < j {
          assert chain[k].uid != chain[j].uid;
        } else {
          assert chain[j].uid != chain[k].uid;
        }
      }
    }
  }

  /**
   * The chains represent the map `contents`: every entry sits in the bucket
   * its uid hashes to and carries the mapped value, every key of the map has
   * its entry in that bucket, and no chain holds a uid twice.
   */
  ghost predicate WellFormed<V>(bs: seq<seq<Entry<V>>>, contents: map<int, V>)
  {
    && |bs| > 0
    && (forall b, e | 0 <= b < |bs| && e in bs[b] ::
          BucketOf(e.uid, |bs|) == b && e.uid in contents && contents[e.uid] == e.info)
    && (forall u | u in contents :: Entry(u, contents[u]) in bs[BucketOf(u, |bs|)])
    && (forall b | 0 <= b < |bs| :: NoDupUids(bs[b]))
  }

  lemma FoundMeansPresent<V>(bs: seq<seq<Entry<V>>>, contents: map<int, V>, uid: int, j: nat)
    requires WellFormed(bs, contents)
    requires j < |bs[BucketOf(uid, |bs|)]| && bs[BucketOf(uid, |bs|)][j].uid == uid
    ensures uid in contents && contents[uid] == bs[BucketOf(uid, |bs|)][j].info
  {
    var b := BucketOf(uid, |bs|);
    assert bs[b][j] in bs[b];
  }

  lemma MissingMeansAbsent<V>(bs: seq<seq<Entry<V>>>, contents: map<int, V>, uid: int)
    requires WellFormed(bs, contents)
    requires forall k | 0 <= k < |bs[BucketOf(uid, |bs|)]| :: bs[BucketOf(uid, |bs|)][k].uid != uid
    ensures uid !in contents
  {
    var b := BucketOf(uid, |bs|);
    assert forall e | e in bs[b] :: e.uid != uid;
  }

  /** Overwriting the entry found for `uid` in place updates the map at `uid`. */
  lemma ReplaceKeepsWellFormed<V>(bs: seq<seq<Entry<V>>>, contents: map<int, V>, uid: int, j: nat, v: V)
    requires WellFormed(bs, contents)
    requires j < |bs[BucketOf(uid, |bs|)]| && bs[BucketOf(uid, |bs|)][j].uid == uid
    ensures var b := BucketOf(uid, |bs|);
      && WellFormed(bs[b := bs[b][j := Entry(uid, v)]], contents[uid := v])
      && Total(bs[b := bs[b][j := Entry(uid, v)]]) == Total(bs)
  {
    var b := BucketOf(uid, |bs|);
    var chain := bs[b][j := Entry(uid, v)];
    var bs' := bs[b := chain];
    var c' := contents[uid := v];
    ReplacedInChain(bs[b], j, Entry(uid, v));
    forall c: int, e: Entry<V> | 0 <= c < |bs'| && e in bs'[c]
      ensures BucketOf(e.uid, |bs'|) == c && e.uid in c' && c'[e.uid] == e.info
    {
      if c == b && e != Entry(uid, v) {
        assert e in bs[b];
      }
    }
    forall u: int | u in c'
      ensures Entry(u, c'[u]) in bs'[BucketOf(u, |bs'|)]
    {
      if u != uid {
        assert Entry(u, contents[u]) in bs[BucketOf(u, |bs|)];
      }
    }
    TotalUpdate(bs, b, chain);
  }

  /** Pushing a new entry at the head of its bucket adds its uid to the map. */
  lemma PrependKeepsWellFormed<V>(bs: seq<seq<Entry<V>>>, contents: map<int, V>, uid: int, v: V)
    requires WellFormed(bs, contents) && uid !in contents
    ensures var b := BucketOf(uid, |bs|);
      && WellFormed(bs[b := [Entry(uid, v)] + bs[b]], contents[uid := v])
      && Total(bs[b := [Entry(uid, v)] + bs[b]]) == Total(bs) + 1
  {
    var b := BucketOf(uid, |bs|);
    var chain := [Entry(uid, v)] + bs[b];
    var bs' := bs[b := chain];
    var c' := contents[uid := v];
    PrependedToChain(bs[b], Entry(uid, v));
    forall c: int, e: Entry<V> | 0 <= c < |bs'| && e in bs'[c]
      ensures BucketOf(e.uid, |bs'|) == c && e.uid in c' && c'[e.uid] == e.info
    {
      if c == b && e != Entry(uid, v) {
        assert e in bs[b];
      }
    }
    forall u: int | u in c'
      ensures Entry(u, c'[u]) in bs'[BucketOf(u, |bs'|)]
    {
      if u != uid {
        assert Entry(u, contents[u]) in bs[BucketOf(u, |bs|)];
      }
    }
    TotalUpdate(bs, b, chain);
  }

  /** Unlinking the entry found for `uid` removes `uid` from the map. */
  lemma RemoveKeepsWellFormed<V>(bs: seq<seq<Entry<V>>>, contents: map<int, V>, uid: int, j: nat)
    requires WellFormed(bs, contents)
    requires j < |bs[BucketOf(uid, |bs|)]| && bs[BucketOf(uid, |bs|)][j].uid == uid
    ensures var b := BucketOf(uid, |bs|);
      && WellFormed(bs[b := bs[b][..j] + bs[b][j + 1..]], contents - {uid})
      && Total(bs[b := bs[b][..j] + bs[b][j + 1..]]) == Total(bs) - 1
  {
    var b := BucketOf(uid, |bs|);
    var chain := bs[b][..j] + bs[b][j + 1..];
    var bs' := bs[b := chain];
    var c' := contents - {uid};
    RemovedFromChain(bs[b], j);
    forall c: int, e: Entry<V> | 0 <= c < |bs'| && e in bs'[c]
      ensures BucketOf(e.uid, |bs'|) == c && e.uid in c' && c'[e.uid] == e.info
    {
      assert e in bs[c];
    }
    forall u: int | u in c'
      ensures Entry(u, c'[u]) in bs'[BucketOf(u, |bs'|)]
    {
      assert Entry(u, contents[u]) in bs[BucketOf(u, |bs|)];
    }
    TotalUpdate(bs, b, chain);
  }

  /**
   * Rehash progress: the entries of old buckets before `i`, and the first `j`
   * entries of old bucket `i`, have been moved into `nb`, each into the new
   * bucket its uid hashes to.
   */
  ghost predicate InRange<V>(bs: seq<seq<Entry<V>>>, i: int, j: int)
  {
    |bs| > 0 && 0 <= i <= |bs| && 0 <= j && (if i < |bs| then j <= |bs[i]| else j == 0)
  }

  ghost predicate Moved<V>(bs: seq<seq<Entry<V>>>, i: int, j: int, e: Entry<V>)
    requires InRange(bs, i, j)
  {
    BucketOf(e.uid, |bs|) < i || (BucketOf(e.uid, |bs|) == i && i < |bs| && e in bs[i][..j])
  }

  ghost predicate RehashedUpTo<V>(bs: seq<seq<Entry<V>>>, contents: map<int, V>, nb: seq<seq<Entry<V>>>, i: int, j: int)
    requires InRange(bs, i, j)
  {
    && |nb| > 0
    && (forall t, e | 0 <= t < |nb| && e in nb[t] ::
          BucketOf(e.uid, |nb|) == t && e.uid in contents && contents[e.uid] == e.info && Moved(bs, i, j, e))
    && (forall u | u in contents && Moved(bs, i, j, Entry(u, contents[u])) ::
          Entry(u, contents[u]) in nb[BucketOf(u, |nb|)])
    && (forall t | 0 <= t < |nb| :: NoDupUids(nb[t]))
    && Total(nb) == Total(bs[..i]) + j
  }

  lemma RehashStart<V>(bs: seq<seq<Entry<V>>>, contents: map<int, V>, nb: seq<seq<Entry<V>>>)
    requires WellFormed(bs, contents)
    requires |nb| > 0 && forall t | 0 <= t < |nb| :: nb[t] == []
    ensures RehashedUpTo(bs, contents, nb, 0, 0)
  {
    TotalAllEmpty(nb);
  }

  /** Entry `j` of old bucket `i` has not been moved yet: no new bucket holds its uid. */
  lemma NotYetMoved<V>(bs: seq<seq<Entry<V>>>, contents: map<int, V>, nb: seq<seq<Entry<V>>>, i: int, j: int)
    requires WellFormed(bs, contents)
    requires 0 <= i < |bs| && 0 <= j < |bs[i]|
    requires RehashedUpTo(bs, contents, nb, i, j)
    ensures forall f | f in nb[BucketOf(bs[i][j].uid, |nb|)] :: f.uid != bs[i][j].uid
  {
    var e := bs[i][j];
    var t := BucketOf(e.uid, |nb|);
    assert e in bs[i];
    assert NoDupUids(bs[i]);
    forall f: Entry<V> | f in nb[t]
      ensures f.uid != e.uid
    {
      assert Moved(bs, i, j, f);
      if BucketOf(f.uid, |bs|) == i {
        var k :| 0 <= k < j && bs[i][..j][k] == f;
        assert bs[i][k] == f;
      }
    }
  }

  /** Moving entry `j` of old bucket `i` to the head of its new bucket. */
  lemma RehashStep<V>(bs: seq<seq<Entry<V>>>, contents: map<int, V>, nb: seq<seq<Entry<V>>>, i: int, j: int)
    requires WellFormed(bs, contents)
    requires 0 <= i < |bs| && 0 <= j < |bs[i]|
    requires RehashedUpTo(bs, contents, nb, i, j)
    ensures var e := bs[i][j]; var t := BucketOf(e.uid, |nb|);
      RehashedUpTo(bs, contents, nb[t := [e] + nb[t]], i, j + 1)
  {
    var e := bs[i][j];
    var t := BucketOf(e.uid, |nb|);
    var nb': seq<seq<Entry<V>>> := nb[t := [e] + nb[t]];
    assert e in bs[i];
    assert bs[i][..j + 1] == bs[i][..j] + [e];
    NotYetMoved(bs, contents, nb, i, j);
    PrependedToChain(nb[t], e);
    forall c: int, g: Entry<V> | 0 <= c < |nb'| && g in nb'[c]
      ensures BucketOf(g.uid, |nb'|) == c && g.uid in contents && contents[g.uid] == g.info && Moved(bs, i, j + 1, g)
    {
      if c != t || g != e {
        assert g in nb[c];
        assert Moved(bs, i, j, g);
      }
    }
    forall u: int | u in contents && Moved(bs, i, j + 1, Entry(u, contents[u]))
      ensures Entry(u, contents[u]) in nb'[BucketOf(u, |nb'|)]
    {
      if Entry(u, contents[u]) != e {
        assert Moved(bs, i, j, Entry(u, contents[u]));
      }
    }
    TotalUpdate(nb, t, [e] + nb[t]);
  }

  /** Finishing old bucket `i` moves on to bucket `i + 1`. */
  lemma RehashNextBucket<V>(bs: seq<seq<Entry<V>>>, contents: map<int, V>, nb: seq<seq<Entry<V>>>, i: int)
    requires WellFormed(bs, contents)
    requires 0 <= i < |bs|
    requires RehashedUpTo(bs, contents, nb, i, |bs[i]|)
    ensures RehashedUpTo(bs, contents, nb, i + 1, 0)
  {
    assert bs[i][..|bs[i]|] == bs[i];
    forall t: int, e: Entry<V> | 0 <= t < |nb| && e in nb[t]
      ensures Moved(bs, i + 1, 0, e)
    {
      assert Moved(bs, i, |bs[i]|, e);
    }
    forall u: int | u in contents && Moved(bs, i + 1, 0, Entry(u, contents[u]))
      ensures Entry(u, contents[u]) in nb[BucketOf(u, |nb|)]
    {
      assert Entry(u, contents[u]) in bs[BucketOf(u, |bs|)];
      assert Moved(bs, i, |bs[i]|, Entry(u, contents[u]));
    }
    TotalAppend(bs, i);
  }

  /** Once the last old bucket is done, the new buckets represent the same map. */
  lemma RehashDone<V>(bs: seq<seq<Entry<V>>>, contents: map<int, V>, nb: seq<seq<Entry<V>>>)
    requires WellFormed(bs, contents)
    requires RehashedUpTo(bs, contents, nb, |bs|, 0)
    ensures WellFormed(nb, contents)
    ensures Total(nb) == Total(bs)
  {
    forall u: int | u in contents
      ensures Entry(u, contents[u]) in nb[BucketOf(u, |nb|)]
    {
      assert Moved(bs, |bs|, 0, Entry(u, contents[u]));
    }
    assert bs[..|bs|] == bs;
  }

  /** Relinks every entry of old bucket `i` at the head of its new bucket in `nb`. */
  method RelinkChain<V>(nb: array<seq<Entry<V>>>, chain: seq<Entry<V>>,
                        ghost bs: seq<seq<Entry<V>>>, ghost contents: map<int, V>, ghost i: int)
    requires WellFormed(bs, contents) && 0 <= i < |bs| && chain == bs[i]
    requires RehashedUpTo(bs, contents, nb[..], i, 0)
    modifies nb
    ensures RehashedUpTo(bs, contents, nb[..], i, |chain|)
  {
    var j := 0;
    while j < |chain|
      invariant 0 <= j <= |chain|
      invariant RehashedUpTo(bs, contents, nb[..], i, j)
    {
      var e := chain[j];
      var t := BucketOf(e.uid, nb.Length);
      ghost var before := nb[..];
      RehashStep(bs, contents, before, i, j);
      nb[t] := [e] + nb[t];
      assert nb[..] == before[t := [e] + before[t]];
      j := j + 1;
    }
  }

  /** Relinks the entries of every old bucket of `from`, in bucket order, into `nb`. */
  method RelinkAll<V>(nb: array<seq<Entry<V>>>, from: array<seq<Entry<V>>>, ghost contents: map<int, V>)
    requires nb != from && WellFormed(from[..], contents)
    requires RehashedUpTo(from[..], contents, nb[..], 0, 0)
    modifies nb
    ensures RehashedUpTo(from[..], contents, nb[..], from.Length, 0)
  {
    ghost var bs := from[..];
    var i := 0;
    while i < from.Length
      invariant 0 <= i <= from.Length
      invariant RehashedUpTo(bs, contents, nb[..], i, 0)
    {
      RelinkChain(nb, from[i], bs, contents, i);
      RehashNextBucket(bs, contents, nb[..], i);
      i := i + 1;
    }
  }

  /**
   * Walks a chain for `uid`: the result is the index of the first entry with
   * that uid, or the chain's length when there is none.
   */
  method Walk<V>(chain: seq<Entry<V>>, uid: int) returns (j: nat)
    ensures j <= |chain|
    ensures j < |chain| ==> chain[j].uid == uid
    ensures forall k | 0 <= k < j :: chain[k].uid != uid
  {
    j := 0;
    while j < |chain| && chain[j].uid != uid
      invariant j <= |chain|
      invariant forall k | 0 <= k < j :: chain[k].uid != uid
    {
      j := j + 1;
    }
  }

  /**
   * One chained hash table of the metadata cache. `base` is its initial and
   * minimum bucket count; `Contents` is the map from uid to value it holds.
   */
  class ChainedCache<V> {
    const base: int
    var nEntry: int
    var nBucket: int
    var buckets: array<seq<Entry<V>>>
    ghost var Contents: map<int, V>

    ghost predicate Valid()
      reads this, buckets
    {
      && nBucket == buckets.Length
      && Doublings(nBucket, base)
      && WellFormed(buckets[..], Contents)
      && nEntry == Total(buckets[..])
      && nEntry == |Contents|
      && nEntry <= nBucket
    }

    /** Opens an empty cache with `base` buckets. */
    constructor (base: int)
      requires base > 0
      ensures Valid() && fresh(buckets)
      ensures this.base == base && nBucket == base && nEntry == 0 && Contents == map[]
    {
      this.base := base;
      nEntry := 0;
      nBucket := base;
      buckets := new seq<Entry<V>>[base](_ => []);
      Contents := map[];
      new;
      TotalAllEmpty(buckets[..]);
    }

    /** The value cached for `uid`, or nothing (a "not found" code). */
    method Get(uid: int) returns (r: Option<V>)
      requires Valid()
      ensures r == if uid in Contents then Some(Contents[uid]) else None
    {
      var b := BucketOf(uid, nBucket);
      var j := Walk(buckets[b], uid);
      if j < |buckets[b]| {
        FoundMeansPresent(buckets[..], Contents, uid, j);
        r := Some(buckets[b][j].info);
      } else {
        MissingMeansAbsent(buckets[..], Contents, uid);
        r := None;
      }
    }

    /**
     * Replaces the bucket array by one twice (or half) as large and relinks
     * every entry at the head of the bucket its uid hashes to there.
     */
    method Rehash(expand: bool)
      requires Valid()
      requires !expand ==> nBucket > base && nEntry <= nBucket / 2
      modifies this
      ensures Valid() && fresh(buckets)
      ensures nBucket == if expand then 2 * old(nBucket) else old(nBucket) / 2
      ensures Contents == old(Contents) && nEntry == old(nEntry)
    {
      var n := if expand then 2 * nBucket else nBucket / 2;
      ResizeKeepsShape(nBucket, base, nEntry, expand);
      var nb := new seq<Entry<V>>[n](_ => []);
      ghost var bs := buckets[..];
      RehashStart(bs, Contents, nb[..]);
      RelinkAll(nb, buckets, Contents);
      ghost var done := nb[..];
      RehashDone(bs, Contents, done);
      buckets := nb;
      nBucket := n;
      assert buckets[..] == done;
    }

    /**
     * Updates the value cached for `uid` with `merge(current, info)` when
     * there is one; otherwise first doubles the buckets if the table is full
     * and then links a new entry at the head of its bucket.
     */
    method Upsert(uid: int, info: V, merge: (V, V) -> V)
      requires Valid()
      modifies this, buckets
      ensures Valid()
      ensures uid in old(Contents) ==>
        && Contents == old(Contents)[uid := merge(old(Contents)[uid], info)]
        && nEntry == old(nEntry) && nBucket == old(nBucket)
      ensures uid !in old(Contents) ==>
        && Contents == old(Contents)[uid := info]
        && nEntry == old(nEntry) + 1
        && nBucket == if old(nEntry) >= old(nBucket) then 2 * old(nBucket) else old(nBucket)
    {
      var b := BucketOf(uid, nBucket);
      var j := Walk(buckets[b], uid);
      if j < |buckets[b]| {
        FoundMeansPresent(buckets[..], Contents, uid, j);
        ReplaceAt(uid, j, merge(buckets[b][j].info, info));
      } else {
        MissingMeansAbsent(buckets[..], Contents, uid);
        Insert(uid, info);
      }
    }

    /** Overwrites, in place, entry `j` of the bucket of `uid`, which holds `uid`. */
    method ReplaceAt(uid: int, j: nat, v: V)
      requires Valid()
      requires j < |buckets[BucketOf(uid, nBucket)]| && buckets[BucketOf(uid, nBucket)][j].uid == uid
      modifies this, buckets
      ensures Valid() && buckets == old(buckets)
      ensures Contents == old(Contents)[uid := v] && nEntry == old(nEntry) && nBucket == old(nBucket)
    {
      var b := BucketOf(uid, nBucket);
      ghost var bs := buckets[..];
      FoundMeansPresent(bs, Contents, uid, j);
      ReplaceKeepsWellFormed(bs, Contents, uid, j, v);
      buckets[b] := buckets[b][j := Entry(uid, v)];
      assert buckets[..] == bs[b := bs[b][j := Entry(uid, v)]];
      Contents := Contents[uid := v];
    }

    /** Links a new entry for an absent uid, doubling the buckets first when the table is full. */
    method Insert(uid: int, info: V)
      requires Valid() && uid !in Contents
      modifies this, buckets
      ensures Valid()
      ensures Contents == old(Contents)[uid := info]
      ensures nEntry == old(nEntry) + 1
      ensures nBucket == if old(nEntry) >= old(nBucket) then 2 * old(nBucket) else old(nBucket)
    {
      if nEntry >= nBucket {
        Rehash(true);
      }
      var b := BucketOf(uid, nBucket);
      ghost var bs := buckets[..];
      PrependKeepsWellFormed(bs, Contents, uid, info);
      buckets[b] := [Entry(uid, info)] + buckets[b];
      assert buckets[..] == bs[b := [Entry(uid, info)] + bs[b]];
      Contents := Contents[uid := info];
      nEntry := nEntry + 1;
    }

    /**
     * Unlinks the entry for `uid`, then halves the buckets when fewer than a
     * quarter of them would be used and the table is above its base size.
     * A missing uid is reported and changes nothing.
     */
    method Drop(uid: int) returns (code: Status)
      requires Valid()
      modifies this, buckets
      ensures Valid()
      ensures code == (if uid in old(Contents) then Success else NotFound)
      ensures code == Success ==>
        && Contents == old(Contents) - {uid}
        && nEntry == old(nEntry) - 1
        && nBucket == if nEntry < old(nBucket) / 4 && old(nBucket) > base then old(nBucket) / 2 else old(nBucket)
      ensures code == NotFound ==>
        && Contents == old(Contents) && nEntry == old(nEntry)
        && nBucket == old(nBucket) && buckets == old(buckets) && buckets[..] == old(buckets[..])
    {
      var b := BucketOf(uid, nBucket);
      var j := Walk(buckets[b], uid);
      if j < |buckets[b]| {
        FoundMeansPresent(buckets[..], Contents, uid, j);
        RemoveKeepsWellFormed(buckets[..], Contents, uid, j);
        buckets[b] := buckets[b][..j] + buckets[b][j + 1..];
        Contents := Contents - {uid};
        nEntry := nEntry - 1;
        if nEntry < nBucket / 4 && nBucket > base {
          Rehash(false);
        }
        code := Success;
      } else {
        MissingMeansAbsent(buckets[..], Contents, uid);
        code := NotFound;
      }
    }
  }

  /**
   * The rule the entry cache applies to an existing entry: a strictly newer
   * version replaces the version and the schema version together; anything
   * else leaves the entry as it was.
   */
  function KeepNewer(cur: MetaInfo, upd: MetaInfo): (r: MetaInfo)
    ensures r.uid == cur.uid && r.suid == cur.suid
    ensures upd.version > cur.version ==> r.version == upd.version && r.skmVer == upd.skmVer
    ensures upd.version <= cur.version ==> r == cur
  {
    if upd.version > cur.version then cur.(version := upd.version, skmVer := upd.skmVer) else cur
  }

  /** The version cached for a table never goes down, whatever order updates arrive in. */
  lemma KeepNewerMonotone(cur: MetaInfo, upd: MetaInfo)
    ensures KeepNewer(cur, upd).version >= cur.version
    ensures KeepNewer(cur, upd).version >= upd.version || KeepNewer(cur, upd) == cur
    ensures KeepNewer(KeepNewer(cur, upd), upd) == KeepNewer(cur, upd)
  {
  }

  /** The rule the stats cache applies to an existing entry: the child-table count is overwritten. */
  function TakeCount(cur: StbStats, upd: StbStats): (r: StbStats)
    ensures r.uid == cur.uid && r.ctbNum == upd.ctbNum
  {
    cur.(ctbNum := upd.ctbNum)
  }

  /** Every cached value carries the uid it is cached under. */
  ghost predicate KeyedByUid(m: map<int, MetaInfo>)
  {
    forall u | u in m :: m[u].uid == u
  }

  ghost predicate StatsKeyedByUid(m: map<int, StbStats>)
  {
    forall u | u in m :: m[u].uid == u
  }

  /** The metadata cache of one vnode: the table entry cache and the super-table stats cache. */
  class MetaCache {
    const entries: ChainedCache<MetaInfo>
    const stats: ChainedCache<StbStats>

    ghost predicate Valid()
      reads this, entries, entries.buckets, stats, stats.buckets
    {
      && entries.Valid() && entries.base == BaseBucket && KeyedByUid(entries.Contents)
      && stats.Valid() && stats.base == StatsBucket && StatsKeyedByUid(stats.Contents)
    }

    /** Opens both caches empty, with their base bucket counts. */
    constructor ()
      ensures Valid() && fresh(entries) && fresh(entries.buckets) && fresh(stats) && fresh(stats.buckets)
      ensures entries.Contents == map[] && entries.nEntry == 0 && entries.nBucket == BaseBucket
      ensures stats.Contents == map[] && stats.nEntry == 0 && stats.nBucket == StatsBucket
    {
      entries := new ChainedCache<MetaInfo>(BaseBucket);
      stats := new ChainedCache<StbStats>(StatsBucket);
    }

    /** Looks a table up in the entry cache. */
    method GetEntry(uid: int) returns (r: Option<MetaInfo>)
      requires Valid()
      ensures r == if uid in entries.Contents then Some(entries.Contents[uid]) else None
      ensures r.Some? ==> r.value.uid == uid
    {
      r := entries.Get(uid);
    }

    /**
     * Records a table's metadata. A table already cached must keep its super
     * table; its version and schema version move forward only when the new
     * version is strictly greater.
     */
    method UpsertEntry(info: MetaInfo)
      requires Valid()
      requires info.uid in entries.Contents ==> entries.Contents[info.uid].suid == info.suid
      modifies entries, entries.buckets
      ensures Valid()
      ensures info.uid in old(entries.Contents) ==>
        && entries.Contents == old(entries.Contents)[info.uid := KeepNewer(old(entries.Contents)[info.uid], info)]
        && entries.nEntry == old(entries.nEntry) && entries.nBucket == old(entries.nBucket)
      ensures info.uid !in old(entries.Contents) ==>
        && entries.Contents == old(entries.Contents)[info.uid := info]
        && entries.nEntry == old(entries.nEntry) + 1
        && entries.nBucket == if old(entries.nEntry) >= old(entries.nBucket) then 2 * old(entries.nBucket) else old(entries.nBucket)
    {
      entries.Upsert(info.uid, info, KeepNewer);
    }

    /** Removes a table from the entry cache, shrinking it when it has become sparse. */
    method DropEntry(uid: int) returns (code: Status)
      requires Valid()
      modifies entries, entries.buckets
      ensures Valid()
      ensures code == (if uid in old(entries.Contents) then Success else NotFound)
      ensures entries.Contents == old(entries.Contents) - {uid}
      ensures code == Success ==>
        && entries.nEntry == old(entries.nEntry) - 1
        && entries.nBucket == if entries.nEntry < old(entries.nBucket) / 4 && old(entries.nBucket) > BaseBucket
                             then old(entries.nBucket) / 2 else old(entries.nBucket)
      ensures code == NotFound ==> entries.nEntry == old(entries.nEntry) && entries.nBucket == old(entries.nBucket)
    {
      code := entries.Drop(uid);
    }

    /** Looks a super table up in the stats cache. */
    method GetStats(uid: int) returns (r: Option<StbStats>)
      requires Valid()
      ensures r == if uid in stats.Contents then Some(stats.Contents[uid]) else None
      ensures r.Some? ==> r.value.uid == uid
    {
      r := stats.Get(uid);
    }

    /** Records a super table's child-table count, overwriting any cached count. */
    method UpsertStats(info: StbStats)
      requires Valid()
      modifies stats, stats.buckets
      ensures Valid()
      ensures info.uid in old(stats.Contents) ==>
        && stats.Contents == old(stats.Contents)[info.uid := TakeCount(old(stats.Contents)[info.uid], info)]
        && stats.nEntry == old(stats.nEntry) && stats.nBucket == old(stats.nBucket)
      ensures info.uid !in old(stats.Contents) ==>
        && stats.Contents == old(stats.Contents)[info.uid := info]
        && stats.nEntry == old(stats.nEntry) + 1
        && stats.nBucket == if old(stats.nEntry) >= old(stats.nBucket) then 2 * old(stats.nBucket) else old(stats.nBucket)
      ensures stats.Contents[info.uid] == info
    {
      stats.Upsert(info.uid, info, TakeCount);
    }

    /** Removes a super table from the stats cache, shrinking it when it has become sparse. */
    method DropStats(uid: int) returns (code: Status)
      requires Valid()
      modifies stats, stats.buckets
      ensures Valid()
      ensures code == (if uid in old(stats.Contents) then Success else NotFound)
      ensures stats.Contents == old(stats.Contents) - {uid}
      ensures code == Success ==>
        && stats.nEntry == old(stats.nEntry) - 1
        && stats.nBucket == if stats.nEntry < old(stats.nBucket) / 4 && old(stats.nBucket) > StatsBucket
                           then old(stats.nBucket) / 2 else old(stats.nBucket)
      ensures code == NotFound ==> stats.nEntry == old(stats.nEntry) && stats.nBucket == old(stats.nBucket)
    {
      code := stats.Drop(uid);
    }
  }
}
