/**
 * The bucket array as a value: one chain per bucket index. This module says
 * when such an array represents a key -> value map, and proves that the
 * table-level insert, get and delete (hash the key, then work on that one
 * chain) implement map update, map lookup and key removal.
 */
module Buckets {
  import opened Djb2
  import opened Chain

  /** The number of records over all buckets. */
  function Count(cs: seq<seq<Entry>>): (r: nat)
  {
    if cs == [] then 0 else |cs[0]| + Count(cs[1..])
  }

  /** A table of `n` buckets, all empty. */
  function Empty(n: nat): (cs: seq<seq<Entry>>)
    ensures |cs| == n
    ensures forall b | 0 <= b < n :: cs[b] == []
  {
    seq(n, _ => [])
  }

  /**
   * Bucket `b` is in order: each of its records sits in the bucket its key
   * hashes to, and no key occurs twice in it.
   */
  predicate BucketOk(cs: seq<seq<Entry>>, b: int, n: int)
    requires n > 0 && 0 <= b < |cs|
  {
    && (forall j | 0 <= j < |cs[b]| :: Hash(cs[b][j].key, n) == b)
    && UniqueKeys(cs[b])
  }

  /** Every record of bucket `b` has a key of `m`. */
  predicate KeysIn(cs: seq<seq<Entry>>, b: int, m: map<Text, Text>)
    requires 0 <= b < |cs|
  {
    forall j | 0 <= j < |cs[b]| :: cs[b][j].key in m
  }

  /** The structural invariants, bucket by bucket. */
  predicate WellFormed(cs: seq<seq<Entry>>, n: int)
  {
    && n > 0
    && |cs| == n
    && (forall b {:trigger BucketOk(cs, b, n)} | 0 <= b < n :: BucketOk(cs, b, n))
  }

  /**
   * The bucket array stores exactly the map `m`: each key of `m` is found
   * with its value by scanning its own bucket, every record's key is a key
   * of `m`, and there is one record per key.
   */
  predicate Represents(cs: seq<seq<Entry>>, m: map<Text, Text>, n: int)
  {
    && WellFormed(cs, n)
    && (forall k {:trigger Get(cs, k, n)} | k in m :: Get(cs, k, n) == Some(m[k]))
    && (forall b {:trigger KeysIn(cs, b, m)} | 0 <= b < n :: KeysIn(cs, b, m))
    && Count(cs) == |m|
  }

  /** `get`: scan the bucket of `k`. */
  function Get(cs: seq<seq<Entry>>, k: Text, n: int): (r: Option<Text>)
    requires n > 0 && |cs| == n
  {
    Lookup(cs[Hash(k, n)], k)
  }

  /** `insert`: insert-or-update in the bucket of `k`; no other bucket changes. */
  function Insert(cs: seq<seq<Entry>>, k: Text, v: Text, n: int): (r: seq<seq<Entry>>)
    requires n > 0 && |cs| == n
  {
    cs[Hash(k, n) := Upsert(cs[Hash(k, n)], k, v)]
  }

  /** `delete`: unlink the first record of `k` in its bucket; no other bucket changes. */
  function Delete(cs: seq<seq<Entry>>, k: Text, n: int): (r: seq<seq<Entry>>)
    requires n > 0 && |cs| == n
  {
    cs[Hash(k, n) := RemoveFirst(cs[Hash(k, n)], k)]
  }

  /** Replacing one bucket changes the record count by the difference in that bucket's length. */
  lemma {:induction false} CountUpdate(cs: seq<seq<Entry>>, b: nat, c: seq<Entry>)
    requires b < |cs|
    ensures Count(cs[b := c]) == Count(cs) - |cs[b]| + |c|
    decreases |cs|
  {
    if b == 0 {
      assert cs[b := c][1..] == cs[1..];
    } else {
      assert cs[b := c][1..] == cs[1..][b - 1 := c];
      CountUpdate(cs[1..], b - 1, c);
    }
  }

  /** A table of empty buckets holds no records. */
  lemma {:induction false} CountEmpty(cs: seq<seq<Entry>>)
    requires forall b | 0 <= b < |cs| :: cs[b] == []
    ensures Count(cs) == 0
    decreases |cs|
  {
    if cs != [] {
      CountEmpty(cs[1..]);
    }
  }

  /** A freshly created table represents the empty map. */
  lemma EmptyRepresents(n: int)
    requires n > 0
    ensures Represents(Empty(n), map[], n)
  {
    CountEmpty(Empty(n));
  }

  /** A key of the map is found in its bucket; a key outside the map is not. */
  lemma GetMatchesMap(cs: seq<seq<Entry>>, m: map<Text, Text>, n: int, k: Text)
    requires Represents(cs, m, n)
    ensures Get(cs, k, n) == if k in m then Some(m[k]) else None
  {
    assert KeysIn(cs, Hash(k, n), m);
  }

  /** Insertion implements map update and keeps every invariant. */
  lemma InsertRefines(cs: seq<seq<Entry>>, m: map<Text, Text>, n: int, k: Text, v: Text)
    requires Represents(cs, m, n)
    ensures Represents(Insert(cs, k, v, n), m[k := v], n)
    ensures Count(Insert(cs, k, v, n)) == Count(cs) + if k in m then 0 else 1
  {
    var h := Hash(k, n);
    var c := cs[h];
    var c': seq<Entry> := Upsert(c, k, v);
    var cs': seq<seq<Entry>> := Insert(cs, k, v, n);
    var m' := m[k := v];
    assert BucketOk(cs, h, n);
    UpsertUnique(c, k, v);
    UpsertShape(c, k, v);
    forall b | 0 <= b < n
      ensures BucketOk(cs', b, n) && KeysIn(cs', b, m')
    {
      assert BucketOk(cs, b, n) && KeysIn(cs, b, m);
      forall j | 0 <= j < |cs'[b]|
        ensures Hash(cs'[b][j].key, n) == b && cs'[b][j].key in m'
      {
        if b == h && Find(c, k).None? && j > 0 {
          assert cs'[b][j] == c[j - 1];
        }
      }
    }
    forall k2 | k2 in m'
      ensures Get(cs', k2, n) == Some(m'[k2])
    {
      if k2 != k {
        assert Get(cs, k2, n) == Some(m[k2]);
      }
      if k2 == k {
        UpsertLookupSame(c, k, v);
      } else if Hash(k2, n) == h {
        UpsertLookupOther(c, k, v, k2);
      }
    }
    CountUpdate(cs, h, c');
    GetMatchesMap(cs, m, n, k);
  }

  /** Removing a key from a map shrinks it by one exactly when the key was there. */
  lemma MapRemoveSize(m: map<Text, Text>, k: Text)
    ensures |m - {k}| == |m| - if k in m then 1 else 0
  {
    if k in m {
      assert (m - {k}).Keys == m.Keys - {k};
    } else {
      assert m - {k} == m;
    }
  }

  /** Deletion keeps every record in its own bucket and keys unique per bucket. */
  lemma DeleteWellFormed(cs: seq<seq<Entry>>, n: int, k: Text)
    requires WellFormed(cs, n)
    ensures WellFormed(Delete(cs, k, n), n)
    ensures forall j | 0 <= j < |Delete(cs, k, n)[Hash(k, n)]| :: Delete(cs, k, n)[Hash(k, n)][j].key != k
  {
    var h := Hash(k, n);
    var c := cs[h];
    var cs': seq<seq<Entry>> := Delete(cs, k, n);
    assert BucketOk(cs, h, n);
    RemoveFirstUnique(c, k);
    RemoveFirstShape(c, k);
    RemoveFirstLookupSame(c, k);
    forall b | 0 <= b < n
      ensures BucketOk(cs', b, n)
    {
      assert BucketOk(cs, b, n);
      if b == h && Find(c, k).Some? {
        var i := Find(c, k).value;
        forall j | 0 <= j < |cs'[b]|
          ensures Hash(cs'[b][j].key, n) == b
        {
          assert cs'[b][j] == if j < i then c[j] else c[j + 1];
        }
      }
    }
  }

  /** Deleting a key that its bucket does not hold changes neither the buckets nor the map. */
  lemma DeleteAbsent(cs: seq<seq<Entry>>, m: map<Text, Text>, n: int, k: Text)
    requires Represents(cs, m, n)
    requires Find(cs[Hash(k, n)], k).None?
    ensures k !in m
    ensures Delete(cs, k, n) == cs
    ensures m - {k} == m
  {
    GetMatchesMap(cs, m, n, k);
    assert Delete(cs, k, n) == cs[Hash(k, n) := cs[Hash(k, n)]];
  }

  /** After a deletion every remaining record's key is still a key of the shrunk map. */
  lemma DeleteKeysInMap(cs: seq<seq<Entry>>, m: map<Text, Text>, n: int, k: Text)
    requires Represents(cs, m, n)
    ensures forall b | 0 <= b < n :: KeysIn(Delete(cs, k, n), b, m - {k})
  {
    var h := Hash(k, n);
    var c := cs[h];
    var cs': seq<seq<Entry>> := Delete(cs, k, n);
    DeleteWellFormed(cs, n, k);
    RemoveFirstShape(c, k);
    forall b: int, j: int | 0 <= b < n && 0 <= j < |cs'[b]|
      ensures cs'[b][j].key in m - {k}
    {
      assert KeysIn(cs, b, m) && BucketOk(cs', b, n);
      if b == h && Find(c, k).Some? {
        var i := Find(c, k).value;
        assert cs'[b][j] == if j < i then c[j] else c[j + 1];
      }
    }
  }

  /** After a deletion every key of the shrunk map is still found with its value. */
  lemma DeleteLookups(cs: seq<seq<Entry>>, m: map<Text, Text>, n: int, k: Text)
    requires Represents(cs, m, n)
    ensures forall k2 | k2 in m - {k} :: Get(Delete(cs, k, n), k2, n) == Some(m[k2])
  {
    var h := Hash(k, n);
    forall k2 | k2 in m - {k}
      ensures Get(Delete(cs, k, n), k2, n) == Some(m[k2])
    {
      assert Get(cs, k2, n) == Some(m[k2]);
      if Hash(k2, n) == h {
        RemoveFirstLookupOther(cs[h], k, k2);
      }
    }
  }

  /** Deletion implements key removal and keeps every invariant. */
  lemma DeleteRefines(cs: seq<seq<Entry>>, m: map<Text, Text>, n: int, k: Text)
    requires Represents(cs, m, n)
    ensures Represents(Delete(cs, k, n), m - {k}, n)
    ensures Count(Delete(cs, k, n)) == Count(cs) - if k in m then 1 else 0
  {
    var h := Hash(k, n);
    DeleteWellFormed(cs, n, k);
    DeleteKeysInMap(cs, m, n, k);
    DeleteLookups(cs, m, n, k);
    RemoveFirstShape(cs[h], k);
    CountUpdate(cs, h, RemoveFirst(cs[h], k));
    GetMatchesMap(cs, m, n, k);
    MapRemoveSize(m, k);
  }

  /** A lookup after an insertion sees the new value for its key, and every other key as before. */
  lemma GetAfterInsert(cs: seq<seq<Entry>>, n: int, k: Text, v: Text, k': Text)
    requires n > 0 && |cs| == n
    ensures Get(Insert(cs, k, v, n), k', n) == if k' == k then Some(v) else Get(cs, k', n)
  {
    var h := Hash(k, n);
    if k' == k {
      UpsertLookupSame(cs[h], k, v);
    } else if Hash(k', n) == h {
      UpsertLookupOther(cs[h], k, v, k');
    }
  }

  /** A lookup after a deletion misses its key and sees every other key as before. */
  lemma GetAfterDelete(cs: seq<seq<Entry>>, n: int, k: Text, k': Text)
    requires WellFormed(cs, n)
    ensures Get(Delete(cs, k, n), k', n) == if k' == k then None else Get(cs, k', n)
  {
    var h := Hash(k, n);
    assert BucketOk(cs, h, n);
    if k' == k {
      RemoveFirstLookupSame(cs[h], k);
    } else if Hash(k', n) == h {
      RemoveFirstLookupOther(cs[h], k, k');
    }
  }

  /** Inserting a key twice leaves one record, holding the second value. */
  lemma InsertTwice(cs: seq<seq<Entry>>, n: int, k: Text, v1: Text, v2: Text)
    requires n > 0 && |cs| == n
    ensures Insert(Insert(cs, k, v1, n), k, v2, n) == Insert(cs, k, v2, n)
  {
    UpsertTwice(cs[Hash(k, n)], k, v1, v2);
  }

  /** Deleting a key just inserted for the first time restores the table exactly. */
  lemma InsertThenDelete(cs: seq<seq<Entry>>, m: map<Text, Text>, n: int, k: Text, v: Text)
    requires Represents(cs, m, n)
    requires k !in m
    ensures Delete(Insert(cs, k, v, n), k, n) == cs
  {
    var h := Hash(k, n);
    GetMatchesMap(cs, m, n, k);
    assert Find(cs[h], k).None?;
    UpsertThenRemove(cs[h], k, v);
    assert Insert(cs, k, v, n)[h] == Upsert(cs[h], k, v);
    assert Delete(Insert(cs, k, v, n), k, n) == cs[h := cs[h]];
  }
}
