/**
 * One bucket of the table as a value: the list of (key, value) records in
 * chain order, head first. The operations here are the specifications that
 * the pointer-walking methods of module HashTable are proved against.
 */
module Chain {
  import opened Djb2

  datatype Option<T> = None | Some(value: T)

  /** The key and value held by one record (`struct node` without its link). */
  datatype Entry = Entry(key: Text, value: Text)

  /** No key occurs twice in the chain. */
  predicate UniqueKeys(c: seq<Entry>)
  {
    forall i, j | 0 <= i < j < |c| :: c[i].key != c[j].key
  }

  /** Position of the first record whose key is `k`, scanning from the head. */
  function Find(c: seq<Entry>, k: Text): (r: Option<nat>)
    ensures r.Some? ==> r.value < |c| && c[r.value].key == k
    ensures r.Some? ==> forall j | 0 <= j < r.value :: c[j].key != k
    ensures r.None? ==> forall j | 0 <= j < |c| :: c[j].key != k
    decreases |c|
  {
    if c == [] then None
    else if c[0].key == k then Some(0)
    else match Find(c[1..], k)
      case None => None
      case Some(i) => Some(i + 1)
  }

  /** The first position holding key `k` is what `Find` reports. */
  lemma FindIsFirst(c: seq<Entry>, k: Text, i: nat)
    requires i < |c| && c[i].key == k
    requires forall j | 0 <= j < i :: c[j].key != k
    ensures Find(c, k) == Some(i)
  {
  }

  /** The value of the first record whose key is `k`, if any. */
  function Lookup(c: seq<Entry>, k: Text): (r: Option<Text>)
    ensures r.None? <==> forall j | 0 <= j < |c| :: c[j].key != k
    ensures r.Some? ==>
      exists i | 0 <= i < |c| :: c[i] == Entry(k, r.value) && forall j | 0 <= j < i :: c[j].key != k
  {
    match Find(c, k)
    case None => None
    case Some(i) => Some(c[i].value)
  }

  /**
   * Insert-or-update on one chain: the first record with key `k` gets value
   * `v` in place; without one, a record (k, v) becomes the new head.
   */
  function Upsert(c: seq<Entry>, k: Text, v: Text): (r: seq<Entry>)
  {
    match Find(c, k)
    case Some(i) => c[i := Entry(k, v)]
    case None => [Entry(k, v)] + c
  }

  /** The sequence `s` with its element at position `i` taken out. */
  function Without<T>(s: seq<T>, i: nat): (r: seq<T>)
    requires i < |s|
  {
    s[..i] + s[i + 1..]
  }

  /** Taking out position `i` shifts every later element down by one. */
  lemma WithoutAt<T>(s: seq<T>, i: nat)
    requires i < |s|
    ensures |Without(s, i)| == |s| - 1
    ensures forall j | 0 <= j < |s| - 1 :: Without(s, i)[j] == if j < i then s[j] else s[j + 1]
  {
  }

  /** Unlinks the first record whose key is `k`; without one the chain is unchanged. */
  function RemoveFirst(c: seq<Entry>, k: Text): (r: seq<Entry>)
  {
    match Find(c, k)
    case Some(i) => Without(c, i)
    case None => c
  }

  /** With unique keys, the record holding key `k` determines the lookup. */
  lemma LookupUnique(c: seq<Entry>, k: Text, j: nat)
    requires UniqueKeys(c)
    requires j < |c| && c[j].key == k
    ensures Lookup(c, k) == Some(c[j].value)
  {
  }

  /** After an upsert of (k, v) a lookup of k yields v. */
  lemma UpsertLookupSame(c: seq<Entry>, k: Text, v: Text)
    ensures Lookup(Upsert(c, k, v), k) == Some(v)
  {
    var r := Upsert(c, k, v);
    match Find(c, k)
    case Some(i) =>
      FindIsFirst(r, k, i);
    case None =>
      FindIsFirst(r, k, 0);
  }

  /** An upsert of k leaves the lookup of every other key as it was. */
  lemma UpsertLookupOther(c: seq<Entry>, k: Text, v: Text, k': Text)
    requires k' != k
    ensures Lookup(Upsert(c, k, v), k') == Lookup(c, k')
  {
    var r := Upsert(c, k, v);
    match Find(c, k)
    case Some(i) =>
      assert forall j | 0 <= j < |c| :: r[j].key == c[j].key;
      assert Find(r, k') == Find(c, k');
    case None =>
      assert r[1..] == c;
      assert Find(r, k') == match Find(c, k') case None => None case Some(j) => Some(j + 1);
  }

  /**
   * An existing key is updated in place (same length, same keys in the same
   * order); a new key adds exactly one record, at the head.
   */
  lemma UpsertShape(c: seq<Entry>, k: Text, v: Text)
    ensures Find(c, k).Some? ==> |Upsert(c, k, v)| == |c|
    ensures Find(c, k).Some? ==> forall j | 0 <= j < |c| :: Upsert(c, k, v)[j].key == c[j].key
    ensures Find(c, k).None? ==> Upsert(c, k, v) == [Entry(k, v)] + c
  {
  }

  /** An upsert keeps the keys of a chain unique. */
  lemma UpsertUnique(c: seq<Entry>, k: Text, v: Text)
    requires UniqueKeys(c)
    ensures UniqueKeys(Upsert(c, k, v))
  {
    var r := Upsert(c, k, v);
    match Find(c, k)
    case Some(i) =>
      assert forall j | 0 <= j < |c| :: r[j].key == c[j].key;
    case None =>
      assert forall j | 1 <= j < |r| :: r[j] == c[j - 1];
  }

  /** Last write wins: a second upsert of the same key overrides the first. */
  lemma UpsertTwice(c: seq<Entry>, k: Text, v1: Text, v2: Text)
    ensures Upsert(Upsert(c, k, v1), k, v2) == Upsert(c, k, v2)
  {
    var r := Upsert(c, k, v1);
    match Find(c, k)
    case Some(i) =>
      FindIsFirst(r, k, i);
    case None =>
      FindIsFirst(r, k, 0);
      assert r[0 := Entry(k, v2)] == [Entry(k, v2)] + c;
  }

  /** The records that a removal keeps, in their original order. */
  lemma RemoveFirstShape(c: seq<Entry>, k: Text)
    ensures Find(c, k).Some? ==> |RemoveFirst(c, k)| == |c| - 1
    ensures Find(c, k).Some? ==> var i := Find(c, k).value;
      forall j | 0 <= j < |c| - 1 :: RemoveFirst(c, k)[j] == if j < i then c[j] else c[j + 1]
    ensures Find(c, k).None? ==> RemoveFirst(c, k) == c
  {
  }

  /** After removing key k from a chain with unique keys, k is absent. */
  lemma RemoveFirstLookupSame(c: seq<Entry>, k: Text)
    requires UniqueKeys(c)
    ensures Lookup(RemoveFirst(c, k), k).None?
  {
    var r := RemoveFirst(c, k);
    match Find(c, k)
    case Some(i) =>
      assert forall j | 0 <= j < |r| :: r[j] == if j < i then c[j] else c[j + 1];
    case None =>
  }

  /** Removing key k leaves the lookup of every other key as it was. */
  lemma RemoveFirstLookupOther(c: seq<Entry>, k: Text, k': Text)
    requires k' != k
    ensures Lookup(RemoveFirst(c, k), k') == Lookup(c, k')
  {
    var r := RemoveFirst(c, k);
    match Find(c, k)
    case Some(i) =>
      assert forall j | 0 <= j < |r| :: r[j] == if j < i then c[j] else c[j + 1];
      match Find(c, k') {
        case None =>
        case Some(j) =>
          if j < i {
            FindIsFirst(r, k', j);
          } else {
            FindIsFirst(r, k', j - 1);
          }
      }
    case None =>
  }

  /** A removal keeps the keys of a chain unique. */
  lemma RemoveFirstUnique(c: seq<Entry>, k: Text)
    requires UniqueKeys(c)
    ensures UniqueKeys(RemoveFirst(c, k))
  {
    var r := RemoveFirst(c, k);
    match Find(c, k)
    case Some(i) =>
      assert forall j | 0 <= j < |r| :: r[j] == if j < i then c[j] else c[j + 1];
    case None =>
  }

  /** Inserting a new key and then deleting it gives back the original chain. */
  lemma UpsertThenRemove(c: seq<Entry>, k: Text, v: Text)
    requires Find(c, k).None?
    ensures RemoveFirst(Upsert(c, k, v), k) == c
  {
    var r := Upsert(c, k, v);
    FindIsFirst(r, k, 0);
    assert Without(r, 0) == c;
  }
}
