/**
 * The demonstration run of `main`: four phone-book entries go into a table
 * of 101 buckets, two names are looked up, the table is listed, two names
 * are deleted, and the table is listed again. Keys and values are the bytes
 * of their ASCII text.
 */
module Demo {
  import opened Djb2
  import opened Chain
  import Buckets
  import opened HashTable

  /** `table_size`. */
  const TableSize: nat := 101

  /** "Charlie" */
  const Charlie: Text := [67, 104, 97, 114, 108, 105, 101]
  /** "Mac" */
  const Mac: Text := [77, 97, 99]
  /** "Dee" */
  const Dee: Text := [68, 101, 101]
  /** "Dennis" */
  const Dennis: Text := [68, 101, 110, 110, 105, 115]
  /** "Agamemnon" */
  const Agamemnon: Text := [65, 103, 97, 109, 101, 109, 110, 111, 110]

  /** "(634) 466-1630" */
  const CharliePhone: Text := [40, 54, 51, 52, 41, 32, 52, 54, 54, 45, 49, 54, 51, 48]
  /** "1-436-705-3673" */
  const MacPhone: Text := [49, 45, 52, 51, 54, 45, 55, 48, 53, 45, 51, 54, 55, 51]
  /** "1-214-717-1808" */
  const DeePhone: Text := [49, 45, 50, 49, 52, 45, 55, 49, 55, 45, 49, 56, 48, 56]
  /** "(491) 584-6065" */
  const DennisPhone: Text := [40, 52, 57, 49, 41, 32, 53, 56, 52, 45, 54, 48, 54, 53]

  /*
   * The buckets of the demonstration keys, in the table of 101 buckets and in
   * one of 11, each read off the accumulator trace of its DJB2 loop.
   */

  lemma CharlieBucket()
    ensures Hash(Charlie, TableSize) == 68
    ensures Hash(Charlie, 11) == 2
  {
    Djb2FromTrace(Seed, Charlie,
      [5381, 177640, 5862224, 193453489, 6383965251, 210670853391, 6952138162008, 229420559346365]);
  }

  lemma MacBucket()
    ensures Hash(Mac, TableSize) == 64
    ensures Hash(Mac, 11) == 0
  {
    Djb2FromTrace(Seed, Mac, [5381, 177650, 5862547, 193464150]);
  }

  lemma DeeBucket()
    ensures Hash(Dee, TableSize) == 93
    ensures Hash(Dee, 11) == 2
  {
    Djb2FromTrace(Seed, Dee, [5381, 177641, 5862254, 193454483]);
  }

  lemma DennisBucket()
    ensures Hash(Dennis, TableSize) == 30
    ensures Hash(Dennis, 11) == 5
  {
    Djb2FromTrace(Seed, Dennis, [5381, 177641, 5862254, 193454492, 6383998346, 210671945523, 6952174202374]);
  }

  lemma AgamemnonDjb2()
    ensures Djb2Value(Agamemnon) == 249836133488690936
  {
    Djb2FromTrace(Seed, Agamemnon,
      [5381, 177638, 5862157, 193451278, 6383892283, 210668445440, 6952058699629,
       229417937087867, 7570791923899722, 249836133488690936]);
  }

  lemma AgamemnonBucket()
    ensures Hash(Agamemnon, TableSize) == 92
    ensures Hash(Agamemnon, 11) == 0
  {
    AgamemnonDjb2();
  }

  /**
   * Chains are most-recent-first: in a table of 11 buckets Dee and Charlie
   * share bucket 2, and inserting Dee and then Charlie lists Charlie first.
   */
  lemma MostRecentFirst()
    ensures
      var cs := Buckets.Insert(Buckets.Empty(11), Dee, DeePhone, 11);
      Buckets.Insert(cs, Charlie, CharliePhone, 11)[2] == [Entry(Charlie, CharliePhone), Entry(Dee, DeePhone)]
  {
    DeeBucket();
    CharlieBucket();
    var c := Buckets.Insert(Buckets.Empty(11), Dee, DeePhone, 11)[2];
    assert c == [Entry(Dee, DeePhone)];
    assert Find(c, Charlie).None? by {
      assert c[0].key != Charlie;
    }
  }

  /** The records the first `print_table` lists: one per occupied bucket, all others empty. */
  function FirstListing(): seq<seq<Entry>>
  {
    Buckets.Empty(TableSize)
      [30 := [Entry(Dennis, DennisPhone)]]
      [64 := [Entry(Mac, MacPhone)]]
      [68 := [Entry(Charlie, CharliePhone)]]
      [93 := [Entry(Dee, DeePhone)]]
  }

  /** On the first listing, Agamemnon's bucket (92) is empty: the lookup finds nothing and deleting changes nothing. */
  lemma AgamemnonAbsent()
    ensures FirstListing()[Hash(Agamemnon, TableSize)] == []
    ensures Buckets.Get(FirstListing(), Agamemnon, TableSize) == None
    ensures Buckets.Delete(FirstListing(), Agamemnon, TableSize) == FirstListing()
  {
    AgamemnonBucket();
    var cs := FirstListing();
    assert cs[92] == [];
    assert RemoveFirst(cs[92], Agamemnon) == [];
    assert cs[92 := []] == cs;
  }

  /** On the first listing, Dennis is the only record of bucket 30: the lookup finds him and deleting empties the bucket. */
  lemma DennisPresent()
    ensures Buckets.Get(FirstListing(), Dennis, TableSize) == Some(DennisPhone)
    ensures Buckets.Delete(FirstListing(), Dennis, TableSize) == FirstListing()[30 := []]
  {
    DennisBucket();
    var c := FirstListing()[30];
    assert c == [Entry(Dennis, DennisPhone)];
    FindIsFirst(c, Dennis, 0);
    assert RemoveFirst(c, Dennis) == [];
  }

  /** The listing after the first two insertions of `main`. */
  function HalfListing(): seq<seq<Entry>>
  {
    Buckets.Empty(TableSize)[68 := [Entry(Charlie, CharliePhone)]][64 := [Entry(Mac, MacPhone)]]
  }

  /** An `insert` of a key whose bucket `b` is still empty: the record becomes that bucket's only one. */
  method InsertIntoEmpty(t: Table, key: Text, value: Text, b: nat)
    requires t.Valid() && b < t.size && Hash(key, t.size) == b && t.Chains[b] == []
    modifies t.Repr
    ensures t.Valid() && fresh(t.Repr - old(t.Repr))
    ensures t.Chains == old(t.Chains)[b := [Entry(key, value)]]
  {
    assert [Entry(key, value)] + t.Chains[b] == [Entry(key, value)];
    t.Insert(key, value);
  }

  /** The first two `insert` calls of `main`, on the table of empty buckets. */
  method InsertFirstTwo(t: Table)
    requires t.Valid() && t.size == TableSize && t.Chains == Buckets.Empty(TableSize)
    modifies t.Repr
    ensures t.Valid() && fresh(t.Repr - old(t.Repr))
    ensures t.size == TableSize && t.Chains == HalfListing()
  {
    CharlieBucket();
    InsertIntoEmpty(t, Charlie, CharliePhone, 68);
    MacBucket();
    InsertIntoEmpty(t, Mac, MacPhone, 64);
  }

  /** The last two `insert` calls of `main`. */
  method InsertLastTwo(t: Table)
    requires t.Valid() && t.size == TableSize && t.Chains == HalfListing()
    modifies t.Repr
    ensures t.Valid() && fresh(t.Repr - old(t.Repr))
    ensures t.size == TableSize && t.Chains == FirstListing()
  {
    DeeBucket();
    InsertIntoEmpty(t, Dee, DeePhone, 93);
    DennisBucket();
    InsertIntoEmpty(t, Dennis, DennisPhone, 30);
  }

  /** The two `get` calls and the first `print_table` of `main`: Agamemnon is missing, Dennis is found. */
  method Lookups(t: Table) returns (agamemnon: Option<Text>, dennis: Option<Text>, listing: seq<seq<Entry>>)
    requires t.Valid() && t.size == TableSize && t.Chains == FirstListing()
    ensures agamemnon == None && dennis == Some(DennisPhone)
    ensures listing == FirstListing()
  {
    AgamemnonAbsent();
    DennisPresent();
    agamemnon := t.Get(Agamemnon);
    dennis := t.Get(Dennis);
    listing := t.Enumerate();
  }

  /**
   * The two `delete` calls and the second `print_table` of `main`: Agamemnon's
   * bucket is empty, Dennis is unlinked, and only his bucket changes.
   */
  method Deletions(t: Table) returns (first: DeleteOutcome, second: DeleteOutcome, listing: seq<seq<Entry>>)
    requires t.Valid() && t.size == TableSize && t.Chains == FirstListing()
    modifies t.Repr
    ensures first == NoNodes && second == Deleted
    ensures listing == FirstListing()[30 := []]
  {
    AgamemnonAbsent();
    DennisPresent();
    Buckets.GetMatchesMap(t.Chains, t.Contents, t.size, Dennis);
    first := t.Delete(Agamemnon);
    second := t.Delete(Dennis);
    listing := t.Enumerate();
  }

  /**
   * `main`: on a table of 101 empty buckets, four insertions, two lookups,
   * a listing, two deletions and a second listing, with the results the
   * output transcript in the source file shows.
   */
  method Run() returns (agamemnon: Option<Text>, dennis: Option<Text>, before: seq<seq<Entry>>,
                        first: DeleteOutcome, second: DeleteOutcome, after: seq<seq<Entry>>)
    ensures agamemnon == None && dennis == Some(DennisPhone)
    ensures before == FirstListing()
    ensures first == NoNodes && second == Deleted
    ensures after == FirstListing()[30 := []]
  {
    var t := new Table(TableSize);
    InsertFirstTwo(t);
    InsertLastTwo(t);
    agamemnon, dennis, before := Lookups(t);
    first, second, after := Deletions(t);
  }
}
