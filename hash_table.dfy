/**
 * The hash table itself: an array of bucket head pointers, each the start of
 * a singly-linked chain of heap-allocated records, mutated in place.
 *
 * The ghost field `Spine` lists, per bucket, the nodes reachable from its
 * head in chain order; `Chains` lists the (key, value) pairs they hold; and
 * `Contents` is the key -> value map the table stands for. `Valid()` ties the
 * pointers to `Spine`, the node fields to `Chains`, and `Chains` to
 * `Contents` (through `Buckets.Represents`). Two positions of `Spine` never
 * hold the same node: a node's key fixes its bucket (by its hash) and its
 * position (keys are unique in a chain), which is what lets one node be
 * updated without disturbing any other.
 */
module HashTable {
  import opened Djb2
  import opened Chain
  import Buckets

  /** `struct node`: one record and its link. The key never changes once the node exists. */
  class Node {
    const key: Text
    var value: Text
    var next: Node?

    constructor (key: Text, value: Text, next: Node?)
      ensures this.key == key && this.value == value && this.next == next
    {
      this.key := key;
      this.value := value;
      this.next := next;
    }
  }

  /** The three outcomes `delete` reports. */
  datatype DeleteOutcome = NoNodes | KeyNotFound | Deleted

  /** The pointer a chain's head slot holds: its first node, or null when empty. */
  function HeadOf(s: seq<Node>): (r: Node?)
  {
    if s == [] then null else s[0]
  }

  /** The node at position `i` of a chain, or null one past its end. */
  function NodeAt(s: seq<Node>, i: nat): (r: Node?)
    requires i <= |s|
  {
    if i < |s| then s[i] else null
  }

  /** The node at position `j` links to the one after it (null after the last). */
  ghost predicate LinkedAt(s: seq<Node>, j: nat)
    requires j < |s|
    reads s[j]
  {
    s[j].next == NodeAt(s, j + 1)
  }

  /**
   * The nodes `s`, reached from `head` by following `next` until null, hold
   * the records `c` in the same order.
   */
  ghost predicate ChainHolds(head: Node?, s: seq<Node>, c: seq<Entry>)
    reads s
  {
    && head == HeadOf(s)
    && |s| == |c|
    && (forall j | 0 <= j < |s| :: s[j].key == c[j].key && s[j].value == c[j].value)
    && (forall j | 0 <= j < |s| :: LinkedAt(s, j))
  }

  /** A node that points at the head of a chain extends it by one record at the front. */
  lemma ConsHolds(node: Node, s: seq<Node>, c: seq<Entry>)
    requires ChainHolds(node.next, s, c)
    ensures ChainHolds(node, [node] + s, [Entry(node.key, node.value)] + c)
  {
    var s' := [node] + s;
    forall j | 0 <= j < |s'|
      ensures LinkedAt(s', j)
    {
      if j > 0 {
        assert LinkedAt(s, j - 1);
      }
    }
  }

  /** Dropping the first node of a chain leaves a chain that starts at its successor. */
  lemma TailHolds(head: Node?, s: seq<Node>, c: seq<Entry>)
    requires ChainHolds(head, s, c) && s != []
    ensures ChainHolds(s[0].next, s[1..], c[1..])
  {
    assert LinkedAt(s, 0);
    forall j | 0 <= j < |s| - 1
      ensures LinkedAt(s[1..], j)
    {
      assert LinkedAt(s, j + 1);
    }
  }

  class Table {
    /** `table_size`: the number of buckets. */
    const size: nat
    /** `table`: one head pointer per bucket. */
    const buckets: array<Node?>

    ghost var Spine: seq<seq<Node>>
    ghost var Chains: seq<seq<Entry>>
    ghost var Contents: map<Text, Text>
    ghost var Repr: set<object>

    /**
     * The pointer structure: each head slot starts the chain `Spine[b]`,
     * whose nodes hold the records `Chains[b]`, and the records are placed
     * by hash with unique keys per bucket.
     */
    ghost predicate Linked()
      reads this, Repr
    {
      && this in Repr
      && buckets in Repr
      && buckets.Length == size
      && |Spine| == size
      && Buckets.WellFormed(Chains, size)
      && (forall b, j | 0 <= b < size && 0 <= j < |Spine[b]| :: Spine[b][j] in Repr)
      && (forall b | 0 <= b < size :: ChainHolds(buckets[b], Spine[b], Chains[b]))
    }

    /** The table invariant: the pointer structure, and the records stand for `Contents`. */
    ghost predicate Valid()
      reads this, Repr
      ensures Valid() ==> this in Repr
    {
      Linked() && Buckets.Represents(Chains, Contents, size)
    }

    /** A node of the table sits at exactly one position of exactly one chain. */
    lemma NodeUnique(b: nat, j: nat)
      requires Linked()
      requires b < size && j < |Spine[b]|
      ensures forall b', j' | 0 <= b' < size && 0 <= j' < |Spine[b']| && Spine[b'][j'] == Spine[b][j] ::
                b' == b && j' == j
    {
      forall b', j' | 0 <= b' < size && 0 <= j' < |Spine[b']| && Spine[b'][j'] == Spine[b][j]
        ensures b' == b && j' == j
      {
        assert Buckets.BucketOk(Chains, b, size) && Buckets.BucketOk(Chains, b', size);
        assert Chains[b'][j'].key == Chains[b][j].key;
      }
    }

    /**
     * The node at position `i` of chain `h` and its predecessor occur in no
     * other chain; the predecessor nowhere else in chain `h`; and the node
     * is gone once its position is taken out.
     */
    lemma Neighbours(h: nat, i: nat)
      requires Linked()
      requires h < size && 0 < i < |Spine[h]|
      ensures forall b | 0 <= b < size && b != h :: Spine[h][i - 1] !in Spine[b] && Spine[h][i] !in Spine[b]
      ensures forall j | 0 <= j < |Spine[h]| && j != i - 1 :: Spine[h][j] != Spine[h][i - 1]
      ensures Spine[h][i] !in Without(Spine[h], i)
    {
      NodeUnique(h, i);
      NodeUnique(h, i - 1);
      WithoutAt(Spine[h], i);
    }

    /** The table of `n` empty buckets (`table[...] = {NULL}`). */
    constructor (n: nat)
      requires n > 0
      ensures Valid() && fresh(Repr)
      ensures size == n && Contents == map[] && Chains == Buckets.Empty(n)
      ensures forall b | 0 <= b < n :: Spine[b] == []
    {
      size := n;
      buckets := new Node?[n](_ => null);
      Spine := seq(n, _ => []);
      Chains := Buckets.Empty(n);
      Contents := map[];
      new;
      Repr := {this, buckets};
      Buckets.EmptyRepresents(n);
    }

    /**
     * `get`: walk the key's chain from its head and return the value of the
     * first node with that key, or None when the chain runs out.
     */
    method Get(key: Text) returns (r: Option<Text>)
      requires Valid()
      ensures r == Buckets.Get(Chains, key, size)
      ensures r == if key in Contents then Some(Contents[key]) else None
    {
      var index := HashIndex(key, size);
      var node := buckets[index];
      ghost var i := 0;
      while node != null
        invariant 0 <= i <= |Spine[index]|
        invariant node == NodeAt(Spine[index], i)
        invariant forall j | 0 <= j < i :: Chains[index][j].key != key
        decreases |Spine[index]| - i
      {
        if node.key == key {
          FindIsFirst(Chains[index], key, i);
          Buckets.GetMatchesMap(Chains, Contents, size, key);
          return Some(node.value);
        }
        assert LinkedAt(Spine[index], i);
        node := node.next;
        i := i + 1;
      }
      Buckets.GetMatchesMap(Chains, Contents, size, key);
      return None;
    }

    /**
     * `insert`: if the key's chain has a node with that key, replace its
     * value in place (no node added, every node keeps its position);
     * otherwise allocate a node and link it in as the new head of the chain.
     * Only that one bucket changes.
     */
    method Insert(key: Text, value: Text)
      requires Valid()
      modifies Repr
      ensures Valid() && fresh(Repr - old(Repr))
      ensures Contents == old(Contents)[key := value]
      ensures Chains == Buckets.Insert(old(Chains), key, value, size)
      ensures Buckets.Count(Chains) == Buckets.Count(old(Chains)) + if key in old(Contents) then 0 else 1
      ensures key in old(Contents) ==> Spine == old(Spine)
      ensures key !in old(Contents) ==>
        var h := Hash(key, size);
        && Spine == old(Spine)[h := Spine[h]]
        && Spine[h] != [] && fresh(Spine[h][0]) && Spine[h][1..] == old(Spine)[h]
    {
      var index := HashIndex(key, size);
      var current := buckets[index];
      ghost var i := 0;
      while current != null
        invariant 0 <= i <= |Spine[index]|
        invariant current == NodeAt(Spine[index], i)
        invariant forall j | 0 <= j < i :: Chains[index][j].key != key
        decreases |Spine[index]| - i
      {
        if current.key == key {
          break;
        }
        assert LinkedAt(Spine[index], i);
        current := current.next;
        i := i + 1;
      }
      Buckets.InsertRefines(Chains, Contents, size, key, value);
      Buckets.GetMatchesMap(Chains, Contents, size, key);
      if current != null {
        // The key exists: update the value of its node.
        FindIsFirst(Chains[index], key, i);
        SetValue(index, i, current, value, Buckets.Insert(Chains, key, value, size), Contents[key := value]);
      } else {
        // A new key: prepend a node to the chain.
        assert Find(Chains[index], key).None?;
        var node := new Node(key, value, buckets[index]);
        PushFront(index, node, Buckets.Insert(Chains, key, value, size), Contents[key := value]);
      }
    }

    /** The update branch of `insert`: overwrite the value of the node at position `i` of chain `h`. */
    method SetValue(h: nat, ghost i: nat, node: Node, value: Text, ghost chains: seq<seq<Entry>>, ghost contents: map<Text, Text>)
      requires Linked()
      requires h < size && i < |Spine[h]| && node == Spine[h][i]
      requires chains == Chains[h := Chains[h][i := Entry(node.key, value)]]
      requires Buckets.WellFormed(chains, size)
      modifies this, node
      ensures Linked() && Repr == old(Repr) && Spine == old(Spine)
      ensures Chains == chains && Contents == contents
    {
      NodeUnique(h, i);
      ghost var s := Spine[h];
      assert ChainHolds(buckets[h], s, Chains[h]);
      node.value := value;
      Chains := chains;
      Contents := contents;
      forall j | 0 <= j < |s|
        ensures s[j].value == chains[h][j].value && LinkedAt(s, j)
      {
        assert old(LinkedAt(s, j));
      }
      assert ChainHolds(buckets[h], s, chains[h]);
      forall b | 0 <= b < size && b != h
        ensures node !in Spine[b]
      {
      }
    }

    /** The new-key branch of `insert`: make `node`, which points at the old head, the head of chain `h`. */
    method PushFront(h: nat, node: Node, ghost chains: seq<seq<Entry>>, ghost contents: map<Text, Text>)
      requires Linked()
      requires h < size && node !in Repr && node.next == buckets[h]
      requires chains == Chains[h := [Entry(node.key, node.value)] + Chains[h]]
      requires Buckets.WellFormed(chains, size)
      modifies this, buckets
      ensures Linked() && Repr == old(Repr) + {node}
      ensures Spine == old(Spine)[h := [node] + old(Spine)[h]]
      ensures Chains == chains && Contents == contents
    {
      ConsHolds(node, Spine[h], Chains[h]);
      buckets[h] := node;
      Spine := Spine[h := [node] + Spine[h]];
      Chains := chains;
      Contents := contents;
      Repr := Repr + {node};
    }

    /**
     * `delete`: on an empty bucket report NoNodes; otherwise walk the chain
     * with a trailing `prev` pointer and unlink the first node with the key;
     * report KeyNotFound when the chain runs out.
     */
    method Delete(key: Text) returns (outcome: DeleteOutcome)
      requires Valid()
      modifies Repr
      ensures Valid() && fresh(Repr - old(Repr))
      ensures outcome == NoNodes <==> old(Chains)[Hash(key, size)] == []
      ensures outcome == Deleted <==> key in old(Contents)
      ensures Contents == old(Contents) - {key}
      ensures Chains == Buckets.Delete(old(Chains), key, size)
      ensures Buckets.Count(Chains) == Buckets.Count(old(Chains)) - if outcome == Deleted then 1 else 0
      ensures outcome != Deleted ==> Spine == old(Spine) && Chains == old(Chains) && Contents == old(Contents)
      ensures outcome == Deleted ==>
        var h := Hash(key, size);
        && Find(old(Chains)[h], key).Some?
        && Spine == old(Spine)[h := Without(old(Spine)[h], Find(old(Chains)[h], key).value)]
    {
      var index := HashIndex(key, size);
      if buckets[index] == null {
        assert ChainHolds(buckets[index], Spine[index], Chains[index]);
        Buckets.DeleteAbsent(Chains, Contents, size, key);
        return NoNodes;
      }
      var prev, ptr, i := Locate(index, key);
      if ptr == null {
        Buckets.DeleteAbsent(Chains, Contents, size, key);
        return KeyNotFound;
      }
      Unlink(index, i, prev, ptr, key);
      return Deleted;
    }

    /**
     * The unlinking step of `delete`, once `ptr` is the first node of chain
     * `h` holding `key`: the head slot (when `prev` is null) or `prev.next`
     * takes over `ptr`'s successor, and the table then stands for the old
     * map without `key`.
     */
    method Unlink(h: nat, ghost i: nat, prev: Node?, ptr: Node, key: Text)
      requires Valid() && h == Hash(key, size)
      requires i < |Spine[h]| && ptr == Spine[h][i] && prev == (if i == 0 then null else Spine[h][i - 1])
      requires Find(Chains[h], key) == Some(i)
      modifies this, buckets, prev
      ensures Valid() && Repr == old(Repr) - {ptr}
      ensures Contents == old(Contents) - {key} && key in old(Contents)
      ensures Chains == Buckets.Delete(old(Chains), key, size)
      ensures Spine == old(Spine)[h := Without(old(Spine)[h], i)]
    {
      Buckets.DeleteRefines(Chains, Contents, size, key);
      Buckets.GetMatchesMap(Chains, Contents, size, key);
      if prev == null {
        assert Without(Spine[h], 0) == Spine[h][1..];
        assert Without(Chains[h], 0) == Chains[h][1..];
        UnlinkHead(h, ptr, Buckets.Delete(Chains, key, size), Contents - {key});
      } else {
        UnlinkAfter(h, i, prev, ptr, Buckets.Delete(Chains, key, size), Contents - {key});
      }
    }

    /**
     * The search loop of `delete`: walks chain `h` with a trailing `prev`
     * pointer until `ptr` is the first node holding `key`, or null. Reports
     * the position reached; `Find` on the chain's records agrees with it.
     */
    method Locate(h: nat, key: Text) returns (prev: Node?, ptr: Node?, ghost i: nat)
      requires Linked() && h < size
      ensures i <= |Spine[h]| && ptr == NodeAt(Spine[h], i)
      ensures prev == if i == 0 then null else Spine[h][i - 1]
      ensures ptr == null <==> Find(Chains[h], key).None?
      ensures ptr != null ==> Find(Chains[h], key) == Some(i)
    {
      ptr := buckets[h];
      prev := null;
      i := 0;
      assert ChainHolds(buckets[h], Spine[h], Chains[h]);
      while ptr != null
        invariant 0 <= i <= |Spine[h]|
        invariant ptr == NodeAt(Spine[h], i)
        invariant prev == if i == 0 then null else Spine[h][i - 1]
        invariant forall j | 0 <= j < i :: Chains[h][j].key != key
        decreases |Spine[h]| - i
      {
        if ptr.key == key {
          FindIsFirst(Chains[h], key, i);
          return;
        }
        assert LinkedAt(Spine[h], i);
        prev := ptr;
        ptr := ptr.next;
        i := i + 1;
      }
    }

    /** Unlinking the head of `delete`'s chain: the head slot takes over the first node's successor. */
    method UnlinkHead(h: nat, ptr: Node, ghost chains: seq<seq<Entry>>, ghost contents: map<Text, Text>)
      requires Linked()
      requires h < size && Spine[h] != [] && ptr == Spine[h][0]
      requires chains == Chains[h := Chains[h][1..]]
      requires Buckets.WellFormed(chains, size)
      modifies this, buckets
      ensures Linked() && Repr == old(Repr) - {ptr}
      ensures Spine == old(Spine)[h := old(Spine)[h][1..]]
      ensures Chains == chains && Contents == contents
    {
      NodeUnique(h, 0);
      TailHolds(buckets[h], Spine[h], Chains[h]);
      buckets[h] := ptr.next;
      Spine := Spine[h := Spine[h][1..]];
      Chains := chains;
      Contents := contents;
      Repr := Repr - {ptr};
    }

    /** Unlinking a later node of `delete`'s chain: its predecessor `prev` takes over its successor. */
    method UnlinkAfter(h: nat, ghost i: nat, prev: Node, ptr: Node, ghost chains: seq<seq<Entry>>, ghost contents: map<Text, Text>)
      requires Linked()
      requires h < size && 0 < i < |Spine[h]| && ptr == Spine[h][i] && prev == Spine[h][i - 1]
      requires chains == Chains[h := Without(Chains[h], i)]
      requires Buckets.WellFormed(chains, size)
      modifies this, prev
      ensures Linked() && Repr == old(Repr) - {ptr}
      ensures Spine == old(Spine)[h := Without(old(Spine)[h], i)]
      ensures Chains == chains && Contents == contents
    {
      Neighbours(h, i);
      ghost var s := Spine[h];
      ghost var s' := Without(s, i);
      WithoutAt(s, i);
      assert ChainHolds(buckets[h], s, Chains[h]);
      assert LinkedAt(s, i);
      ghost var spine := Spine[h := s'];
      ghost var repr := Repr - {ptr};
      forall b, j | 0 <= b < size && 0 <= j < |spine[b]|
        ensures spine[b][j] in repr
      {
        if b == h {
          assert spine[b][j] == s'[j];
        }
      }
      Spine := spine;
      Chains := chains;
      Contents := contents;
      Repr := repr;
      prev.next := ptr.next;
      forall j | 0 <= j < |s'|
        ensures s'[j].key == chains[h][j].key && s'[j].value == chains[h][j].value && LinkedAt(s', j)
      {
        if j < i - 1 {
          assert old(LinkedAt(s, j));
        } else if j >= i {
          assert old(LinkedAt(s, j + 1));
        }
      }
      forall b | 0 <= b < size
        ensures ChainHolds(buckets[b], Spine[b], Chains[b])
      {
        if b != h {
          assert old(ChainHolds(buckets[b], Spine[b], Chains[b]));
        }
      }
    }

    /**
     * The traversal of `print_table`: every bucket in index order, each as
     * the list of its records in chain order (empty buckets included).
     */
    method Enumerate() returns (rows: seq<seq<Entry>>)
      requires Valid()
      ensures rows == Chains
      ensures Buckets.Represents(rows, Contents, size)
    {
      rows := [];
      for b := 0 to size
        invariant rows == Chains[..b]
      {
        var row := [];
        var cursor := buckets[b];
        ghost var j := 0;
        while cursor != null
          invariant 0 <= j <= |Spine[b]|
          invariant cursor == NodeAt(Spine[b], j)
          invariant row == Chains[b][..j]
          decreases |Spine[b]| - j
        {
          assert LinkedAt(Spine[b], j);
          assert Entry(cursor.key, cursor.value) == Chains[b][j];
          assert Chains[b][..j + 1] == Chains[b][..j] + [Chains[b][j]];
          row := row + [Entry(cursor.key, cursor.value)];
          cursor := cursor.next;
          j := j + 1;
        }
        assert row == Chains[b];
        assert Chains[..b + 1] == Chains[..b] + [Chains[b]];
        rows := rows + [row];
      }
      assert Chains[..size] == Chains;
    }
  }
}
