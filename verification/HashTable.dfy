/** The hash table as src/core/hashtable.cpp builds it: an array of chain heads, buckets linked
    through `next`, and updates in place. Each operation is proved against its step on the
    value-level table of ChainedTable.dfy.
  */
module HashTable {
  import opened Hashing
  import opened KeyedLists
  import opened ChainedTable
  import opened TableLaws

  class Bucket {
    const key: CString
    var value: Ptr
    var next: Bucket?

    constructor (key: CString, value: Ptr)
      ensures this.key == key && this.value == value && next == null
    {
      this.key := key;
      this.value := value;
      next := null;
    }
  }

  /** The bucket at position `j` of a chain, or NULL behind its end. */
  function At(chain: seq<Bucket>, j: nat): Bucket? {
    if j < |chain| then chain[j] else null
  }

  /** From `head` the buckets of `chain` are linked in order, end in NULL and hold `entries`. */
  ghost predicate Linked(head: Bucket?, chain: seq<Bucket>, entries: seq<Entry>)
    reads chain
  {
    && |chain| == |entries|
    && head == At(chain, 0)
    && (forall j {:trigger chain[j].next} :: 0 <= j < |chain| ==> chain[j].next == At(chain, j + 1))
    && (forall j :: 0 <= j < |chain| ==> entries[j] == Entry(chain[j].key, chain[j].value))
    && (forall j, k :: 0 <= j < k < |chain| ==> chain[j] != chain[k])
  }

  class Hashtable {
    var buckets: array<Bucket?>
    var size: nat
    var len: int
    var dynamic: bool

    /** The buckets and the entries of every chain, and the buckets the table owns. */
    ghost var chains: seq<seq<Bucket>>
    ghost var contents: seq<seq<Entry>>
    ghost var nodes: set<Bucket>
    ghost var moved: nat

    /** The table as a value. */
    ghost function State(): Table
      reads this
    {
      Table(contents, len, dynamic, moved)
    }

    /** Every chain is linked from its head; its buckets are owned and belong to that chain. */
    ghost predicate Shape()
      reads this, buckets, nodes
    {
      && size == buckets.Length == |chains| == |contents| > 0
      && (forall i :: 0 <= i < size ==> ChainShape(i))
    }

    ghost predicate ChainShape(i: nat)
      requires i < size == buckets.Length == |chains| == |contents|
      reads this, buckets, nodes
    {
      && (forall b :: b in chains[i] ==> b in nodes && ChainOf(b.key, size) == i)
      && Linked(buckets[i], chains[i], contents[i])
    }

    ghost predicate Valid()
      reads this, buckets, nodes
    {
      Shape() && WellFormed(State())
    }

    /** newHashTable and newHashTable2. */
    constructor (size: nat, dynamic: bool)
      requires size > 0
      ensures Valid() && fresh(buckets) && nodes == {}
      ensures State() == Fresh(size, dynamic)
    {
      buckets := new Bucket?[size](i => null);
      this.size, this.len, this.dynamic := size, 0, dynamic;
      chains, nodes, moved := seq(size, i => []), {}, 0;
      contents := Fresh(size, dynamic).chains;
      new;
      FreshIsEmpty(size, dynamic);
    }

    /** No bucket is in two chains, since its key decides the chain. */
    lemma Apart(index: nat)
      requires Shape() && index < size
      ensures forall i, b :: 0 <= i < size && i != index && b in chains[i] ==> b !in chains[index]
    {
      assert ChainShape(index);
      forall i, b | 0 <= i < size && i != index && b in chains[i]
        ensures b !in chains[index]
      {
        assert ChainShape(i);
      }
    }

    /** A change that is confined to one chain keeps the shape if it keeps that chain's. */
    twostate lemma OthersKept(index: nat)
      requires old(Shape()) && buckets == old(buckets) && size == old(size) && old(nodes) <= nodes
      requires |chains| == |contents| == size && index < size && ChainShape(index)
      requires forall i :: 0 <= i < size && i != index ==>
                 chains[i] == old(chains[i]) && contents[i] == old(contents[i]) && buckets[i] == old(buckets[i])
      requires forall b :: b in old(nodes) && b !in old(chains[index]) ==> unchanged(b)
      ensures Shape()
    {
      forall i | 0 <= i < size && i != index
        ensures ChainShape(i)
      {
        assert old(ChainShape(i));
        assert old(ChainShape(index));
      }
    }

    /** Hangs a bucket behind the last one of its chain. */
    method Attach(b: Bucket)
      requires Shape() && b !in nodes && b.next == null
      modifies this, buckets, nodes
      ensures Shape() && nodes == old(nodes) + {b} && buckets == old(buckets)
      ensures var index := ChainOf(b.key, size);
              contents == old(contents)[index := old(contents)[index] + [Entry(b.key, b.value)]]
      ensures size == old(size) && dynamic == old(dynamic) && moved == old(moved) && len == old(len) + 1
    {
      var index := IndexOf(b.key, size);
      ghost var chain, entries := chains[index], contents[index];
      assert ChainShape(index);
      Apart(index);
      Hang(buckets, index, b, chain, entries);
      len := len + 1;
      chains := chains[index := chain + [b]];
      contents := contents[index := entries + [Entry(b.key, b.value)]];
      nodes := nodes + {b};
      OthersKept(index);
    }

    /** The part of insertIntoHashTable that both modes share. */
    method AppendBucket(key: CString, value: Ptr)
      requires Valid() && !Full(State())
      modifies this, buckets, nodes
      ensures Valid() && (forall b :: b in nodes ==> b in old(nodes) || fresh(b)) && buckets == old(buckets)
      ensures State() == Append(old(State()), Entry(key, value))
    {
      AppendFits(State(), Entry(key, value));
      var b := new Bucket(key, value);
      Attach(b);
    }

    /** A full doubling table first re-inserts everything, by recursive calls, into a table of
        twice the size and takes that table over. */
    method InsertIntoHashTable(key: CString, value: Ptr) returns (rc: Ptr)
      requires Valid()
      modifies this, buckets, nodes
      ensures Valid() && (forall b :: b in nodes ==> b in old(nodes) || fresh(b)) && (buckets == old(buckets) || fresh(buckets))
      ensures (State(), rc) == Step(old(State()), Insert(key, value))
      decreases Full(State()), 3
    {
      if dynamic {
        if len >= size {
          Double();
        }
        AppendBucket(key, value);
      } else {
        AppendBucket(key, value);
      }
      rc := 1;
    }

    method Double()
      requires Valid() && Full(State())
      modifies this
      ensures Valid() && fresh(nodes) && fresh(buckets)
      ensures State() == Doubled(old(State())) && !Full(State())
      decreases true, 2, 1
    {
      DoublingPreserves(State());
      var h2, calls := Rehash();
      TakeOver(h2, calls);
    }

    /** The structure copy that makes this table the other one. */
    method TakeOver(h2: Hashtable, ghost calls: nat)
      requires h2.Shape() && h2 != this
      modifies this
      ensures Shape() && buckets == h2.buckets && nodes == h2.nodes
      ensures State() == h2.State().(moved := old(moved) + calls + h2.moved)
    {
      buckets, size, len, dynamic := h2.buckets, h2.size, h2.len, h2.dynamic;
      chains, contents, nodes := h2.chains, h2.contents, h2.nodes;
      moved := moved + calls + h2.moved;
      forall i | 0 <= i < size
        ensures ChainShape(i)
      {
        assert h2.ChainShape(i);
      }
    }

    /** Re-inserts every entry, chain by chain, into a new table; counts the insertions. */
    method Rehash() returns (h2: Hashtable, ghost calls: nat)
      requires Shape() && |Flatten(contents)| <= 2 * size
      ensures fresh(h2) && fresh(h2.buckets) && fresh(h2.nodes) && h2.Valid()
      ensures calls == |Flatten(contents)|
      ensures h2.State() == AppendAll(Fresh(2 * size, true), Flatten(contents))
      decreases true, 2, 0
    {
      h2 := new Hashtable(size * 2, true);
      calls := 0;
      ghost var all, empty := contents, h2.State();
      for i := 0 to size
        invariant fresh({h2, h2.buckets} + h2.nodes) && h2.Valid()
        invariant calls == |Flatten(all[..i])|
        invariant h2.State() == AppendAll(empty, Flatten(all[..i]))
      {
        assert old(ChainShape(i));
        RehashChain(all, i, empty);
        ghost var more := h2.CopyChain(buckets[i], chains[i], all[i]);
        calls := calls + more;
      }
      assert all[..size] == contents;
    }

    twostate lemma StillNotMine(chain: seq<Bucket>)
      requires forall c :: c in chain ==> c !in old(nodes) && old(allocated(c))
      requires forall b :: b in nodes ==> b in old(nodes) || fresh(b)
      ensures forall c :: c in chain ==> c !in nodes
    {
    }

    /** Inserts the buckets of another table's chain one by one; counts the recursive calls. */
    method CopyChain(head: Bucket?, ghost chain: seq<Bucket>, ghost entries: seq<Entry>) returns (ghost calls: nat)
      requires Valid() && dynamic && len + |entries| <= |contents|
      requires Linked(head, chain, entries) && forall b :: b in chain ==> b !in nodes
      modifies this, buckets, nodes
      ensures Valid() && (forall b :: b in nodes ==> b in old(nodes) || fresh(b)) && (buckets == old(buckets) || fresh(buckets))
      ensures State() == AppendAll(old(State()), entries) && calls == |entries|
      decreases true, 1
    {
      var b := head;
      ghost var j := 0;
      calls := 0;
      while b != null
        invariant Valid() && (forall b :: b in nodes ==> b in old(nodes) || fresh(b)) && (buckets == old(buckets) || fresh(buckets))
        invariant forall c :: c in chain ==> unchanged(c)
        invariant 0 <= j <= |chain| && b == At(chain, j) && calls == j
        invariant State() == AppendAll(old(State()), entries[..j])
        decreases |chain| - j
      {
        assert entries[..j + 1][..j] == entries[..j];
        assert b.next == At(chain, j + 1) && Entry(b.key, b.value) == entries[j];
        StillNotMine(chain);
        var _ := InsertIntoHashTable(b.key, b.value);
        calls := calls + 1;
        b := b.next;
        j := j + 1;
      }
      assert entries[..j] == entries;
    }

    method UpdateInHashTable(key: CString, value: Ptr) returns (displaced: Ptr)
      requires Valid()
      modifies this, nodes
      ensures Valid() && nodes == old(nodes) && buckets == old(buckets)
      ensures (State(), displaced) == Step(old(State()), Update(key, value))
    {
      UpdateFits(State(), key, value);
      displaced := Overwrite(key, value);
    }

    /** Changes the value of the first bucket for the key, if there is one. */
    method Overwrite(key: CString, value: Ptr) returns (displaced: Ptr)
      requires Shape()
      modifies this, nodes
      ensures Shape() && nodes == old(nodes) && buckets == old(buckets)
      ensures var index := ChainOf(key, size);
              contents == old(contents)[index := Overwritten(old(contents)[index], key, value)]
      ensures displaced == Found(old(contents)[ChainOf(key, old(size))], key)
      ensures size == old(size) && dynamic == old(dynamic) && moved == old(moved) && len == old(len)
    {
      var index := IndexOf(key, size);
      ghost var chain, entries := chains[index], contents[index];
      assert ChainShape(index);
      Apart(index);
      var b0, j := Seek(buckets[index], key, chain, entries);
      if b0 == null {
        displaced := NULL;
      } else {
        displaced := b0.value;
        b0.value := value;
      }
      contents := contents[index := Overwritten(entries, key, value)];
      OthersKept(index);
    }

    method DeleteFromHashTable(key: CString) returns (removed: Ptr)
      requires Valid()
      modifies this, buckets, nodes
      ensures Valid() && nodes == old(nodes) && buckets == old(buckets)
      ensures (State(), removed) == Step(old(State()), Delete(key))
    {
      DeleteFits(State(), key);
      removed := Detach(key);
    }

    /** Links the chain of the key around its first bucket for the key. */
    method Detach(key: CString) returns (removed: Ptr)
      requires Shape()
      modifies this, buckets, nodes
      ensures Shape() && nodes == old(nodes) && buckets == old(buckets)
      ensures var index := ChainOf(key, size);
              contents == old(contents)[index := Spliced(old(contents)[index], key)]
      ensures removed == Found(old(contents)[ChainOf(key, old(size))], key)
      ensures size == old(size) && dynamic == old(dynamic) && moved == old(moved)
      ensures len == old(len) - |old(contents)[ChainOf(key, size)]| + |contents[ChainOf(key, size)]|
    {
      var index := IndexOf(key, size);
      ghost var chain, entries := chains[index], contents[index];
      assert ChainShape(index);
      Apart(index);
      var b, j := Unlink(buckets, index, key, chain, entries);
      if b == null {
        removed := NULL;
      } else {
        removed := b.value;
        len := len - 1;
        chains := chains[index := chain[..j] + chain[j + 1..]];
      }
      contents := contents[index := Spliced(entries, key)];
      assert ChainShape(index);
      OthersKept(index);
    }

    method LookupFromHashTable(key: CString) returns (value: Ptr)
      requires Valid()
      ensures value == Step(State(), Lookup(key)).1
    {
      var index := IndexOf(key, size);
      assert ChainShape(index);
      var b0, j := Seek(buckets[index], key, chains[index], contents[index]);
      value := if b0 == null then NULL else b0.value;
    }

    method Perform(op: Operation) returns (result: Ptr)
      requires Valid()
      modifies this, buckets, nodes
      ensures Valid() && (forall b :: b in nodes ==> b in old(nodes) || fresh(b)) && (buckets == old(buckets) || fresh(buckets))
      ensures (State(), result) == Step(old(State()), op)
    {
      match op
      case Insert(key, value) => result := InsertIntoHashTable(key, value);
      case Update(key, value) => result := UpdateInHashTable(key, value);
      case Delete(key) => result := DeleteFromHashTable(key);
      case Lookup(key) => result := LookupFromHashTable(key);
    }

    /** The buckets of a key, in the order of its chain. */
    ghost function BucketsOf(key: CString): seq<Bucket>
      requires size == |chains| > 0
      reads this
    {
      Matching(chains[ChainOf(key, size)], key)
    }

    method LookupBucketFromHashTable(key: CString) returns (b0: Bucket?)
      requires Valid()
      ensures b0 == At(BucketsOf(key), 0)
    {
      var index := IndexOf(key, size);
      ghost var chain := chains[index];
      assert ChainShape(index);
      ghost var j;
      b0, j := Seek(buckets[index], key, chain, contents[index]);
      NextMatch(chain, key, 0, j);
      assert chain[0..] == chain;
    }

    /** The client's loop over a key: lookupBucketFromHashTable, then nextBucket until NULL. It
        meets each bucket of the key once, in order, and so reads the key's list of values. */
    method EnumerateBuckets(key: CString) returns (found: seq<Bucket>, values: seq<Ptr>)
      requires Valid()
      ensures found == BucketsOf(key)
      ensures forall i, j :: 0 <= i < j < |found| ==> found[i] != found[j]
      ensures values == Abs(State())[key]
    {
      ghost var index := ChainOf(key, size);
      assert ChainShape(index);
      var b := LookupBucketFromHashTable(key);
      found, values := Enumerate(b, key, buckets[index], chains[index], contents[index]);
      MatchingIsDistinct(chains[index], key);
    }

    /** deleteHashTable: only a fixed-size table is torn down; `f` may be NULL. The result is
        what the callback receives, in order. */
    method DeleteHashTable(callback: bool) returns (calls: seq<Ptr>)
      requires Valid()
      ensures calls == if callback && !dynamic then Teardown(contents) else []
    {
      calls := [];
      if !dynamic {
        for i := 0 to size
          invariant callback ==> calls + Teardown(contents[i..]) == Teardown(contents)
          invariant !callback ==> calls == []
        {
          assert ChainShape(i);
          var part := [];
          if buckets[i] != null {
            part := DeleteBucket(buckets[i], callback, chains[i], contents[i]);
          }
          TeardownUnfolds(contents, i, calls);
          calls := calls + part;
        }
      }
    }
  }

  method Hang(buckets: array<Bucket?>, index: nat, b: Bucket, ghost chain: seq<Bucket>, ghost entries: seq<Entry>)
    requires index < buckets.Length && Linked(buckets[index], chain, entries)
    requires b !in chain && b.next == null
    modifies buckets, chain
    ensures Linked(buckets[index], chain + [b], entries + [Entry(b.key, b.value)])
    ensures forall i :: 0 <= i < buckets.Length && i != index ==> buckets[i] == old(buckets[i])
  {
    if buckets[index] == null {
      buckets[index] := b;
    } else {
      var b0 := buckets[index];
      ghost var j := 0;
      while b0.next != null
        invariant 0 <= j < |chain| && b0 == chain[j]
        decreases |chain| - j
      {
        b0 := b0.next;
        j := j + 1;
      }
      b0.next := b;
    }
  }

  /** Follows `next` to the first bucket for the key. */
  method Seek(head: Bucket?, key: CString, ghost chain: seq<Bucket>, ghost entries: seq<Entry>)
    returns (b0: Bucket?, ghost j: nat)
    requires Linked(head, chain, entries)
    ensures j == First(entries, key) && b0 == At(chain, j)
  {
    b0, j := head, 0;
    while b0 != null && b0.key != key
      invariant 0 <= j <= |chain| && b0 == At(chain, j)
      invariant forall k :: 0 <= k < j ==> entries[k].key != key
      decreases |chain| - j
    {
      b0 := b0.next;
      j := j + 1;
    }
  }

  /** The bucket in front of the first one for the key, or the last bucket. */
  method SeekBefore(head: Bucket, key: CString, ghost chain: seq<Bucket>, ghost entries: seq<Entry>)
    returns (b0: Bucket, ghost j: nat)
    requires Linked(head, chain, entries) && head.key != key
    ensures j < |chain| && b0 == chain[j] && First(entries, key) == j + 1
  {
    b0, j := head, 0;
    while b0.next != null && b0.next.key != key
      invariant 0 <= j < |chain| && b0 == chain[j]
      invariant forall k :: 0 <= k <= j ==> entries[k].key != key
      decreases |chain| - j
    {
      b0 := b0.next;
      j := j + 1;
    }
  }

  /** Takes the first bucket for the key out of a chain and returns it. */
  method Unlink(buckets: array<Bucket?>, index: nat, key: CString, ghost chain: seq<Bucket>, ghost entries: seq<Entry>)
    returns (b: Bucket?, ghost j: nat)
    requires index < buckets.Length && Linked(buckets[index], chain, entries)
    modifies buckets, chain
    ensures j == First(entries, key) && b == At(chain, j)
    ensures b != null ==> b.value == entries[j].value
    ensures b != null ==> Linked(buckets[index], chain[..j] + chain[j + 1..], entries[..j] + entries[j + 1..])
    ensures b == null ==> Linked(buckets[index], chain, entries)
    ensures forall i :: 0 <= i < buckets.Length && i != index ==> buckets[i] == old(buckets[i])
  {
    b, j := buckets[index], 0;
    if b != null {
      if b.key == key {
        buckets[index] := b.next;
      } else {
        var b0, i := SeekBefore(b, key, chain, entries);
        b, j := b0.next, i + 1;
        if b != null {
          b0.next := b.next;
        }
      }
      if b != null {
        Relinked(buckets[index], chain, entries, j);
      }
    }
  }

  /** A chain whose links skip position `j` is linked without its bucket there. */
  lemma Relinked(head: Bucket?, chain: seq<Bucket>, entries: seq<Entry>, j: nat)
    requires j < |chain| == |entries|
    requires head == if j == 0 then At(chain, 1) else chain[0]
    requires forall k {:trigger chain[k].next} :: 0 <= k < |chain| && k != j ==>
               chain[k].next == At(chain, if k + 1 == j then k + 2 else k + 1)
    requires forall k :: 0 <= k < |chain| ==> entries[k] == Entry(chain[k].key, chain[k].value)
    requires forall k, l :: 0 <= k < l < |chain| ==> chain[k] != chain[l]
    ensures Linked(head, chain[..j] + chain[j + 1..], entries[..j] + entries[j + 1..])
  {
    var rest := chain[..j] + chain[j + 1..];
    forall k | 0 <= k < |rest|
      ensures rest[k].next == At(rest, k + 1)
    {
      assert rest[k] == chain[if k < j then k else k + 1];
    }
  }

  /** deleteBucket recurses to the end of the chain before it frees anything. */
  method DeleteBucket(b0: Bucket, callback: bool, ghost chain: seq<Bucket>, ghost entries: seq<Entry>)
    returns (calls: seq<Ptr>)
    requires Linked(b0, chain, entries)
    ensures calls == if callback then Reverse(Payload(entries)) else []
    decreases |chain|
  {
    calls := [];
    if b0.next != null {
      forall k | 0 <= k < |chain| - 1
        ensures chain[1..][k].next == At(chain[1..], k + 1)
      {
        assert chain[1..][k] == chain[k + 1];
      }
      calls := DeleteBucket(b0.next, callback, chain[1..], entries[1..]);
    }
    assert Payload(entries)[1..] == Payload(entries[1..]);
    if callback {
      calls := calls + [b0.value];
    }
  }

  /** `b0` may be any bucket of a chain; the result is the next one for the key behind it. */
  method NextBucket(b0: Bucket, key: CString, ghost head: Bucket?, ghost chain: seq<Bucket>, ghost entries: seq<Entry>,
                    ghost j: nat) returns (next: Bucket?)
    requires Linked(head, chain, entries) && j < |chain| && b0 == chain[j]
    ensures next == At(Matching(chain[j + 1..], key), 0)
  {
    ghost var k := j + 1;
    next := b0.next;
    while next != null && next.key != key
      invariant j < k <= |chain| && next == At(chain, k)
      invariant forall l :: j < l < k ==> chain[l].key != key
      decreases |chain| - k
    {
      next := next.next;
      k := k + 1;
    }
    assert k < |chain| ==> chain[k].key == key;
    NextMatch(chain, key, j + 1, k);
  }

  method Enumerate(first: Bucket?, key: CString, ghost head: Bucket?, ghost chain: seq<Bucket>, ghost entries: seq<Entry>)
    returns (found: seq<Bucket>, values: seq<Ptr>)
    requires Linked(head, chain, entries) && first == At(Matching(chain, key), 0)
    ensures found == Matching(chain, key) && values == Values(entries, key)
  {
    found, values := [], [];
    var b := first;
    ghost var j := 0;
    assert chain[0..] == chain && entries[0..] == entries;
    while b != null
      invariant j <= |chain| && b == At(Matching(chain[j..], key), 0)
      invariant found + Matching(chain[j..], key) == Matching(chain, key)
      invariant values + Values(entries[j..], key) == Values(entries, key)
      decreases |chain| - j
    {
      ghost var k := FirstMatch(chain, key, j);
      EnumerationStep(chain, entries, key, j, k, found, values);
      found, values := found + [b], values + [b.value];
      b := NextBucket(b, key, head, chain, entries, k);
      j := k + 1;
    }
    MatchingValues(chain[j..], entries[j..], key);
  }

  // ----- the buckets of one key ------------------------------------------------------

  function Matching(chain: seq<Bucket>, key: CString): seq<Bucket> {
    if chain == [] then []
    else (if chain[0].key == key then [chain[0]] else []) + Matching(chain[1..], key)
  }

  /** From position `j`, the first bucket for the key is at `k`. */
  lemma {:induction false} NextMatch(chain: seq<Bucket>, key: CString, j: nat, k: nat)
    requires j <= k <= |chain|
    requires forall l :: j <= l < k ==> chain[l].key != key
    requires k < |chain| ==> chain[k].key == key
    ensures At(Matching(chain[j..], key), 0) == At(chain, k)
    ensures Matching(chain[j..], key) == if k < |chain| then [chain[k]] + Matching(chain[k + 1..], key) else []
    decreases k - j
  {
    if j < |chain| {
      assert chain[j..][1..] == chain[j + 1..];
    }
    if j < k {
      NextMatch(chain, key, j + 1, k);
    }
  }

  lemma Regroup<T>(front: seq<T>, x: T, rest: seq<T>)
    ensures front + ([x] + rest) == (front + [x]) + rest
  {
  }

  ghost function FirstMatch(chain: seq<Bucket>, key: CString, j: nat): (k: nat)
    requires j <= |chain|
    ensures j <= k <= |chain|
    ensures forall l :: j <= l < k ==> chain[l].key != key
    ensures k < |chain| ==> chain[k].key == key
    decreases |chain| - j
  {
    if j == |chain| || chain[j].key == key then j else FirstMatch(chain, key, j + 1)
  }

  lemma ValuesFrom(entries: seq<Entry>, key: CString, j: nat, k: nat)
    requires j <= k < |entries| && entries[k].key == key
    requires forall l :: j <= l < k ==> entries[l].key != key
    ensures Values(entries[j..], key) == [entries[k].value] + Values(entries[k + 1..], key)
  {
    assert entries[j..] == entries[j..k] + ([entries[k]] + entries[k + 1..]);
    ValuesOfOthers(entries[j..k], key);
    ValuesOfConcat(entries[j..k], [entries[k]] + entries[k + 1..], key);
  }

  /** One bucket further, what was found and what is still to come are the same lists. */
  lemma EnumerationStep(chain: seq<Bucket>, entries: seq<Entry>, key: CString, j: nat, k: nat,
                        found: seq<Bucket>, values: seq<Ptr>)
    requires |chain| == |entries| && j <= |chain| && k == FirstMatch(chain, key, j)
    requires forall l :: 0 <= l < |chain| ==> entries[l].key == chain[l].key
    requires Matching(chain[j..], key) != []
    requires found + Matching(chain[j..], key) == Matching(chain, key)
    requires values + Values(entries[j..], key) == Values(entries, key)
    ensures k < |chain| && At(Matching(chain[j..], key), 0) == chain[k]
    ensures (found + [chain[k]]) + Matching(chain[k + 1..], key) == Matching(chain, key)
    ensures (values + [entries[k].value]) + Values(entries[k + 1..], key) == Values(entries, key)
  {
    NextMatch(chain, key, j, k);
    ValuesFrom(entries, key, j, k);
    Regroup(found, chain[k], Matching(chain[k + 1..], key));
    Regroup(values, entries[k].value, Values(entries[k + 1..], key));
  }

  lemma {:induction false} MatchingValues(chain: seq<Bucket>, entries: seq<Entry>, key: CString)
    requires |chain| == |entries|
    requires forall l :: 0 <= l < |chain| ==> entries[l].key == chain[l].key
    ensures |Matching(chain, key)| == |Values(entries, key)|
  {
    if chain != [] {
      MatchingValues(chain[1..], entries[1..], key);
    }
  }

  lemma {:induction false} MatchingIsDistinct(chain: seq<Bucket>, key: CString)
    requires forall j, k :: 0 <= j < k < |chain| ==> chain[j] != chain[k]
    ensures forall b :: b in Matching(chain, key) ==> b in chain && b.key == key
    ensures forall i, j :: 0 <= i < j < |Matching(chain, key)| ==> Matching(chain, key)[i] != Matching(chain, key)[j]
  {
    if chain != [] {
      MatchingIsDistinct(chain[1..], key);
    }
  }

  // ----- runs on the heap ----------------------------------------------------------------

  /** A run of operations on a table in the heap returns what the run on the map returns. */
  method RunOperations(h: Hashtable, ops: seq<Operation>) returns (results: seq<Ptr>)
    requires h.Valid()
    modifies h, h.buckets, h.nodes
    ensures h.Valid()
    ensures (h.State(), results) == Run(old(h.State()), ops)
    ensures (Abs(h.State()), results) == MapRun(old(Abs(h.State())), ops)
  {
    results := [];
    ghost var whole := Run(h.State(), ops);
    assert ops[0..] == ops;
    for i := 0 to |ops|
      invariant h.Valid() && fresh(h.nodes - old(h.nodes)) && (h.buckets == old(h.buckets) || fresh(h.buckets))
      invariant whole.0 == Run(h.State(), ops[i..]).0
      invariant whole.1 == results + Run(h.State(), ops[i..]).1
    {
      RunUnfolds(h.State(), ops, i);
      ghost var before := results;
      var result := h.Perform(ops[i]);
      results := results + [result];
      ghost var rest := Run(h.State(), ops[i + 1..]).1;
      assert before + ([result] + rest) == results + rest;
    }
    assert ops[|ops|..] == [] && results + [] == results;
    RunRefines(old(h.State()), ops);
  }

  /** Two new tables in the heap, of any sizes and modes, answer every run alike. */
  method RunTwice(size1: nat, dynamic1: bool, size2: nat, dynamic2: bool, ops: seq<Operation>)
    returns (results1: seq<Ptr>, results2: seq<Ptr>)
    requires size1 > 0 && size2 > 0
    ensures results1 == results2
  {
    var h1 := new Hashtable(size1, dynamic1);
    var h2 := new Hashtable(size2, dynamic2);
    results1 := RunOperations(h1, ops);
    results2 := RunOperations(h2, ops);
    ModeAndSizeDoNotShow(size1, dynamic1, size2, dynamic2, ops);
  }

  /** The amortised bound, read off a table in the heap. */
  method InsertionCost(size: nat, ops: seq<Operation>) returns (h: Hashtable)
    requires size > 0
    ensures h.Valid() && h.len <= h.size
    ensures h.moved == h.size - size
    ensures h.moved > 0 ==> h.size < 2 * Inserts(ops)
  {
    h := new Hashtable(size, true);
    var _ := RunOperations(h, ops);
    AmortisedCost(size, ops);
  }

  /** The life of a fixed-size table in the heap: whatever was stored and neither displaced nor
      removed reaches the callback when the table is deleted. */
  method Lifetime(size: nat, ops: seq<Operation>) returns (results: seq<Ptr>, calls: seq<Ptr>)
    requires size > 0
    ensures results == MapRun(EmptyMap(), ops).1
    ensures var l := Accounts(NOTHING, EmptyMap(), ops); l.stored == l.displaced + l.removed + multiset(calls)
  {
    var h := new Hashtable(size, false);
    FreshIsEmpty(size, false);
    results := RunOperations(h, ops);
    RunKeepsMode(Fresh(size, false), ops);
    calls := h.DeleteHashTable(true);
    Conservation(size, ops);
  }
}
