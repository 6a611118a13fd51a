/** The hash table of src/core/hashtable.cpp as a value: one sequence of entries for each
    chain. The heap version in HashTable.dfy is proved to follow these steps.
  */
module ChainedTable {
  import opened Hashing
  import opened KeyedLists

  datatype Entry = Entry(key: CString, value: Ptr)

  /** `moved` counts the entries that doublings have re-inserted so far. */
  datatype Table = Table(chains: seq<seq<Entry>>, len: int, dynamic: bool, moved: nat)

  // ----- one chain -----------------------------------------------------------------

  function Values(chain: seq<Entry>, key: CString): seq<Ptr> {
    if chain == [] then []
    else (if chain[0].key == key then [chain[0].value] else []) + Values(chain[1..], key)
  }

  /** The position of the first entry for `key`, or the length of the chain. */
  function First(chain: seq<Entry>, key: CString): (i: nat)
    ensures i <= |chain|
    ensures forall j :: 0 <= j < i ==> chain[j].key != key
    ensures i < |chain| ==> chain[i].key == key
  {
    if chain == [] || chain[0].key == key then 0 else 1 + First(chain[1..], key)
  }

  function Overwritten(chain: seq<Entry>, key: CString, value: Ptr): seq<Entry> {
    var i := First(chain, key);
    if i == |chain| then chain else chain[i := Entry(key, value)]
  }

  function Spliced(chain: seq<Entry>, key: CString): seq<Entry> {
    var i := First(chain, key);
    if i == |chain| then chain else chain[..i] + chain[i + 1..]
  }

  function Found(chain: seq<Entry>, key: CString): Ptr {
    var i := First(chain, key);
    if i == |chain| then NULL else chain[i].value
  }

  lemma {:induction false} ValuesOfConcat(a: seq<Entry>, b: seq<Entry>, key: CString)
    ensures Values(a + b, key) == Values(a, key) + Values(b, key)
  {
    if a == [] {
      assert a + b == b;
    } else {
      assert (a + b)[1..] == a[1..] + b;
      ValuesOfConcat(a[1..], b, key);
      var head := if a[0].key == key then [a[0].value] else [];
      assert head + (Values(a[1..], key) + Values(b, key)) == head + Values(a[1..], key) + Values(b, key);
    }
  }

  lemma ValuesOfOne(e: Entry, key: CString)
    ensures Values([e], key) == if e.key == key then [e.value] else []
  {
    assert [e][1..] == [];
  }

  lemma {:induction false} ValuesOfOthers(chain: seq<Entry>, key: CString)
    requires forall j :: 0 <= j < |chain| ==> chain[j].key != key
    ensures Values(chain, key) == []
  {
    if chain != [] {
      ValuesOfOthers(chain[1..], key);
    }
  }

  /** A chain splits at the first entry of a key into the part before, the entry and the rest. */
  lemma SplitAtFirst(chain: seq<Entry>, key: CString)
    requires First(chain, key) < |chain|
    ensures var i := First(chain, key);
            && chain == chain[..i] + [chain[i]] + chain[i + 1..]
            && Values(chain[..i], key) == []
            && Values(chain, key) == [chain[i].value] + Values(chain[i + 1..], key)
  {
    var i := First(chain, key);
    assert chain == chain[..i] + [chain[i]] + chain[i + 1..];
    ValuesOfOthers(chain[..i], key);
    ValuesOfOne(chain[i], key);
    ValuesOfConcat(chain[..i] + [chain[i]], chain[i + 1..], key);
    ValuesOfConcat(chain[..i], [chain[i]], key);
  }

  lemma {:induction false} FoundIsOldest(chain: seq<Entry>, key: CString)
    ensures Found(chain, key) == Oldest(Values(chain, key))
    ensures First(chain, key) == |chain| <==> Values(chain, key) == []
  {
    if First(chain, key) == |chain| {
      ValuesOfOthers(chain, key);
    } else {
      SplitAtFirst(chain, key);
    }
  }

  lemma OverwrittenValues(chain: seq<Entry>, key: CString, value: Ptr, other: CString)
    ensures var before := Values(chain, other);
            Values(Overwritten(chain, key, value), other)
            == if other == key && before != [] then [value] + before[1..] else before
  {
    FoundIsOldest(chain, key);
    var i := First(chain, key);
    if i < |chain| {
      SplitAtFirst(chain, key);
      var left, right := chain[..i], chain[i + 1..];
      assert Overwritten(chain, key, value) == left + [Entry(key, value)] + right;
      ThreeParts(left, Entry(key, value), right, other);
      ThreeParts(left, chain[i], right, other);
    }
  }

  lemma SplicedValues(chain: seq<Entry>, key: CString, other: CString)
    ensures var before := Values(chain, other);
            Values(Spliced(chain, key), other)
            == if other == key && before != [] then before[1..] else before
  {
    FoundIsOldest(chain, key);
    var i := First(chain, key);
    if i < |chain| {
      SplitAtFirst(chain, key);
      ValuesOfConcat(chain[..i], chain[i + 1..], other);
      ThreeParts(chain[..i], chain[i], chain[i + 1..], other);
    }
  }

  lemma ThreeParts(left: seq<Entry>, e: Entry, right: seq<Entry>, key: CString)
    ensures Values(left + [e] + right, key)
         == Values(left, key) + (if e.key == key then [e.value] else []) + Values(right, key)
  {
    ValuesOfOne(e, key);
    ValuesOfConcat(left + [e], right, key);
    ValuesOfConcat(left, [e], key);
  }

  // ----- the whole table -----------------------------------------------------------

  function Flatten(chains: seq<seq<Entry>>): seq<Entry> {
    if chains == [] then [] else chains[0] + Flatten(chains[1..])
  }

  ghost predicate Placed(chains: seq<seq<Entry>>) {
    forall i, j :: 0 <= i < |chains| && 0 <= j < |chains[i]| ==>
      ChainOf(chains[i][j].key, |chains|) == i
  }

  /** What every operation keeps. A doubling table never holds more entries than chains. */
  ghost predicate WellFormed(t: Table) {
    && |t.chains| > 0
    && Placed(t.chains)
    && t.len == |Flatten(t.chains)|
    && (t.dynamic ==> t.len <= |t.chains|)
  }

  function Fresh(size: nat, dynamic: bool): Table {
    Table(seq(size, i => []), 0, dynamic, 0)
  }

  /** The chain that `key` hashes to. */
  function Chain(t: Table, key: CString): seq<Entry>
    requires |t.chains| > 0
  {
    t.chains[ChainOf(key, |t.chains|)]
  }

  function WithChain(t: Table, key: CString, chain: seq<Entry>): Table
    requires |t.chains| > 0
  {
    t.(chains := t.chains[ChainOf(key, |t.chains|) := chain])
  }

  /** Appends at the tail of the chain, without looking at the load. */
  function Append(t: Table, e: Entry): Table
    requires |t.chains| > 0
  {
    WithChain(t, e.key, Chain(t, e.key) + [e]).(len := t.len + 1)
  }

  function AppendAll(t: Table, es: seq<Entry>): (r: Table)
    requires |t.chains| > 0
    ensures |r.chains| == |t.chains| && r.len == t.len + |es|
    ensures r.dynamic == t.dynamic && r.moved == t.moved
    decreases |es|
  {
    if es == [] then t else Append(AppendAll(t, es[..|es| - 1]), es[|es| - 1])
  }

  /** Every entry, chain by chain and head to tail, re-inserted into a table of twice the size. */
  function Doubled(t: Table): Table
    requires |t.chains| > 0
  {
    var es := Flatten(t.chains);
    AppendAll(Fresh(2 * |t.chains|, true), es).(moved := t.moved + |es|)
  }

  predicate Full(t: Table) {
    t.dynamic && t.len >= |t.chains|
  }

  function Inserted(t: Table, key: CString, value: Ptr): Table
    requires |t.chains| > 0
  {
    Append(if Full(t) then Doubled(t) else t, Entry(key, value))
  }

  function Updated(t: Table, key: CString, value: Ptr): Table
    requires |t.chains| > 0
  {
    WithChain(t, key, Overwritten(Chain(t, key), key, value))
  }

  function Deleted(t: Table, key: CString): Table
    requires |t.chains| > 0
  {
    var chain, rest := Chain(t, key), Spliced(Chain(t, key), key);
    WithChain(t, key, rest).(len := t.len - |chain| + |rest|)
  }

  function Step(t: Table, op: Operation): (r: (Table, Ptr))
    requires |t.chains| > 0
    ensures |r.0.chains| >= |t.chains|
  {
    match op
    case Insert(k, v) => (Inserted(t, k, v), 1)
    case Update(k, v) => (Updated(t, k, v), Found(Chain(t, k), k))
    case Delete(k) => (Deleted(t, k), Found(Chain(t, k), k))
    case Lookup(k) => (t, Found(Chain(t, k), k))
  }

  // ----- what a table stands for ------------------------------------------------------

  ghost function Abs(t: Table): MultiMap
    requires |t.chains| > 0
  {
    imap k: CString :: Values(Chain(t, k), k)
  }

  lemma {:induction false} LenOfUpdatedChains(chains: seq<seq<Entry>>, i: nat, chain: seq<Entry>)
    requires i < |chains|
    ensures |Flatten(chains[i := chain])| == |Flatten(chains)| - |chains[i]| + |chain|
  {
    if i == 0 {
      assert chains[i := chain][1..] == chains[1..];
    } else {
      assert chains[i := chain][1..] == chains[1..][i - 1 := chain];
      LenOfUpdatedChains(chains[1..], i - 1, chain);
    }
  }

  lemma {:induction false} FreshIsEmpty(size: nat, dynamic: bool)
    ensures Flatten(Fresh(size, dynamic).chains) == []
    ensures size > 0 ==> WellFormed(Fresh(size, dynamic)) && Abs(Fresh(size, dynamic)) == EmptyMap()
  {
    var chains := Fresh(size, dynamic).chains;
    if size > 0 {
      assert chains[1..] == Fresh(size - 1, dynamic).chains;
      FreshIsEmpty(size - 1, dynamic);
    }
  }

  /** Replacing the chain of one key: what the table then stands for at any key. */
  lemma ReplacedChain(t: Table, key: CString, chain: seq<Entry>, len: int)
    requires WellFormed(t)
    requires forall j :: 0 <= j < |chain| ==> ChainOf(chain[j].key, |t.chains|) == ChainOf(key, |t.chains|)
    requires len == t.len - |Chain(t, key)| + |chain|
    requires t.dynamic ==> len <= |t.chains|
    ensures WellFormed(WithChain(t, key, chain).(len := len))
  {
    LenOfUpdatedChains(t.chains, ChainOf(key, |t.chains|), chain);
  }

  lemma AppendedAt(t: Table, e: Entry, k: CString)
    requires |t.chains| > 0
    ensures Values(Chain(Append(t, e), k), k) == Values(Chain(t, k), k) + (if e.key == k then [e.value] else [])
  {
    ValuesOfConcat(Chain(t, e.key), [e], k);
    ValuesOfOne(e, k);
  }

  lemma AppendFits(t: Table, e: Entry)
    requires WellFormed(t) && !Full(t)
    ensures WellFormed(Append(t, e))
  {
    ReplacedChain(t, e.key, Chain(t, e.key) + [e], t.len + 1);
  }

  lemma AppendRefines(t: Table, e: Entry)
    requires |t.chains| > 0
    ensures Abs(Append(t, e)) == MapStep(Abs(t), Insert(e.key, e.value)).0
  {
    forall k: CString
      ensures Abs(Append(t, e))[k] == MapStep(Abs(t), Insert(e.key, e.value)).0[k]
    {
      AppendedAt(t, e, k);
      MapInsertAt(Abs(t), e.key, e.value, k);
    }
    SameMap(Abs(Append(t, e)), MapStep(Abs(t), Insert(e.key, e.value)).0);
  }

  lemma {:induction false} AppendAllFits(t: Table, es: seq<Entry>)
    requires WellFormed(t)
    requires t.dynamic ==> t.len + |es| <= |t.chains|
    ensures WellFormed(AppendAll(t, es))
    decreases |es|
  {
    if es != [] {
      AppendAllFits(t, es[..|es| - 1]);
      AppendFits(AppendAll(t, es[..|es| - 1]), es[|es| - 1]);
    }
  }

  lemma {:induction false} AppendAllAt(t: Table, es: seq<Entry>, k: CString)
    requires |t.chains| > 0
    ensures Values(Chain(AppendAll(t, es), k), k) == Values(Chain(t, k), k) + Values(es, k)
    decreases |es|
  {
    if es != [] {
      var front, last := es[..|es| - 1], es[|es| - 1];
      AppendAllAt(t, front, k);
      AppendedAt(AppendAll(t, front), last, k);
      assert es == front + [last];
      ValuesOfConcat(front, [last], k);
      ValuesOfOne(last, k);
    }
  }

  lemma {:induction false} AppendAllOfConcat(t: Table, a: seq<Entry>, b: seq<Entry>)
    requires |t.chains| > 0
    ensures AppendAll(t, a + b) == AppendAll(AppendAll(t, a), b)
    decreases |b|
  {
    if b == [] {
      assert a + b == a;
    } else {
      assert (a + b)[..|a + b| - 1] == a + b[..|b| - 1];
      AppendAllOfConcat(t, a, b[..|b| - 1]);
    }
  }

  /** The flattened table up to a chain, and with that chain. */
  lemma {:induction false} FlattenPrefix(chains: seq<seq<Entry>>, i: nat)
    requires i < |chains|
    ensures Flatten(chains[..i + 1]) == Flatten(chains[..i]) + chains[i]
    ensures |Flatten(chains[..i + 1])| <= |Flatten(chains)|
  {
    if i == 0 {
      assert chains[..1] == [chains[0]] && chains[..0] == [];
      assert Flatten([chains[0]]) == chains[0] + Flatten([]);
    } else {
      FlattenPrefix(chains[1..], i - 1);
      assert chains[..i + 1][1..] == chains[1..][..i];
      assert chains[..i][1..] == chains[1..][..i - 1];
    }
  }

  /** Re-inserting one more chain into `t`, after the chains in front of it. */
  lemma RehashChain(chains: seq<seq<Entry>>, i: nat, t: Table)
    requires i < |chains| && |t.chains| > 0
    ensures AppendAll(AppendAll(t, Flatten(chains[..i])), chains[i]) == AppendAll(t, Flatten(chains[..i + 1]))
    ensures AppendAll(t, Flatten(chains[..i])).len + |chains[i]| <= t.len + |Flatten(chains)|
    ensures |Flatten(chains[..i + 1])| == |Flatten(chains[..i])| + |chains[i]|
  {
    FlattenPrefix(chains, i);
    AppendAllOfConcat(t, Flatten(chains[..i]), chains[i]);
  }

  /** Reading all chains in order, a key's values are those of its own chain. */
  lemma {:induction false} FlattenFinds(chains: seq<seq<Entry>>, key: CString, own: nat)
    requires own < |chains|
    requires forall i, j :: 0 <= i < |chains| && i != own && 0 <= j < |chains[i]| ==> chains[i][j].key != key
    ensures Values(Flatten(chains), key) == Values(chains[own], key)
  {
    ValuesOfConcat(chains[0], Flatten(chains[1..]), key);
    if own == 0 {
      NoneInFlatten(chains[1..], key);
    } else {
      ValuesOfOthers(chains[0], key);
      FlattenFinds(chains[1..], key, own - 1);
    }
  }

  lemma {:induction false} NoneInFlatten(chains: seq<seq<Entry>>, key: CString)
    requires forall i, j :: 0 <= i < |chains| && 0 <= j < |chains[i]| ==> chains[i][j].key != key
    ensures Values(Flatten(chains), key) == []
  {
    if chains != [] {
      ValuesOfConcat(chains[0], Flatten(chains[1..]), key);
      ValuesOfOthers(chains[0], key);
      NoneInFlatten(chains[1..], key);
    }
  }

  lemma DoublingAt(t: Table, k: CString)
    requires WellFormed(t)
    ensures Values(Chain(Doubled(t), k), k) == Values(Chain(t, k), k)
  {
    var n, es := |t.chains|, Flatten(t.chains);
    var empty := Fresh(2 * n, true);
    FlattenFinds(t.chains, k, ChainOf(k, n));
    AppendAllAt(empty, es, k);
    assert Chain(Doubled(t), k) == Chain(AppendAll(empty, es), k);
    assert Chain(empty, k) == [];
  }

  /** Doubling keeps every key's list in its order, places every entry anew and keeps `len`. */
  lemma DoublingPreserves(t: Table)
    requires WellFormed(t) && Full(t)
    ensures WellFormed(Doubled(t)) && !Full(Doubled(t))
    ensures |Doubled(t).chains| == 2 * |t.chains| && Doubled(t).len == t.len
    ensures Doubled(t).moved == t.moved + |t.chains|
    ensures Abs(Doubled(t)) == Abs(t)
  {
    var n := |t.chains|;
    FreshIsEmpty(2 * n, true);
    AppendAllFits(Fresh(2 * n, true), Flatten(t.chains));
    forall k: CString
      ensures Abs(Doubled(t))[k] == Abs(t)[k]
    {
      DoublingAt(t, k);
    }
    SameMap(Abs(Doubled(t)), Abs(t));
  }

  /** One operation on a table does what it does to the map the table stands for. */
  lemma StepRefines(t: Table, op: Operation)
    requires WellFormed(t)
    ensures WellFormed(Step(t, op).0)
    ensures (Abs(Step(t, op).0), Step(t, op).1) == MapStep(Abs(t), op)
  {
    match op
    case Insert(k, v) =>
      if Full(t) {
        DoublingPreserves(t);
      }
      var roomy := if Full(t) then Doubled(t) else t;
      AppendFits(roomy, Entry(k, v));
      AppendRefines(roomy, Entry(k, v));
    case Update(k, v) => UpdateFits(t, k, v); UpdateRefines(t, k, v);
    case Delete(k) => DeleteFits(t, k); DeleteRefines(t, k);
    case Lookup(k) => FoundIsOldest(Chain(t, k), k);
  }

  /** The same, spelled out on the lists of the keys. */
  lemma StepActs(t: Table, op: Operation)
    requires WellFormed(t)
    ensures ActsOnLists(op, Abs(t)[op.key], Abs(Step(t, op).0)[op.key], Step(t, op).1)
    ensures forall k: CString :: k != op.key ==> Abs(Step(t, op).0)[k] == Abs(t)[k]
  {
    StepRefines(t, op);
    MapStepActs(Abs(t), op);
  }

  /** What the updated table holds for each key: only the oldest value of `key` changes. */
  lemma UpdatedAt(t: Table, key: CString, value: Ptr, k: CString)
    requires |t.chains| > 0
    ensures var before := Values(Chain(t, k), k);
            Values(Chain(Updated(t, key, value), k), k)
            == if k == key && before != [] then [value] + before[1..] else before
  {
    OverwrittenValues(Chain(t, key), key, value, k);
  }

  lemma UpdateFits(t: Table, key: CString, value: Ptr)
    requires WellFormed(t)
    ensures WellFormed(Updated(t, key, value))
  {
    ReplacedChain(t, key, Overwritten(Chain(t, key), key, value), t.len);
  }

  lemma UpdateRefines(t: Table, key: CString, value: Ptr)
    requires |t.chains| > 0
    ensures (Abs(Updated(t, key, value)), Found(Chain(t, key), key)) == MapStep(Abs(t), Update(key, value))
  {
    FoundIsOldest(Chain(t, key), key);
    forall k: CString
      ensures Abs(Updated(t, key, value))[k] == MapStep(Abs(t), Update(key, value)).0[k]
    {
      UpdatedAt(t, key, value, k);
      MapUpdateAt(Abs(t), key, value, k);
    }
    SameMap(Abs(Updated(t, key, value)), MapStep(Abs(t), Update(key, value)).0);
  }

  /** What is left for each key: only `key` loses its oldest value. */
  lemma DeletedAt(t: Table, key: CString, k: CString)
    requires |t.chains| > 0
    ensures var before := Values(Chain(t, k), k);
            Values(Chain(Deleted(t, key), k), k)
            == if k == key && before != [] then before[1..] else before
  {
    SplicedValues(Chain(t, key), key, k);
  }

  lemma DeleteFits(t: Table, key: CString)
    requires WellFormed(t)
    ensures WellFormed(Deleted(t, key))
  {
    ReplacedChain(t, key, Spliced(Chain(t, key), key), Deleted(t, key).len);
  }

  lemma DeleteRefines(t: Table, key: CString)
    requires |t.chains| > 0
    ensures (Abs(Deleted(t, key)), Found(Chain(t, key), key)) == MapStep(Abs(t), Delete(key))
  {
    FoundIsOldest(Chain(t, key), key);
    forall k: CString
      ensures Abs(Deleted(t, key))[k] == MapStep(Abs(t), Delete(key)).0[k]
    {
      DeletedAt(t, key, k);
      MapDeleteAt(Abs(t), key, k);
    }
    SameMap(Abs(Deleted(t, key)), MapStep(Abs(t), Delete(key)).0);
  }

  // ----- runs -----------------------------------------------------------------------

  function Run(t: Table, ops: seq<Operation>): (r: (Table, seq<Ptr>))
    requires |t.chains| > 0
    decreases |ops|
  {
    if ops == [] then (t, [])
    else
      var (t1, result) := Step(t, ops[0]);
      var (t2, results) := Run(t1, ops[1..]);
      (t2, [result] + results)
  }

  lemma RunUnfolds(t: Table, ops: seq<Operation>, i: nat)
    requires |t.chains| > 0 && i < |ops|
    ensures Run(t, ops[i..]).0 == Run(Step(t, ops[i]).0, ops[i + 1..]).0
    ensures Run(t, ops[i..]).1 == [Step(t, ops[i]).1] + Run(Step(t, ops[i]).0, ops[i + 1..]).1
  {
    assert ops[i..][1..] == ops[i + 1..];
  }

  /** Every run of operations on a table gives what it gives on the map. */
  lemma {:induction false} RunRefines(t: Table, ops: seq<Operation>)
    requires WellFormed(t)
    ensures WellFormed(Run(t, ops).0)
    ensures (Abs(Run(t, ops).0), Run(t, ops).1) == MapRun(Abs(t), ops)
    decreases |ops|
  {
    if ops != [] {
      StepRefines(t, ops[0]);
      RunRefines(Step(t, ops[0]).0, ops[1..]);
    }
  }

  lemma {:induction false} RunKeepsMode(t: Table, ops: seq<Operation>)
    requires |t.chains| > 0
    ensures Run(t, ops).0.dynamic == t.dynamic
    decreases |ops|
  {
    if ops != [] {
      RunKeepsMode(Step(t, ops[0]).0, ops[1..]);
    }
  }

  /** Mode and size never show: two new tables give the same results on the same run. */
  lemma ModeAndSizeDoNotShow(size1: nat, dynamic1: bool, size2: nat, dynamic2: bool, ops: seq<Operation>)
    requires size1 > 0 && size2 > 0
    ensures WellFormed(Run(Fresh(size1, dynamic1), ops).0) && WellFormed(Run(Fresh(size2, dynamic2), ops).0)
    ensures Run(Fresh(size1, dynamic1), ops).1 == Run(Fresh(size2, dynamic2), ops).1
    ensures Abs(Run(Fresh(size1, dynamic1), ops).0) == Abs(Run(Fresh(size2, dynamic2), ops).0)
  {
    FreshIsEmpty(size1, dynamic1);
    FreshIsEmpty(size2, dynamic2);
    RunRefines(Fresh(size1, dynamic1), ops);
    RunRefines(Fresh(size2, dynamic2), ops);
  }
}
