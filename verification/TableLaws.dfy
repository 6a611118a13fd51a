/** What runs of operations promise beyond their results: how far a doubling table grows, what
    all its doublings together cost, and where every stored value ends up.
  */
module TableLaws {
  import opened Hashing
  import opened KeyedLists
  import opened ChainedTable

  // ----- growth and amortised cost ----------------------------------------------------

  function Max(a: int, b: int): int {
    if a < b then b else a
  }

  /** The greatest number of entries the table holds at any point of the run. */
  function Peak(t: Table, ops: seq<Operation>): int
    requires |t.chains| > 0
    decreases |ops|
  {
    if ops == [] then t.len else Max(t.len, Peak(Step(t, ops[0]).0, ops[1..]))
  }

  function Inserts(ops: seq<Operation>): nat {
    if ops == [] then 0 else (if ops[0].Insert? then 1 else 0) + Inserts(ops[1..])
  }

  /** A size reached from `initial` by doubling `k` times. */
  ghost predicate DoubledTo(initial: nat, k: nat, size: nat) {
    size == initial * Pow(2, k)
  }

  /** A doubling table of initial size `s` that has held at most `peak` entries: its size is the
      least s * 2^k that is not below `peak`, and each size it left behind was moved once. */
  ghost predicate GrownFor(t: Table, s: nat, peak: int) {
    && WellFormed(t) && t.dynamic
    && t.len <= peak <= |t.chains|
    && (exists k: nat :: DoubledTo(s, k, |t.chains|))
    && (|t.chains| == s || |t.chains| < 2 * peak)
    && t.moved == |t.chains| - s
  }

  lemma DoublesAgain(s: nat, size: nat)
    requires exists k: nat :: DoubledTo(s, k, size)
    ensures exists k: nat :: DoubledTo(s, k, 2 * size)
  {
    var k: nat :| DoubledTo(s, k, size);
    assert Pow(2, k + 1) == 2 * Pow(2, k);
    assert s * (2 * Pow(2, k)) == 2 * (s * Pow(2, k));
    assert DoubledTo(s, k + 1, 2 * size);
  }

  /** One operation: what it does to the size, the entry count and the moves. */
  lemma {:induction false} StepSizes(t: Table, op: Operation)
    requires WellFormed(t)
    ensures var next, doubles := Step(t, op).0, op.Insert? && Full(t);
            && WellFormed(next)
            && next.dynamic == t.dynamic
            && |next.chains| == (if doubles then 2 * |t.chains| else |t.chains|)
            && next.moved == (if doubles then t.moved + |t.chains| else t.moved)
            && next.len <= (if op.Insert? then t.len + 1 else t.len)
            && (doubles ==> next.len == |t.chains| + 1)
  {
    match op
    case Insert(k, v) =>
      if Full(t) {
        DoublingPreserves(t);
      }
      AppendFits(if Full(t) then Doubled(t) else t, Entry(k, v));
    case Update(k, v) => UpdateFits(t, k, v);
    case Delete(k) => DeleteFits(t, k);
    case Lookup(_) =>
  }

  lemma {:induction false} StepGrows(t: Table, s: nat, peak: int, op: Operation)
    requires s > 0 && GrownFor(t, s, peak)
    ensures GrownFor(Step(t, op).0, s, Max(peak, Step(t, op).0.len))
  {
    StepSizes(t, op);
    if op.Insert? && Full(t) {
      DoublesAgain(s, |t.chains|);
    }
  }

  lemma {:induction false} RunGrows(t: Table, s: nat, peak: int, ops: seq<Operation>)
    requires s > 0 && GrownFor(t, s, peak)
    ensures WellFormed(Run(t, ops).0)
    ensures GrownFor(Run(t, ops).0, s, Max(peak, Peak(t, ops)))
    decreases |ops|
  {
    if ops != [] {
      var next := Step(t, ops[0]).0;
      StepGrows(t, s, peak, ops[0]);
      RunGrows(next, s, Max(peak, next.len), ops[1..]);
      PeakIsAtLeastLen(next, ops[1..]);
      assert Max(peak, Peak(t, ops)) == Max(Max(peak, next.len), Peak(next, ops[1..]));
    }
  }

  lemma PeakIsAtLeastLen(t: Table, ops: seq<Operation>)
    requires |t.chains| > 0
    ensures t.len <= Peak(t, ops)
  {
  }

  lemma {:induction false} PeakIsAtMostInserts(t: Table, ops: seq<Operation>)
    requires WellFormed(t)
    ensures Peak(t, ops) <= t.len + Inserts(ops)
    decreases |ops|
  {
    if ops != [] {
      StepSizes(t, ops[0]);
      PeakIsAtMostInserts(Step(t, ops[0]).0, ops[1..]);
    }
  }

  /** The amortised bound. Whatever the run, deletes and updates included, the doublings of a
      table of initial size `s` have moved exactly `size - s` entries, the final size is
      s * 2^k, and once there was a doubling both are below twice the number of inserts. */
  lemma {:induction false} AmortisedCost(s: nat, ops: seq<Operation>)
    requires s > 0
    ensures var t := Run(Fresh(s, true), ops).0;
            && t.len <= |t.chains|
            && (exists k: nat :: DoubledTo(s, k, |t.chains|))
            && t.moved == |t.chains| - s
            && Peak(Fresh(s, true), ops) <= |t.chains|
            && (t.moved > 0 ==> |t.chains| < 2 * Peak(Fresh(s, true), ops) <= 2 * Inserts(ops))
  {
    FreshIsEmpty(s, true);
    assert Pow(2, 0) == 1;
    assert DoubledTo(s, 0, s);
    RunGrows(Fresh(s, true), s, 0, ops);
    PeakIsAtMostInserts(Fresh(s, true), ops);
    PeakIsAtLeastLen(Fresh(s, true), ops);
  }

  /** Filling the doubled table never finds it full, so re-insertion never doubles again. */
  lemma {:induction false} ReinsertionNeverDoubles(t: Table, n: nat)
    requires WellFormed(t) && Full(t)
    requires n < |Flatten(t.chains)|
    ensures !Full(AppendAll(Fresh(2 * |t.chains|, true), Flatten(t.chains)[..n]))
    ensures Inserted(AppendAll(Fresh(2 * |t.chains|, true), Flatten(t.chains)[..n]),
                     Flatten(t.chains)[n].key, Flatten(t.chains)[n].value)
         == AppendAll(Fresh(2 * |t.chains|, true), Flatten(t.chains)[..n + 1])
  {
    var es := Flatten(t.chains);
    assert es[..n + 1][..n] == es[..n];
  }

  // ----- conservation -------------------------------------------------------------------

  function Payload(chain: seq<Entry>): (vs: seq<Ptr>)
    ensures |vs| == |chain|
    ensures forall i :: 0 <= i < |chain| ==> vs[i] == chain[i].value
  {
    seq(|chain|, i requires 0 <= i < |chain| => chain[i].value)
  }

  function Reverse<T>(s: seq<T>): (r: seq<T>)
    ensures |r| == |s|
    ensures forall i :: 0 <= i < |s| ==> r[i] == s[|s| - 1 - i]
  {
    if s == [] then [] else Reverse(s[1..]) + [s[0]]
  }

  /** The callback's arguments when the chains are torn down: chain by chain, tail first. */
  function Teardown(chains: seq<seq<Entry>>): seq<Ptr> {
    if chains == [] then [] else Reverse(Payload(chains[0])) + Teardown(chains[1..])
  }

  /** The entry at place `p` of chain `i` is called back behind the chains in front of it and
      behind the entries that follow it in its chain. */
  lemma {:induction false} TeardownAt(chains: seq<seq<Entry>>, i: nat, p: nat)
    requires i < |chains| && p < |chains[i]|
    ensures var place := |Flatten(chains[..i])| + |chains[i]| - 1 - p;
            |Teardown(chains)| == |Flatten(chains)| && place < |Teardown(chains)|
            && Teardown(chains)[place] == chains[i][p].value
  {
    TeardownLength(chains);
    TeardownLength(chains[1..]);
    var first, rest := Reverse(Payload(chains[0])), Teardown(chains[1..]);
    if i == 0 {
      assert chains[..0] == [];
    } else {
      TeardownAt(chains[1..], i - 1, p);
      assert chains[..i][1..] == chains[1..][..i - 1];
      assert Flatten(chains[..i]) == chains[0] + Flatten(chains[1..][..i - 1]);
    }
  }

  lemma {:induction false} TeardownLength(chains: seq<seq<Entry>>)
    ensures |Teardown(chains)| == |Flatten(chains)|
  {
    if chains != [] {
      TeardownLength(chains[1..]);
    }
  }

  lemma TeardownUnfolds(chains: seq<seq<Entry>>, i: nat, calls: seq<Ptr>)
    requires i < |chains|
    ensures calls + Teardown(chains[i..]) == (calls + Reverse(Payload(chains[i]))) + Teardown(chains[i + 1..])
    ensures chains[i] == [] ==> Payload(chains[i]) == []
    ensures chains[0..] == chains
  {
    assert chains[i..][1..] == chains[i + 1..];
  }

  /** Where values go during a run. */
  datatype Ledger = Ledger(stored: multiset<Ptr>, displaced: multiset<Ptr>, removed: multiset<Ptr>)

  ghost function Bag(chain: seq<Entry>): multiset<Ptr> {
    multiset(Payload(chain))
  }

  ghost function Held(t: Table): multiset<Ptr> {
    Bag(Flatten(t.chains))
  }

  /** What one operation books, given the values its key had before: an insert or a successful
      update stores, an update displaces and a delete removes the oldest. */
  function Booked(l: Ledger, values: seq<Ptr>, op: Operation): Ledger {
    match op
    case Insert(_, v) => l.(stored := l.stored + multiset{v})
    case Update(_, v) =>
      if values == [] then l
      else l.(stored := l.stored + multiset{v}, displaced := l.displaced + multiset{values[0]})
    case Delete(_) => if values == [] then l else l.(removed := l.removed + multiset{values[0]})
    case Lookup(_) => l
  }

  /** The books of a run on the map. */
  ghost function Accounts(l: Ledger, m: MultiMap, ops: seq<Operation>): Ledger
    decreases |ops|
  {
    if ops == [] then l else Accounts(Booked(l, m[ops[0].key], ops[0]), MapStep(m, ops[0]).0, ops[1..])
  }

  ghost predicate Balanced(l: Ledger, t: Table) {
    l.stored == l.displaced + l.removed + Held(t)
  }

  /** If exchanging c for c' turns h into h', what c' gained over c is what h' gained over h. */
  lemma Exchange<T>(h: multiset<T>, h': multiset<T>, c: multiset<T>, c': multiset<T>,
                    lost: multiset<T>, gained: multiset<T>)
    requires h' + c == h + c' && c' + lost == c + gained
    ensures h' + lost == h + gained
  {
    forall x: T
      ensures (h' + lost)[x] == (h + gained)[x]
    {
      assert (h' + c)[x] == (h + c')[x] && (c' + lost)[x] == (c + gained)[x];
    }
  }

  lemma BagOfConcat(a: seq<Entry>, b: seq<Entry>)
    ensures Bag(a + b) == Bag(a) + Bag(b)
  {
    assert Payload(a + b) == Payload(a) + Payload(b);
  }

  lemma BagOfOne(e: Entry)
    ensures Bag([e]) == multiset{e.value}
  {
    assert Payload([e]) == [e.value];
  }

  lemma BagSplit(chain: seq<Entry>, i: nat)
    requires i < |chain|
    ensures Bag(chain) == Bag(chain[..i]) + multiset{chain[i].value} + Bag(chain[i + 1..])
  {
    assert chain == chain[..i] + [chain[i]] + chain[i + 1..];
    BagOfConcat(chain[..i] + [chain[i]], chain[i + 1..]);
    BagOfConcat(chain[..i], [chain[i]]);
    BagOfOne(chain[i]);
  }

  lemma {:induction false} ReversePermutes<T>(s: seq<T>)
    ensures multiset(Reverse(s)) == multiset(s)
  {
    if s != [] {
      ReversePermutes(s[1..]);
      assert s == [s[0]] + s[1..];
    }
  }

  /** Teardown passes each remaining value to the callback exactly once. */
  lemma {:induction false} TeardownIsHeld(chains: seq<seq<Entry>>)
    ensures multiset(Teardown(chains)) == Bag(Flatten(chains))
  {
    if chains != [] {
      TeardownIsHeld(chains[1..]);
      ReversePermutes(Payload(chains[0]));
      BagOfConcat(chains[0], Flatten(chains[1..]));
    }
  }

  /** Exchanging one chain exchanges its values among those held. */
  lemma {:induction false} HeldWithChain(chains: seq<seq<Entry>>, i: nat, chain: seq<Entry>)
    requires i < |chains|
    ensures Bag(Flatten(chains[i := chain])) + Bag(chains[i]) == Bag(Flatten(chains)) + Bag(chain)
  {
    BagOfConcat(chains[0], Flatten(chains[1..]));
    if i == 0 {
      assert chains[i := chain][1..] == chains[1..];
      BagOfConcat(chain, Flatten(chains[1..]));
    } else {
      assert chains[i := chain][1..] == chains[1..][i - 1 := chain];
      BagOfConcat(chains[0], Flatten(chains[1..][i - 1 := chain]));
      HeldWithChain(chains[1..], i - 1, chain);
      var head, rest, rest' := Bag(chains[0]), Bag(Flatten(chains[1..])), Bag(Flatten(chains[1..][i - 1 := chain]));
      assert (head + rest') + Bag(chains[i]) == head + (rest' + Bag(chains[i]));
      assert (head + rest) + Bag(chain) == head + (rest + Bag(chain));
    }
  }

  lemma {:induction false} HeldAfterAppend(t: Table, e: Entry)
    requires |t.chains| > 0
    ensures Held(Append(t, e)) == Held(t) + multiset{e.value}
  {
    var i, chain := ChainOf(e.key, |t.chains|), Chain(t, e.key);
    HeldWithChain(t.chains, i, chain + [e]);
    BagOfConcat(chain, [e]);
    BagOfOne(e);
    Exchange(Held(t), Held(Append(t, e)), Bag(chain), Bag(chain + [e]), multiset{}, multiset{e.value});
  }

  lemma {:induction false} HeldAfterAppendAll(t: Table, es: seq<Entry>)
    requires |t.chains| > 0
    ensures Held(AppendAll(t, es)) == Held(t) + Bag(es)
    decreases |es|
  {
    if es != [] {
      var front, last := es[..|es| - 1], es[|es| - 1];
      HeldAfterAppendAll(t, front);
      HeldAfterAppend(AppendAll(t, front), last);
      assert es == front + [last];
      BagOfConcat(front, [last]);
      BagOfOne(last);
    }
  }

  lemma HeldAfterDoubling(t: Table)
    requires |t.chains| > 0
    ensures Held(Doubled(t)) == Held(t)
  {
    FreshIsEmpty(2 * |t.chains|, true);
    HeldAfterAppendAll(Fresh(2 * |t.chains|, true), Flatten(t.chains));
  }

  lemma OverwrittenBag(chain: seq<Entry>, key: CString, value: Ptr)
    requires First(chain, key) < |chain|
    ensures Bag(Overwritten(chain, key, value)) + multiset{Found(chain, key)} == Bag(chain) + multiset{value}
  {
    var i, chain' := First(chain, key), Overwritten(chain, key, value);
    BagSplit(chain, i);
    BagSplit(chain', i);
    assert chain'[..i] == chain[..i] && chain'[i + 1..] == chain[i + 1..];
  }

  lemma {:induction false} HeldAfterUpdate(t: Table, key: CString, value: Ptr)
    requires |t.chains| > 0
    requires First(Chain(t, key), key) < |Chain(t, key)|
    ensures Held(Updated(t, key, value)) + multiset{Found(Chain(t, key), key)} == Held(t) + multiset{value}
  {
    var chain, chain' := Chain(t, key), Overwritten(Chain(t, key), key, value);
    var oldest := multiset{Found(chain, key)};
    OverwrittenBag(chain, key, value);
    HeldWithChain(t.chains, ChainOf(key, |t.chains|), chain');
    Exchange(Held(t), Held(Updated(t, key, value)), Bag(chain), Bag(chain'), oldest, multiset{value});
  }

  lemma SplicedBag(chain: seq<Entry>, key: CString)
    requires First(chain, key) < |chain|
    ensures Bag(Spliced(chain, key)) + multiset{Found(chain, key)} == Bag(chain)
  {
    var i := First(chain, key);
    var left, right := chain[..i], chain[i + 1..];
    BagSplit(chain, i);
    BagOfConcat(left, right);
    assert Spliced(chain, key) == left + right;
    assert Bag(left) + Bag(right) + multiset{chain[i].value} == Bag(left) + multiset{chain[i].value} + Bag(right);
  }

  lemma {:induction false} HeldAfterDelete(t: Table, key: CString)
    requires |t.chains| > 0
    requires First(Chain(t, key), key) < |Chain(t, key)|
    ensures Held(Deleted(t, key)) + multiset{Found(Chain(t, key), key)} == Held(t)
  {
    var chain, chain' := Chain(t, key), Spliced(Chain(t, key), key);
    var oldest := multiset{Found(chain, key)};
    SplicedBag(chain, key);
    HeldWithChain(t.chains, ChainOf(key, |t.chains|), chain');
    Exchange(Held(t), Held(Deleted(t, key)), Bag(chain), Bag(chain'), oldest, multiset{});
  }

  lemma Displaced(l: Ledger, held: multiset<Ptr>, held': multiset<Ptr>, oldest: multiset<Ptr>, value: multiset<Ptr>)
    requires l.stored == l.displaced + l.removed + held && held' + oldest == held + value
    ensures l.stored + value == (l.displaced + oldest) + l.removed + held'
  {
    assert l.displaced + l.removed + held + value == l.displaced + l.removed + (held' + oldest);
  }

  lemma {:induction false} UpdateBalances(l: Ledger, t: Table, key: CString, value: Ptr)
    requires |t.chains| > 0 && Balanced(l, t)
    ensures Balanced(Booked(l, Values(Chain(t, key), key), Update(key, value)), Updated(t, key, value))
  {
    var chain := Chain(t, key);
    FoundIsOldest(chain, key);
    if First(chain, key) == |chain| {
      assert t.chains[ChainOf(key, |t.chains|) := chain] == t.chains;
    } else {
      HeldAfterUpdate(t, key, value);
      Displaced(l, Held(t), Held(Updated(t, key, value)), multiset{Found(chain, key)}, multiset{value});
    }
  }

  lemma DeleteBalances(l: Ledger, t: Table, key: CString)
    requires |t.chains| > 0 && Balanced(l, t)
    ensures Balanced(Booked(l, Values(Chain(t, key), key), Delete(key)), Deleted(t, key))
  {
    var chain := Chain(t, key);
    FoundIsOldest(chain, key);
    if First(chain, key) == |chain| {
      assert Deleted(t, key).chains == t.chains;
      assert Held(Deleted(t, key)) == Held(t);
    } else {
      HeldAfterDelete(t, key);
      Removed(l, Held(t), Held(Deleted(t, key)), multiset{Found(chain, key)});
    }
  }

  lemma Removed(l: Ledger, held: multiset<Ptr>, held': multiset<Ptr>, oldest: multiset<Ptr>)
    requires l.stored == l.displaced + l.removed + held && held == held' + oldest
    ensures l.stored == l.displaced + (l.removed + oldest) + held'
  {
  }

  lemma StepBalances(l: Ledger, t: Table, op: Operation)
    requires |t.chains| > 0 && Balanced(l, t)
    ensures Balanced(Booked(l, Values(Chain(t, op.key), op.key), op), Step(t, op).0)
  {
    match op
    case Insert(k, v) =>
      HeldAfterAppend(if Full(t) then Doubled(t) else t, Entry(k, v));
      HeldAfterDoubling(t);
    case Update(k, v) => UpdateBalances(l, t, k, v);
    case Delete(k) => DeleteBalances(l, t, k);
    case Lookup(_) =>
  }

  lemma {:induction false} RunBalances(l: Ledger, t: Table, ops: seq<Operation>)
    requires WellFormed(t) && Balanced(l, t)
    ensures Balanced(Accounts(l, Abs(t), ops), Run(t, ops).0)
    decreases |ops|
  {
    if ops != [] {
      var l' := Booked(l, Values(Chain(t, ops[0].key), ops[0].key), ops[0]);
      StepBalances(l, t, ops[0]);
      StepRefines(t, ops[0]);
      RunBalances(l', Step(t, ops[0]).0, ops[1..]);
    }
  }

  const NOTHING: Ledger := Ledger(multiset{}, multiset{}, multiset{})

  /** Conservation: over any run that ends in a teardown, the values stored by inserts and
      successful updates are those displaced by updates, those removed by deletes and those
      passed to the callback, with multiplicity. */
  lemma {:induction false} Conservation(size: nat, ops: seq<Operation>)
    requires size > 0
    ensures var l := Accounts(NOTHING, EmptyMap(), ops);
            l.stored == l.displaced + l.removed + multiset(Teardown(Run(Fresh(size, false), ops).0.chains))
  {
    var t := Fresh(size, false);
    FreshIsEmpty(size, false);
    assert Payload(Flatten(t.chains)) == [];
    assert Balanced(NOTHING, t);
    RunBalances(NOTHING, t, ops);
    TeardownIsHeld(Run(t, ops).0.chains);
  }
}
