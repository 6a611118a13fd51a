/** The values of a configuration_parser: a tree of string-keyed maps with typed leaves, and
    what setting and getting along a path of keys means on such a tree.
  */
module ConfigTree {

  /** A `boost::any`. A leaf carries the type it was stored with. */
  datatype Any =
    | Empty
    | Leaf(tag: nat, value: int)
    | Dict(entries: map<string, Any>)

  /** The type asked for in `any_cast<T&>`. */
  datatype Kind = Plain(tag: nat) | MapKind

  function KindOf(a: Any): Kind
    requires !a.Empty?
  {
    if a.Dict? then MapKind else Plain(a.tag)
  }

  predicate Holds(a: Any, kind: Kind) {
    !a.Empty? && KindOf(a) == kind
  }

  const KEY_NOT_FOUND: int := -1800000
  const INVALID_ANY_CAST: int := -1822000
  const NO_KEYS: int := -1

  datatype Result<T> = Ok(value: T) | Err(code: int)

  type Path = seq<string>

  /** `operator[]`: the entry for the key, which is created empty when it is missing. */
  function Child(m: map<string, Any>, key: string): Any {
    if key in m then m[key] else Empty
  }

  /** What a value becomes when `v` is stored below it. An empty value turns into a map; a
      leaf refuses. */
  function SetIn(a: Any, keys: Path, v: Any): Result<Any>
    decreases |keys|
  {
    if keys == [] then Ok(v)
    else if a.Leaf? then Err(INVALID_ANY_CAST)
    else
      var m := if a.Empty? then map[] else a.entries;
      match SetIn(Child(m, keys[0]), keys[1..], v)
      case Err(code) => Err(code)
      case Ok(child) => Ok(Dict(m[keys[0] := child]))
  }

  /** `at` along a path. */
  function GetIn(a: Any, keys: Path): Result<Any>
    decreases |keys|
  {
    if keys == [] then Ok(a)
    else if !a.Dict? then Err(INVALID_ANY_CAST)
    else if keys[0] !in a.entries then Err(KEY_NOT_FOUND)
    else GetIn(a.entries[keys[0]], keys[1..])
  }

  function Cast(r: Result<Any>, kind: Kind): Result<Any> {
    if r.Ok? && !Holds(r.value, kind) then Err(INVALID_ANY_CAST) else r
  }

  // ----- reaching into a tree ------------------------------------------------------------

  /** Another value in the place a path leads to. */
  function Replace(a: Any, keys: Path, b: Any): Any
    requires GetIn(a, keys).Ok?
    decreases |keys|
  {
    if keys == [] then b
    else Dict(a.entries[keys[0] := Replace(a.entries[keys[0]], keys[1..], b)])
  }

  lemma {:induction false} ReplaceTwice(a: Any, keys: Path, b: Any, c: Any)
    requires GetIn(a, keys).Ok?
    ensures GetIn(Replace(a, keys, b), keys) == Ok(b)
    ensures Replace(Replace(a, keys, b), keys, c) == Replace(a, keys, c)
    ensures b == GetIn(a, keys).value ==> Replace(a, keys, b) == a
    decreases |keys|
  {
    if keys != [] {
      var m, k := a.entries, keys[0];
      ReplaceTwice(m[k], keys[1..], b, c);
      assert m[k := Replace(m[k], keys[1..], b)][k := Replace(m[k], keys[1..], c)]
          == m[k := Replace(m[k], keys[1..], c)];
      assert m[k := m[k]] == m;
    }
  }

  lemma {:induction false} GetThrough(a: Any, p: Path, q: Path)
    requires GetIn(a, p).Ok?
    ensures GetIn(a, p + q) == GetIn(GetIn(a, p).value, q)
    decreases |p|
  {
    if p == [] {
      assert p + q == q;
    } else {
      assert (p + q)[1..] == p[1..] + q;
      GetThrough(a.entries[p[0]], p[1..], q);
    }
  }

  /** Setting below a place that exists changes only what is there. */
  lemma {:induction false} SetThrough(a: Any, p: Path, q: Path, v: Any)
    requires GetIn(a, p).Ok?
    ensures SetIn(a, p + q, v) ==
      match SetIn(GetIn(a, p).value, q, v)
      case Err(code) => Err(code)
      case Ok(b) => Ok(Replace(a, p, b))
    decreases |p|
  {
    if p == [] {
      assert p + q == q;
    } else {
      assert (p + q)[1..] == p[1..] + q && (p + q)[0] == p[0];
      SetThrough(a.entries[p[0]], p[1..], q, v);
    }
  }

  /** The tree with another value at `p`: what setting below `p` gives depends on that value. */
  lemma SetThroughReplaced(a: Any, p: Path, b: Any, q: Path, v: Any)
    requires GetIn(a, p).Ok?
    requires SetIn(b, q, v) == SetIn(GetIn(a, p).value, q, v)
    ensures SetIn(Replace(a, p, b), p + q, v) == SetIn(a, p + q, v)
  {
    ReplaceTwice(a, p, b, b);
    SetThrough(a, p, q, v);
    SetThrough(Replace(a, p, b), p, q, v);
    if SetIn(b, q, v).Ok? {
      ReplaceTwice(a, p, b, SetIn(b, q, v).value);
    }
  }

  // ----- the steps of the walk: none of them changes what the set will give ---------------

  lemma TurnedIntoMap(a: Any, keys: Path, i: nat, v: Any)
    requires i < |keys| && GetIn(a, keys[..i]) == Ok(Empty)
    ensures GetIn(Replace(a, keys[..i], Dict(map[])), keys[..i]) == Ok(Dict(map[]))
    ensures SetIn(Replace(a, keys[..i], Dict(map[])), keys, v) == SetIn(a, keys, v)
  {
    assert keys == keys[..i] + keys[i..];
    ReplaceTwice(a, keys[..i], Dict(map[]), Empty);
    SetThroughReplaced(a, keys[..i], Dict(map[]), keys[i..], v);
  }

  /** The map at `keys[..i]` with an entry for the next key. */
  function WithChild(m: map<string, Any>, key: string): Any {
    Dict(m[key := Child(m, key)])
  }

  lemma ChildAdded(a: Any, keys: Path, i: nat, v: Any)
    requires i < |keys| && GetIn(a, keys[..i]).Ok? && GetIn(a, keys[..i]).value.Dict?
    ensures var m := GetIn(a, keys[..i]).value.entries;
            && GetIn(Replace(a, keys[..i], WithChild(m, keys[i])), keys[..i + 1]) == Ok(Child(m, keys[i]))
            && SetIn(Replace(a, keys[..i], WithChild(m, keys[i])), keys, v) == SetIn(a, keys, v)
            && (keys[i] in m ==> Replace(a, keys[..i], WithChild(m, keys[i])) == a)
  {
    var p, rest, m, k := keys[..i], keys[i..], GetIn(a, keys[..i]).value.entries, keys[i];
    assert keys == p + rest && keys[..i + 1] == p + [k] && [k][1..] == [];
    ReplaceTwice(a, p, WithChild(m, k), Empty);
    GetThrough(Replace(a, p, WithChild(m, k)), p, [k]);
    var r := SetIn(Child(m, k), rest[1..], v);
    assert r.Ok? ==> m[k := Child(m, k)][k := r.value] == m[k := r.value];
    SetThroughReplaced(a, p, WithChild(m, k), rest, v);
    if k in m {
      assert m[k := m[k]] == m;
    }
  }

  lemma LeafRefuses(a: Any, keys: Path, i: nat, v: Any)
    requires i < |keys| && GetIn(a, keys[..i]).Ok? && GetIn(a, keys[..i]).value.Leaf?
    ensures SetIn(a, keys, v) == Err(INVALID_ANY_CAST)
  {
    assert keys == keys[..i] + keys[i..];
    SetThrough(a, keys[..i], keys[i..], v);
  }

  lemma Arrived(a: Any, keys: Path, v: Any)
    requires GetIn(a, keys).Ok?
    ensures SetIn(a, keys, v) == Ok(Replace(a, keys, v))
  {
    assert keys == keys + [];
    SetThrough(a, keys, [], v);
  }

  // ----- laws of one set -------------------------------------------------------------------

  /** The set is refused exactly when a leaf stands in front of the last key. */
  lemma {:induction false} SetFailsAtLeaf(a: Any, keys: Path, v: Any)
    ensures SetIn(a, keys, v).Err? <==>
      exists n: nat :: n < |keys| && GetIn(a, keys[..n]).Ok? && GetIn(a, keys[..n]).value.Leaf?
    ensures SetIn(a, keys, v).Err? ==> SetIn(a, keys, v).code == -1822000
    decreases |keys|
  {
    if keys != [] {
      assert keys[..0] == [];
      if a.Dict? && keys[0] in a.entries {
        var child, rest := a.entries[keys[0]], keys[1..];
        SetFailsAtLeaf(child, rest, v);
        forall n: nat | n < |rest|
          ensures GetIn(a, keys[..n + 1]) == GetIn(child, rest[..n])
        {
          assert keys[..n + 1][1..] == rest[..n];
        }
        if n: nat :| n < |rest| && GetIn(child, rest[..n]).Ok? && GetIn(child, rest[..n]).value.Leaf? {
          assert GetIn(a, keys[..n + 1]).value.Leaf?;
        }
        forall n: nat | 0 < n < |keys|
          ensures GetIn(a, keys[..n]) == GetIn(child, rest[..n - 1])
        {
          assert keys[..n][1..] == rest[..n - 1];
        }
      } else if !a.Leaf? {
        EmptyAccepts(keys[1..], v);
        forall n: nat | 0 < n < |keys|
          ensures GetIn(a, keys[..n]).Err?
        {
        }
      }
    }
  }

  /** Nothing below an empty value can refuse. */
  lemma {:induction false} EmptyAccepts(keys: Path, v: Any)
    ensures SetIn(Empty, keys, v).Ok?
    decreases |keys|
  {
    if keys != [] {
      EmptyAccepts(keys[1..], v);
    }
  }

  /** After a set, reading at the path or below it reads the value that was stored. */
  lemma {:induction false} GetAfterSet(a: Any, p: Path, v: Any, q: Path)
    requires SetIn(a, p, v).Ok?
    ensures GetIn(SetIn(a, p, v).value, p + q) == GetIn(v, q)
    decreases |p|
  {
    if p == [] {
      assert p + q == q;
    } else {
      var m := if a.Empty? then map[] else a.entries;
      assert (p + q)[1..] == p[1..] + q;
      GetAfterSet(Child(m, p[0]), p[1..], v, q);
    }
  }

  /** After a set, every place in front of the path holds a map. */
  lemma {:induction false} PrefixesAreMaps(a: Any, p: Path, v: Any, n: nat)
    requires SetIn(a, p, v).Ok? && n < |p|
    ensures GetIn(SetIn(a, p, v).value, p[..n]).Ok? && GetIn(SetIn(a, p, v).value, p[..n]).value.Dict?
    decreases |p|
  {
    if n > 0 {
      var m := if a.Empty? then map[] else a.entries;
      assert p[..n][1..] == p[1..][..n - 1];
      PrefixesAreMaps(Child(m, p[0]), p[1..], v, n - 1);
    }
  }

  /** Neither path is a prefix of the other. */
  predicate Incomparable(p: Path, q: Path) {
    !(p <= q) && !(q <= p)
  }

  lemma IncomparableTails(p: Path, q: Path)
    requires Incomparable(p, q)
    ensures p != [] && q != [] && (p[0] == q[0] ==> Incomparable(p[1..], q[1..]))
  {
    if p[0] == q[0] {
      assert p == [p[0]] + p[1..] && q == [q[0]] + q[1..];
    }
  }

  /** An empty value stands where the two paths still agree. */
  predicate EmptyOnTheWay(a: Any, p: Path, q: Path) {
    || a.Empty?
    || (p != [] && q != [] && p[0] == q[0] && a.Dict? && p[0] in a.entries
        && EmptyOnTheWay(a.entries[p[0]], p[1..], q[1..]))
  }

  /** Reading along an incomparable path is untouched: the same value, or the same error. The
      one exception is an empty value on the shared keys, which the set turned into a map: the
      read fails before and after, first for want of a map and then for want of the key. */
  lemma {:induction false} OthersUnchanged(a: Any, p: Path, v: Any, q: Path)
    requires SetIn(a, p, v).Ok? && Incomparable(p, q)
    ensures GetIn(SetIn(a, p, v).value, q) == if EmptyOnTheWay(a, p, q) then Err(KEY_NOT_FOUND) else GetIn(a, q)
    ensures EmptyOnTheWay(a, p, q) ==> GetIn(a, q) == Err(INVALID_ANY_CAST)
    decreases |p|
  {
    IncomparableTails(p, q);
    if p[0] == q[0] {
      var m := if a.Empty? then map[] else a.entries;
      OthersUnchanged(Child(m, p[0]), p[1..], v, q[1..]);
    }
  }

  /** The exception happens: behind the empty value at "a", a set turns the error of a read
      beside it from "value was not a map" into "key not found". */
  lemma ErrorMayChange()
    ensures var a := Dict(map["a" := Empty]);
            && EmptyOnTheWay(a, ["a", "x"], ["a", "y"])
            && GetIn(a, ["a", "y"]) == Err(INVALID_ANY_CAST)
            && SetIn(a, ["a", "x"], Leaf(0, 0)).Ok?
            && GetIn(SetIn(a, ["a", "x"], Leaf(0, 0)).value, ["a", "y"]) == Err(KEY_NOT_FOUND)
  {
    var a, p, q := Dict(map["a" := Empty]), ["a", "x"], ["a", "y"];
    assert q[1..] == ["y"] && p[1..] == ["x"] && p[1..][1..] == [];
    assert SetIn(Empty, ["x"], Leaf(0, 0)) == Ok(Dict(map["x" := Leaf(0, 0)]));
    assert Incomparable(p, q);
    OthersUnchanged(a, p, Leaf(0, 0), q);
  }

  /** Reading one key further: the entry for the key, KEY_NOT_FOUND in a map without it, and
      INVALID_ANY_CAST below anything that is not a map; an error on the way stays. */
  lemma {:induction false} OneKeyFurther(a: Any, p: Path, k: string)
    ensures GetIn(a, []) == Ok(a)
    ensures GetIn(a, p + [k]) ==
      match GetIn(a, p)
      case Err(code) => Err(code)
      case Ok(Dict(m)) => (if k in m then Ok(m[k]) else Err(-1800000))
      case Ok(_) => Err(-1822000)
    decreases |p|
  {
    if p == [] {
      assert p + [k] == [k] && [k][1..] == [];
    } else {
      assert (p + [k])[1..] == p[1..] + [k] && (p + [k])[0] == p[0];
      if a.Dict? && p[0] in a.entries {
        OneKeyFurther(a.entries[p[0]], p[1..], k);
      }
    }
  }

  /** The typed reads: a get that succeeded elsewhere still gives its value, one that failed
      still fails. */
  lemma OtherGetsUnchanged(a: Any, p: Path, v: Any, q: Path, kind: Kind)
    requires SetIn(a, p, v).Ok? && Incomparable(p, q)
    ensures var before, after := Cast(GetIn(a, q), kind), Cast(GetIn(SetIn(a, p, v).value, q), kind);
            if before.Ok? then after == before else after.Err?
  {
    OthersUnchanged(a, p, v, q);
  }

  /** What was set can be got, with the type it was stored with and no other. */
  lemma GetBack(a: Any, p: Path, v: Any)
    requires SetIn(a, p, v).Ok?
    ensures var r := GetIn(SetIn(a, p, v).value, p);
            match v
            case Leaf(t, x) => Cast(r, MapKind) == Err(-1822000)
                               && forall u :: Cast(r, Plain(u)) == if u == t then Ok(Leaf(t, x)) else Err(-1822000)
            case Dict(m) => Cast(r, MapKind) == Ok(Dict(m)) && forall u :: Cast(r, Plain(u)) == Err(-1822000)
            case Empty => forall kind :: Cast(r, kind) == Err(-1822000)
  {
    GetAfterSet(a, p, v, []);
    assert p + [] == p;
  }

  lemma {:induction false} SetTwice(a: Any, p: Path, v: Any, w: Any)
    ensures SetIn(a, p, v).Err? ==> SetIn(a, p, w) == SetIn(a, p, v)
    ensures SetIn(a, p, v).Ok? ==> SetIn(SetIn(a, p, v).value, p, w) == SetIn(a, p, w)
    decreases |p|
  {
    if p != [] && !a.Leaf? {
      var m := if a.Empty? then map[] else a.entries;
      var k := p[0];
      SetTwice(Child(m, k), p[1..], v, w);
      if SetIn(a, p, v).Ok? {
        var child, child' := SetIn(Child(m, k), p[1..], v).value, SetIn(Child(m, k), p[1..], w);
        assert child'.Ok? ==> m[k := child][k := child'.value] == m[k := child'.value];
      }
    }
  }

  // ----- several sets ---------------------------------------------------------------------------

  /** A refused set leaves the tree as it was. */
  function AfterSet(a: Any, p: Path, v: Any): Any {
    var r := SetIn(a, p, v);
    if r.Ok? then r.value else a
  }

  /** A set elsewhere does not decide whether this one is refused. */
  lemma {:induction false} OutcomeUnchanged(a: Any, p: Path, v: Any, q: Path, w: Any)
    requires Incomparable(p, q)
    ensures SetIn(AfterSet(a, q, w), p, v).Ok? <==> SetIn(a, p, v).Ok?
    decreases |p|
  {
    IncomparableTails(p, q);
    var m := if a.Dict? then a.entries else map[];
    if p[0] == q[0] {
      OutcomeUnchanged(Child(m, p[0]), p[1..], v, q[1..], w);
      ErrorCode(Child(m, p[0]), q[1..], w);
    }
  }

  lemma {:induction false} ErrorCode(a: Any, p: Path, v: Any)
    ensures SetIn(a, p, v).Err? ==> SetIn(a, p, v) == Err(INVALID_ANY_CAST)
    decreases |p|
  {
    if p != [] && !a.Leaf? {
      ErrorCode(Child(if a.Empty? then map[] else a.entries, p[0]), p[1..], v);
    }
  }

  /** Sets on incomparable paths commute, refusals included. */
  lemma {:induction false} SetsCommute(a: Any, p: Path, v: Any, q: Path, w: Any)
    requires Incomparable(p, q)
    ensures AfterSet(AfterSet(a, p, v), q, w) == AfterSet(AfterSet(a, q, w), p, v)
    ensures SetIn(AfterSet(a, q, w), p, v).Ok? <==> SetIn(a, p, v).Ok?
    ensures SetIn(AfterSet(a, p, v), q, w).Ok? <==> SetIn(a, q, w).Ok?
    decreases |p|
  {
    OutcomeUnchanged(a, p, v, q, w);
    OutcomeUnchanged(a, q, w, p, v);
    IncomparableTails(p, q);
    if !a.Leaf? {
      if p[0] == q[0] {
        SetsCommute(Child(if a.Empty? then map[] else a.entries, p[0]), p[1..], v, q[1..], w);
        CommuteBelow(a, p, v, q, w);
      } else {
        CommuteApart(a, p, v, q, w);
      }
    }
  }

  lemma CommuteBelow(a: Any, p: Path, v: Any, q: Path, w: Any)
    requires !a.Leaf? && p != [] && q != [] && p[0] == q[0]
    requires var c, p', q' := Child(if a.Empty? then map[] else a.entries, p[0]), p[1..], q[1..];
             && AfterSet(AfterSet(c, p', v), q', w) == AfterSet(AfterSet(c, q', w), p', v)
             && (SetIn(AfterSet(c, q', w), p', v).Ok? <==> SetIn(c, p', v).Ok?)
             && (SetIn(AfterSet(c, p', v), q', w).Ok? <==> SetIn(c, q', w).Ok?)
    ensures AfterSet(AfterSet(a, p, v), q, w) == AfterSet(AfterSet(a, q, w), p, v)
  {
    var m, k := if a.Empty? then map[] else a.entries, p[0];
    var c, p', q' := Child(m, k), p[1..], q[1..];
    var x, y := SetIn(c, p', v), SetIn(c, q', w);
    if x.Ok? && y.Ok? {
      var z := AfterSet(AfterSet(c, p', v), q', w);
      assert m[k := x.value][k := z] == m[k := z] == m[k := y.value][k := z];
    }
  }

  lemma CommuteApart(a: Any, p: Path, v: Any, q: Path, w: Any)
    requires !a.Leaf? && p != [] && q != [] && p[0] != q[0]
    ensures AfterSet(AfterSet(a, p, v), q, w) == AfterSet(AfterSet(a, q, w), p, v)
  {
    var m, k, l := if a.Empty? then map[] else a.entries, p[0], q[0];
    var x, y := SetIn(Child(m, k), p[1..], v), SetIn(Child(m, l), q[1..], w);
    if x.Ok? && y.Ok? {
      assert m[k := x.value][l := y.value] == m[l := y.value][k := x.value];
    }
  }

  /** A run of sets; those that are refused change nothing. */
  function AfterSets(a: Any, sets: seq<(Path, Any)>): Any
    decreases |sets|
  {
    if sets == [] then a else AfterSets(AfterSet(a, sets[0].0, sets[0].1), sets[1..])
  }

  lemma {:induction false} AfterMoreSets(a: Any, sets: seq<(Path, Any)>, more: seq<(Path, Any)>)
    ensures AfterSets(a, sets + more) == AfterSets(AfterSets(a, sets), more)
    decreases |sets|
  {
    if sets == [] {
      assert sets + more == more;
    } else {
      assert (sets + more)[1..] == sets[1..] + more;
      AfterMoreSets(AfterSet(a, sets[0].0, sets[0].1), sets[1..], more);
    }
  }

  /** Sets elsewhere leave what is read at a path. */
  lemma {:induction false} SetsElsewhere(a: Any, p: Path, sets: seq<(Path, Any)>)
    requires GetIn(a, p).Ok?
    requires forall i :: 0 <= i < |sets| ==> Incomparable(sets[i].0, p)
    ensures GetIn(AfterSets(a, sets), p) == GetIn(a, p)
    decreases |sets|
  {
    if sets != [] {
      var q, w := sets[0].0, sets[0].1;
      if SetIn(a, q, w).Ok? {
        OthersUnchanged(a, q, w, p);
      }
      SetsElsewhere(AfterSet(a, q, w), p, sets[1..]);
    }
  }

  /** In any run, the last set at a path that is accepted decides what is read there and below,
      whatever was set before and whatever is set elsewhere afterwards. */
  lemma LastSetIsRead(a: Any, before: seq<(Path, Any)>, p: Path, v: Any, later: seq<(Path, Any)>, q: Path)
    requires SetIn(AfterSets(a, before), p, v).Ok?
    requires forall i :: 0 <= i < |later| ==> Incomparable(later[i].0, p)
    ensures GetIn(AfterSets(a, before + [(p, v)] + later), p + q) == GetIn(v, q)
  {
    var now := [(p, v)];
    var b, c := AfterSets(a, before), AfterSets(a, before + now);
    AfterMoreSets(a, before, now);
    assert now[1..] == [] && c == AfterSet(b, p, v);
    AfterMoreSets(a, before + now, later);
    GetAfterSet(b, p, v, []);
    assert p + [] == p;
    SetsElsewhere(c, p, later);
    GetThrough(AfterSets(c, later), p, q);
  }
}
