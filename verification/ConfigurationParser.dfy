/** The store of include/core/irods_configuration_parser.hpp: a root map that `set` updates in
    place while its cursor, a reference into the tree, moves down one key at a time. The cursor
    is modelled by the keys that lead to the value it refers to.
  */
module ConfigurationParser {
  import opened ConfigTree

  class ConfigurationStore {
    var root: map<string, Any>

    constructor ()
      ensures root == map[]
    {
      root := map[];
    }

    /** root_[_key] = _val */
    method Set(key: string, val: Any)
      modifies this
      ensures root == old(root)[key := val]
      ensures SetIn(Dict(old(root)), [key], val) == Ok(Dict(root))
    {
      root := root[key := val];
      assert [key][1..] == [];
    }

    /** Stores a value along a path, or throws and leaves every value as it was. */
    method SetPath(keys: Path, val: Any) returns (thrown: int)
      modifies this
      ensures keys == [] ==> thrown == -1 && root == old(root)
      ensures keys != [] && SetIn(Dict(old(root)), keys, val).Ok? ==>
        thrown == 0 && SetIn(Dict(old(root)), keys, val) == Ok(Dict(root))
      ensures keys != [] && SetIn(Dict(old(root)), keys, val).Err? ==>
        thrown == -1822000 && root == old(root)
    {
      if keys == [] {
        return NO_KEYS;
      }
      var cursor: Path := [];
      assert keys[..0] == [];
      for i := 0 to |keys|
        invariant cursor == keys[..i] && GetIn(Dict(root), cursor).Ok?
        invariant SetIn(Dict(root), keys, val) == SetIn(Dict(old(root)), keys, val)
        invariant root == old(root) || GetIn(Dict(root), cursor) == Ok(Empty)
      {
        var key := keys[i];
        assert keys[..i + 1] == cursor + [key];
        if cursor == [] {
          ChildAdded(Dict(root), keys, 0, val);
          root := root[key := Child(root, key)];
          cursor := [key];
          continue;
        }
        if At(cursor).Empty? {
          TurnedIntoMap(Dict(root), keys, i, val);
          Store(cursor, Dict(map[]));
        }
        var here := At(cursor);
        if !here.Dict? {
          LeafRefuses(Dict(root), keys, i, val);
          return INVALID_ANY_CAST;
        }
        ChildAdded(Dict(root), keys, i, val);
        Store(cursor, WithChild(here.entries, key));
        cursor := cursor + [key];
      }
      assert keys[..|keys|] == keys;
      Arrived(Dict(root), keys, val);
      Store(cursor, val);
      thrown := 0;
    }

    /** What the cursor refers to. */
    function At(cursor: Path): Any
      reads this
      requires GetIn(Dict(root), cursor).Ok?
    {
      GetIn(Dict(root), cursor).value
    }

    /** Assignment through the cursor. */
    method Store(cursor: Path, a: Any)
      requires cursor != [] && GetIn(Dict(root), cursor).Ok?
      modifies this
      ensures Dict(root) == Replace(Dict(old(root)), cursor, a)
    {
      root := Replace(Dict(root), cursor, a).entries;
    }

    method Get(key: string, kind: Kind) returns (r: Result<Any>)
      ensures r == if key !in root then Err(-1800000)
                   else
                     match root[key]
                     case Leaf(tag, _) => if kind == Plain(tag) then Ok(root[key]) else Err(-1822000)
                     case Dict(_) => if kind == MapKind then Ok(root[key]) else Err(-1822000)
                     case Empty => Err(-1822000)
      ensures r == Cast(GetIn(Dict(root), [key]), kind)
    {
      assert [key][1..] == [];
      if key !in root {
        return Err(KEY_NOT_FOUND);
      }
      if !Holds(root[key], kind) {
        return Err(INVALID_ANY_CAST);
      }
      return Ok(root[key]);
    }

    method GetPath(keys: Path, kind: Kind) returns (r: Result<Any>)
      ensures r == if keys == [] then Err(-1)
                   else
                     match GetIn(Dict(root), keys)
                     case Err(code) => Err(code)
                     case Ok(Leaf(tag, x)) => if kind == Plain(tag) then Ok(Leaf(tag, x)) else Err(-1822000)
                     case Ok(Dict(m)) => if kind == MapKind then Ok(Dict(m)) else Err(-1822000)
                     case Ok(Empty) => Err(-1822000)
    {
      if keys == [] {
        return Err(NO_KEYS);
      }
      var cursor: Path, here := [], Dict(root);
      assert keys[0..] == keys;
      for i := 0 to |keys|
        invariant GetIn(Dict(root), keys) == GetIn(here, keys[i..])
        invariant i == 0 ==> here == Dict(root)
      {
        var key := keys[i];
        assert keys[i..][1..] == keys[i + 1..];
        if !here.Dict? {
          return Err(INVALID_ANY_CAST);
        }
        if key !in here.entries {
          return Err(KEY_NOT_FOUND);
        }
        here := here.entries[key];
      }
      if !Holds(here, kind) {
        return Err(INVALID_ANY_CAST);
      }
      return Ok(here);
    }
  }
}
