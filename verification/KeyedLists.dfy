/** What the hash table is for: every key has a list of values, oldest first. */
module KeyedLists {
  import opened Hashing

  /** A `const void*`; the table never looks behind it. */
  type Ptr = nat
  const NULL: Ptr := 0

  /** Every key has a list; it is empty when the key is absent. */
  type MultiMap = m: imap<CString, seq<Ptr>> | forall k: CString :: k in m
    ghost witness imap k: CString :: NoValues(k)

  ghost function EmptyMap(): MultiMap {
    imap k: CString :: NoValues(k)
  }

  function NoValues(key: CString): seq<Ptr> {
    []
  }

  datatype Operation =
    | Insert(key: CString, value: Ptr)
    | Update(key: CString, value: Ptr)
    | Delete(key: CString)
    | Lookup(key: CString)

  /** What a call returns: the oldest value, or NULL for a key without one. */
  function Oldest(values: seq<Ptr>): Ptr {
    if values == [] then NULL else values[0]
  }

  ghost function MapStep(m: MultiMap, op: Operation): (MultiMap, Ptr) {
    var values := m[op.key];
    match op
    case Insert(k, v) => (m[k := values + [v]], 1)
    case Update(k, v) => (if values == [] then m else m[k := [v] + values[1..]], Oldest(values))
    case Delete(k) => (if values == [] then m else m[k := values[1..]], Oldest(values))
    case Lookup(k) => (m, Oldest(values))
  }

  lemma SameMap(m: MultiMap, m': MultiMap)
    requires forall k: CString :: m[k] == m'[k]
    ensures m == m'
  {
  }

  lemma MapInsertAt(m: MultiMap, key: CString, value: Ptr, k: CString)
    ensures MapStep(m, Insert(key, value)).0[k] == m[k] + (if key == k then [value] else [])
  {
  }

  lemma MapUpdateAt(m: MultiMap, key: CString, value: Ptr, k: CString)
    ensures MapStep(m, Update(key, value)).0[k]
         == if k == key && m[k] != [] then [value] + m[k][1..] else m[k]
  {
  }

  lemma MapDeleteAt(m: MultiMap, key: CString, k: CString)
    ensures MapStep(m, Delete(key)).0[k] == if k == key && m[k] != [] then m[k][1..] else m[k]
  {
  }

  /** Spelled out on the lists: inserting appends, the others look at the oldest value of their key
      and return it, or 0 for a key without one; no other key's list changes. */
  ghost predicate ActsOnLists(op: Operation, before: seq<Ptr>, after: seq<Ptr>, result: Ptr) {
    && result == (if op.Insert? then 1 else if before == [] then 0 else before[0])
    && match op
       case Insert(_, v) => after == before + [v]
       case Update(_, v) => after == if before == [] then [] else [v] + before[1..]
       case Delete(_) => after == if before == [] then [] else before[1..]
       case Lookup(_) => after == before
  }

  lemma MapStepActs(m: MultiMap, op: Operation)
    ensures ActsOnLists(op, m[op.key], MapStep(m, op).0[op.key], MapStep(m, op).1)
    ensures forall k: CString :: k != op.key ==> MapStep(m, op).0[k] == m[k]
  {
  }

  /** The map after a run of operations, and what each of them returned. */
  ghost function MapRun(m: MultiMap, ops: seq<Operation>): (MultiMap, seq<Ptr>) {
    if ops == [] then (m, [])
    else
      var (m1, r) := MapStep(m, ops[0]);
      var (m2, rs) := MapRun(m1, ops[1..]);
      (m2, [r] + rs)
  }
}
