/** The single-slot hash table of basic_hashtable/b_hashtables.c, modelled
    as the code behaves: each storage slot holds at most one pair, and
    retrieval and removal look at the slot without comparing keys. */
module Basic {
  import opened Options
  import opened Djb2

  /** Values are stored and returned, never compared or hashed. */
  type Value = string

  type Pair = (Key, Value)

  /** `BasicHashTable`: the capacity and the storage array, a NULL slot being
      `None`. */
  datatype Table = Table(capacity: int, slots: seq<Option<Pair>>)

  /** The shape every table built by `Create` has. */
  predicate WellFormed(t: Table)
  {
    t.capacity >= 1 && |t.slots| == t.capacity
  }

  /** Every occupied slot holds a key that hashes to that slot. */
  predicate Valid(t: Table)
  {
    && WellFormed(t)
    && forall i :: 0 <= i < |t.slots| && t.slots[i].Some? ==>
         Hash(t.slots[i].value.0, t.capacity) == i
  }

  /** `create_hash_table`: no table for a capacity below one, otherwise
      `capacity` empty slots. */
  function Create(capacity: int): (r: Option<Table>)
    ensures r.None? <==> capacity < 1
    ensures r.Some? ==> && Valid(r.value)
                        && r.value.capacity == capacity
                        && forall i :: 0 <= i < capacity ==> r.value.slots[i] == None
  {
    if capacity < 1 then None
    else Some(Table(capacity, seq(capacity, _ => None)))
  }

  /** `hash_table_insert`: slot `Hash(k)` ends up holding exactly `(k, v)`,
      whether it was empty or held any other pair; no other slot changes. */
  function Insert(t: Table, k: Key, v: Value): (r: Table)
    requires WellFormed(t)
    ensures WellFormed(r) && r.capacity == t.capacity
    ensures r.slots[Hash(k, t.capacity)] == Some((k, v))
    ensures forall i :: 0 <= i < t.capacity && i != Hash(k, t.capacity) ==>
              r.slots[i] == t.slots[i]
  {
    // Overwriting the occupant's key and value in place and storing a new
    // pair in an empty slot leave the same pair behind.
    t.(slots := t.slots[Hash(k, t.capacity) := Some((k, v))])
  }

  /** `hash_table_retrieve`: the value of whatever pair sits in slot
      `Hash(k)`, without looking at its key; none only when the slot is
      empty. */
  function Retrieve(t: Table, k: Key): (r: Option<Value>)
    requires WellFormed(t)
    ensures r.None? <==> t.slots[Hash(k, t.capacity)].None?
    ensures r.Some? ==> exists k' :: t.slots[Hash(k, t.capacity)] == Some((k', r.value))
  {
    var i := Hash(k, t.capacity);
    if t.slots[i].Some? then Some(t.slots[i].value.1) else None
  }

  /** `hash_table_remove`: slot `Hash(k)` is emptied whatever key it holds;
      no other slot changes. */
  function Remove(t: Table, k: Key): (r: Table)
    requires WellFormed(t)
    ensures WellFormed(r) && r.capacity == t.capacity
    ensures r.slots[Hash(k, t.capacity)] == None
    ensures forall i :: 0 <= i < t.capacity && i != Hash(k, t.capacity) ==>
              r.slots[i] == t.slots[i]
  {
    var i := Hash(k, t.capacity);
    if t.slots[i].Some? then t.(slots := t.slots[i := None]) else t
  }

  /** The slot-clearing loop of `destroy_hash_table`: each occupied slot is
      removed through its own key. Because that key hashes back to the same
      slot, the loop empties every slot. */
  method Destroy(t: Table) returns (r: Table)
    requires Valid(t)
    ensures r.capacity == t.capacity && |r.slots| == |t.slots|
    ensures forall i :: 0 <= i < |r.slots| ==> r.slots[i] == None
  {
    r := t;
    var i := 0;
    while i < r.capacity
      invariant 0 <= i <= t.capacity
      invariant Valid(r) && r.capacity == t.capacity
      invariant forall j :: 0 <= j < i ==> r.slots[j] == None
    {
      if r.slots[i].Some? {
        r := Remove(r, r.slots[i].value.0);
      }
      i := i + 1;
    }
  }

  // ---------------------------------------------------------------------
  // Properties of the operations
  // ---------------------------------------------------------------------

  /** A freshly created table retrieves nothing. */
  lemma CreateRetrievesNothing(capacity: int, k: Key)
    requires capacity >= 1
    ensures Retrieve(Create(capacity).value, k) == None
  {
  }

  /** `Insert` keeps every occupied slot holding a key that hashes to it. */
  lemma InsertKeepsValid(t: Table, k: Key, v: Value)
    requires Valid(t)
    ensures Valid(Insert(t, k, v))
  {
  }

  /** `Remove` keeps every occupied slot holding a key that hashes to it. */
  lemma RemoveKeepsValid(t: Table, k: Key)
    requires Valid(t)
    ensures Valid(Remove(t, k))
  {
  }

  /** After `Insert(t, k, v)` every key hashing to `k`'s slot retrieves `v`,
      `k` itself included, and every other key retrieves what it did
      before. */
  lemma InsertThenRetrieve(t: Table, k: Key, v: Value, k': Key)
    requires WellFormed(t)
    ensures Retrieve(Insert(t, k, v), k') ==
            if Hash(k', t.capacity) == Hash(k, t.capacity) then Some(v) else Retrieve(t, k')
  {
  }

  /** After `Remove(t, k)` every key hashing to `k`'s slot retrieves nothing
      and every other key retrieves what it did before. */
  lemma RemoveThenRetrieve(t: Table, k: Key, k': Key)
    requires WellFormed(t)
    ensures Retrieve(Remove(t, k), k') ==
            if Hash(k', t.capacity) == Hash(k, t.capacity) then None else Retrieve(t, k')
  {
  }

  /** Removing the same key twice is the same as removing it once. */
  lemma RemoveIdempotent(t: Table, k: Key)
    requires WellFormed(t)
    ensures Remove(Remove(t, k), k) == Remove(t, k)
  {
  }
}
