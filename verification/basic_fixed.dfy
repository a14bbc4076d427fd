/** Retrieval and removal for the single-slot table as the comments at
    basic_hashtable/b_hashtables.c:130 and 147 describe them ("if key_found"):
    the slot only answers for the key it actually holds. */
module BasicFixed {
  import opened Options
  import opened Djb2
  import opened Basic
  import BasicScenario

  /** The value in slot `Hash(k)` when that slot holds `k` itself. */
  function RetrieveChecked(t: Table, k: Key): (r: Option<Value>)
    requires WellFormed(t)
    ensures r.Some? ==> t.slots[Hash(k, t.capacity)] == Some((k, r.value))
    ensures r.None? ==> forall v :: t.slots[Hash(k, t.capacity)] != Some((k, v))
  {
    var i := Hash(k, t.capacity);
    if t.slots[i].Some? && t.slots[i].value.0 == k then Some(t.slots[i].value.1) else None
  }

  /** Slot `Hash(k)` emptied only when it holds `k` itself. */
  function RemoveChecked(t: Table, k: Key): (r: Table)
    requires WellFormed(t)
    ensures WellFormed(r) && r.capacity == t.capacity
    ensures forall i :: 0 <= i < t.capacity && i != Hash(k, t.capacity) ==>
              r.slots[i] == t.slots[i]
    ensures r.slots[Hash(k, t.capacity)] ==
            if t.slots[Hash(k, t.capacity)].Some? && t.slots[Hash(k, t.capacity)].value.0 == k
            then None else t.slots[Hash(k, t.capacity)]
  {
    var i := Hash(k, t.capacity);
    if t.slots[i].Some? && t.slots[i].value.0 == k then t.(slots := t.slots[i := None]) else t
  }

  /** Under the table invariant, checked retrieval finds `v` for `k` exactly
      when the pair `(k, v)` is stored in some slot. */
  lemma RetrieveCheckedIffStored(t: Table, k: Key, v: Value)
    requires Valid(t)
    ensures RetrieveChecked(t, k) == Some(v) <==>
            exists i :: 0 <= i < |t.slots| && t.slots[i] == Some((k, v))
  {
    if i :| 0 <= i < |t.slots| && t.slots[i] == Some((k, v)) {
      assert Hash(k, t.capacity) == i;
    }
  }

  /** After `Insert(t, k, v)` checked retrieval answers `v` for `k` and
      nothing for another key that shares its slot: the overwritten pair is
      gone, but it is no longer passed off as someone else's. */
  lemma RetrieveCheckedOnlyOwnKey(t: Table, k: Key, v: Value, k': Key)
    requires WellFormed(t)
    ensures RetrieveChecked(Insert(t, k, v), k') ==
            if k' == k then Some(v)
            else if Hash(k', t.capacity) == Hash(k, t.capacity) then None
            else RetrieveChecked(t, k')
  {
  }

  /** Checked removal forgets `k` and nothing else. */
  lemma RemoveCheckedKeepsOthers(t: Table, k: Key, k': Key)
    requires WellFormed(t)
    ensures RetrieveChecked(RemoveChecked(t, k), k') ==
            if k' == k then None else RetrieveChecked(t, k')
  {
  }

  /** The two collisions of the scenario, answered correctly: "enil" finds
      nothing, and removing it leaves "line" in place. */
  lemma CheckedScenario()
    ensures RetrieveChecked(BasicScenario.Filled(), BasicScenario.Enil) == None
    ensures RetrieveChecked(RemoveChecked(BasicScenario.Filled(), BasicScenario.Enil),
                            BasicScenario.Line) == Some(BasicScenario.HereToday)
  {
    BasicScenario.SlotIndices();
    var t0 := Create(16).value;
    RetrieveCheckedOnlyOwnKey(t0, BasicScenario.Line, BasicScenario.HereToday, BasicScenario.Enil);
    RetrieveCheckedOnlyOwnKey(t0, BasicScenario.Line, BasicScenario.HereToday, BasicScenario.Line);
    RemoveCheckedKeepsOthers(BasicScenario.Filled(), BasicScenario.Enil, BasicScenario.Line);
  }
}
