/** The `main` of basic_hashtable/b_hashtables.c on a table of sixteen
    slots, plus two collisions the single-slot design mishandles. */
module BasicScenario {
  import opened Options
  import opened Djb2
  import opened Basic

  /** "line", "linee", and "enil" (the bytes of "line" reversed). */
  const Line: Key := [108, 105, 110, 101]
  const Linee: Key := [108, 105, 110, 101, 101]
  const Enil: Key := [101, 110, 105, 108]

  const HereToday: Value := "Here today...\n"

  /** The byte sums of the three keys, unfolded one byte at a time. */
  lemma KeySums()
    ensures ByteSum(Line) == 424 && ByteSum(Linee) == 525 && ByteSum(Enil) == 424
  {
    assert Linee[..4] == Line;
    assert Line[..3] == [108, 105, 110];
    assert [108, 105, 110][..2] == [108, 105];
    assert [108, 105][..1] == [108];
    assert Enil[..3] == [101, 110, 105];
    assert [101, 110, 105][..2] == [101, 110];
    assert [101, 110][..1] == [101];
  }

  /** With sixteen slots "line" and "enil" share slot 13 and "linee" goes to
      slot 2. */
  lemma SlotIndices()
    ensures Hash(Line, 16) == 13 && Hash(Linee, 16) == 2 && Hash(Enil, 16) == 13
  {
    KeySums();
    HashSmallModulus(Line, 16);
    HashSmallModulus(Linee, 16);
    HashSmallModulus(Enil, 16);
  }

  /** The table after `main` inserts "line". */
  function Filled(): (t: Table)
    ensures Valid(t) && t.capacity == 16
  {
    InsertKeepsValid(Create(16).value, Line, HereToday);
    Insert(Create(16).value, Line, HereToday)
  }

  /** "line" retrieves its value and "linee" retrieves nothing; after
      removing "line" it is gone too. */
  lemma MainScenario()
    ensures Retrieve(Filled(), Line) == Some(HereToday)
    ensures Retrieve(Filled(), Linee) == None
    ensures Retrieve(Remove(Filled(), Line), Line) == None
  {
    SlotIndices();
    CreateRetrievesNothing(16, Linee);
    InsertThenRetrieve(Create(16).value, Line, HereToday, Line);
    InsertThenRetrieve(Create(16).value, Line, HereToday, Linee);
    RemoveThenRetrieve(Filled(), Line, Line);
  }

  /** The final `destroy_hash_table` of `main` empties every slot. */
  method MainDestroy() returns (r: Table)
    ensures r.capacity == 16 && |r.slots| == 16
    ensures forall i :: 0 <= i < 16 ==> r.slots[i] == None
  {
    var t := Remove(Filled(), Line);
    RemoveKeepsValid(Filled(), Line);
    r := Destroy(t);
  }

  /** "enil" was never inserted, yet it retrieves the value of "line", which
      shares its slot. */
  lemma RetrieveReturnsForeignValue()
    ensures Retrieve(Filled(), Enil) == Some(HereToday)
  {
    SlotIndices();
    InsertThenRetrieve(Create(16).value, Line, HereToday, Enil);
  }

  /** Removing "enil", which is not in the table, deletes "line". */
  lemma RemoveDropsForeignPair()
    ensures Retrieve(Remove(Filled(), Enil), Line) == None
  {
    SlotIndices();
    RemoveThenRetrieve(Filled(), Enil, Line);
  }
}
