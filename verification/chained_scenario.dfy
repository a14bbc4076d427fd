/** The `main` of full_hashtable/hashtables.c: three keys in a table of two
    buckets, then a removal. */
module ChainedScenario {
  import opened Options
  import opened Djb2
  import opened Chained

  /** "line_1", "line_2" and "line_3" as byte strings. */
  const Line1: Key := [108, 105, 110, 101, 95, 49]
  const Line2: Key := [108, 105, 110, 101, 95, 50]
  const Line3: Key := [108, 105, 110, 101, 95, 51]

  const Value1: Value := "Tiny hash table\n"
  const Value2: Value := "Filled beyond capacity\n"
  const Value3: Value := "Linked list saves the day!\n"

  /** The byte sums of the three keys, unfolded one byte at a time. */
  lemma KeySums()
    ensures ByteSum(Line1) == 568 && ByteSum(Line2) == 569 && ByteSum(Line3) == 570
  {
    assert Line1[..5] == Line2[..5] == Line3[..5] == [108, 105, 110, 101, 95];
    assert [108, 105, 110, 101, 95][..4] == [108, 105, 110, 101];
    assert [108, 105, 110, 101][..3] == [108, 105, 110];
    assert [108, 105, 110][..2] == [108, 105];
    assert [108, 105][..1] == [108];
  }

  /** With two buckets "line_1" and "line_3" collide in bucket 1 and "line_2"
      goes to bucket 0. */
  lemma BucketIndices()
    ensures Hash(Line1, 2) == 1 && Hash(Line2, 2) == 0 && Hash(Line3, 2) == 1
  {
    KeySums();
    HashSmallModulus(Line1, 2);
    HashSmallModulus(Line2, 2);
    HashSmallModulus(Line3, 2);
  }

  /** The table after the three inserts of `main`. */
  function Filled(): (t: Table)
    ensures Valid(t) && t.capacity == 2
  {
    var t0 := Create(2).value;
    var t1 := Insert(t0, Line1, Value1);
    InsertKeepsValid(t0, Line1, Value1);
    var t2 := Insert(t1, Line2, Value2);
    InsertKeepsValid(t1, Line2, Value2);
    InsertKeepsValid(t2, Line3, Value3);
    Insert(t2, Line3, Value3)
  }

  /** "line_1" lands alone in the empty bucket 1. */
  lemma FirstInsert()
    ensures Insert(Create(2).value, Line1, Value1) == Table(2, 1, [[], [(Line1, Value1)]])
  {
    BucketIndices();
    var t0 := Create(2).value;
    assert t0.buckets == [[], []];
  }

  /** "line_2" lands alone in the empty bucket 0. */
  lemma SecondInsert()
    ensures Insert(Table(2, 1, [[], [(Line1, Value1)]]), Line2, Value2)
            == Table(2, 2, [[(Line2, Value2)], [(Line1, Value1)]])
  {
    BucketIndices();
  }

  /** "line_3" is appended behind "line_1" and `count` stays at 2. */
  lemma ThirdInsert()
    ensures Insert(Table(2, 2, [[(Line2, Value2)], [(Line1, Value1)]]), Line3, Value3)
            == Table(2, 2, [[(Line2, Value2)], [(Line1, Value1), (Line3, Value3)]])
  {
    BucketIndices();
    var t2 := Table(2, 2, [[(Line2, Value2)], [(Line1, Value1)]]);
    var c := t2.buckets[1];
    assert c == [(Line1, Value1)];
    assert Line1[5] != Line3[5];
    FirstMatchIs(c, Line3, 1);
    var t3 := Insert(t2, Line3, Value3);
    assert t3.count == 2;
    assert t3.buckets[0] == [(Line2, Value2)];
    assert t3.buckets[1] == c + [(Line3, Value3)] == [(Line1, Value1), (Line3, Value3)];
    assert |t3.buckets| == 2;
    assert t3.buckets == [[(Line2, Value2)], [(Line1, Value1), (Line3, Value3)]];
  }

  /** The buckets after the three inserts: "line_2" alone in bucket 0,
      "line_3" appended after "line_1" in bucket 1; `count` was bumped only
      for the two inserts into empty buckets. */
  lemma FilledLayout()
    ensures Filled() == Table(2, 2, [[(Line2, Value2)], [(Line1, Value1), (Line3, Value3)]])
  {
    FirstInsert();
    SecondInsert();
    ThirdInsert();
  }

  /** All three keys retrieve their values, yet `count` is 2 while three
      pairs are stored. */
  lemma MainInserts()
    ensures Retrieve(Filled(), Line1) == Some(Value1)
    ensures Retrieve(Filled(), Line2) == Some(Value2)
    ensures Retrieve(Filled(), Line3) == Some(Value3)
    ensures Filled().count == 2 && Size(Filled()) == 3
  {
    FilledLayout();
    BucketIndices();
    var t := Filled();
    RetrieveIffStored(t, Line1, Value1);
    RetrieveIffStored(t, Line2, Value2);
    RetrieveIffStored(t, Line3, Value3);
    assert (Line1, Value1) in t.buckets[1];
    assert (Line2, Value2) in t.buckets[0];
    assert (Line3, Value3) in t.buckets[1];
  }

  /** Removing "line_1" from the table that holds only "line_1" empties
      every bucket, yet `count` stays at 1. */
  lemma RemoveKeepsCount()
    ensures var t := Remove(Insert(Create(2).value, Line1, Value1), Line1);
            t.count == 1 && Size(t) == 0
  {
    FirstInsert();
    RemoveEmptiesBuckets();
    var bs: seq<Chain> := [[], []];
    assert bs[1..] == [[]];
    assert bs[1..][1..] == [];
  }

  /** Removing "line_1" unlinks the only pair of bucket 1 and leaves the
      count alone. */
  lemma RemoveEmptiesBuckets()
    ensures var t := Remove(Table(2, 1, [[], [(Line1, Value1)]]), Line1);
            t.count == 1 && t.buckets == [[], []]
  {
    BucketIndices();
    var t1 := Table(2, 1, [[], [(Line1, Value1)]]);
    var t := Remove(t1, Line1);
    assert t.buckets[1] == t1.buckets[1][1..] == [];
    assert t.buckets[0] == t1.buckets[0] == [];
    assert |t.buckets| == 2;
  }

  /** Removing "line_2" empties bucket 0; "line_1" and "line_3" are still
      found and "line_2" is not. */
  lemma MainRemove()
    ensures Retrieve(Remove(Filled(), Line2), Line1) == Some(Value1)
    ensures Retrieve(Remove(Filled(), Line2), Line2) == None
    ensures Retrieve(Remove(Filled(), Line2), Line3) == Some(Value3)
  {
    FilledLayout();
    BucketIndices();
    var t := Filled();
    RemoveThenRetrieve(t, Line2, Line1);
    RemoveThenRetrieve(t, Line2, Line2);
    RemoveThenRetrieve(t, Line2, Line3);
  }

  /** Removing "line_3" from the same table deletes "line_1", the head of
      their shared bucket, and "line_3" stays retrievable. */
  lemma RemoveDropsWrongPair()
    ensures Retrieve(Remove(Filled(), Line3), Line1) == None
    ensures Retrieve(Remove(Filled(), Line3), Line3) == Some(Value3)
  {
    FilledLayout();
    BucketIndices();
    var t := Filled();
    RemoveThenRetrieve(t, Line3, Line1);
    RemoveThenRetrieve(t, Line3, Line3);
  }
}
