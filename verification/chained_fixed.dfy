/** The chained table's insert, remove and resize as the comments of
    full_hashtable/hashtables.c describe them: the count tracks every stored
    pair, remove unlinks the pair holding the requested key, and resize
    carries every pair over into the larger table. Retrieval is unchanged. */
module ChainedFixed {
  import opened Options
  import opened Djb2
  import opened Chained
  import ChainedScenario

  /** The count agrees with the number of stored pairs. */
  predicate Counted(t: Table)
  {
    WellFormed(t) && t.count == Size(t)
  }

  /** `hash_table_insert` with the count bumped for every new pair, the
      append path included. The chains are those of `Insert`. */
  function InsertCounted(t: Table, k: Key, v: Value): (r: Table)
    requires WellFormed(t)
    ensures WellFormed(r) && r.capacity == t.capacity
    ensures r.buckets == Insert(t, k, v).buckets
    ensures Counted(t) ==> Counted(r)
  {
    var c := t.buckets[Hash(k, t.capacity)];
    InsertGrowth(t, k, v);
    Insert(t, k, v).(count := if FirstMatch(c, k) == |c| then t.count + 1 else t.count)
  }

  /** `InsertCounted` keeps the table invariant, as `Insert` does. */
  lemma InsertCountedKeepsValid(t: Table, k: Key, v: Value)
    requires WellFormed(t)
    ensures Valid(t) ==> Valid(InsertCounted(t, k, v))
  {
    if Valid(t) {
      InsertKeepsValid(t, k, v);
    }
  }

  /** The chain without its first pair holding `k`, the pairs after it
      moving up one place; unchanged when there is none. */
  function ChainRemove(c: Chain, k: Key): (r: Chain)
    ensures FirstMatch(c, k) == |c| ==> r == c
    ensures FirstMatch(c, k) < |c| ==>
              && |r| == |c| - 1
              && forall j {:trigger r[j]} :: 0 <= j < |r| ==> r[j] == if j < FirstMatch(c, k) then c[j] else c[j + 1]
  {
    if |c| == 0 then c
    else if c[0].0 == k then c[1..]
    else
      var rest := ChainRemove(c[1..], k);
      assert FirstMatch(c, k) == 1 + FirstMatch(c[1..], k);
      assert forall j :: 1 <= j < |rest| + 1 ==> ([c[0]] + rest)[j] == rest[j - 1];
      [c[0]] + rest
  }

  /** `hash_table_remove` with the key actually compared: the pair holding
      `k` is unlinked from bucket `Hash(k)` and the count drops by one; a key
      that is not stored changes nothing. */
  function RemoveMatching(t: Table, k: Key): (r: Table)
    requires WellFormed(t)
    ensures WellFormed(r) && r.capacity == t.capacity
    ensures forall i :: 0 <= i < t.capacity && i != Hash(k, t.capacity) ==>
              r.buckets[i] == t.buckets[i]
    ensures Counted(t) ==> Counted(r)
  {
    var i := Hash(k, t.capacity);
    var c := t.buckets[i];
    var d := ChainRemove(c, k);
    TotalLengthUpdate(t.buckets, i, d);
    t.(count := if FirstMatch(c, k) < |c| then t.count - 1 else t.count,
       buckets := t.buckets[i := d])
  }

  /** `ChainRemove` keeps only pairs of the chain and, in a chain without
      repeated keys, drops every pair for `k`. */
  lemma ChainRemoveDrops(c: Chain, k: Key)
    requires UniqueKeys(c)
    ensures forall p :: p in ChainRemove(c, k) ==> p in c && p.0 != k
  {
    var m := FirstMatch(c, k);
    var d := ChainRemove(c, k);
    if m < |c| {
      forall p | p in d
        ensures p in c && p.0 != k
      {
        var j :| 0 <= j < |d| && d[j] == p;
        if j >= m {
          assert c[j + 1] == p;
          assert c[m].0 != c[j + 1].0;
        }
      }
    }
  }

  /** `ChainRemove` keeps a chain free of repeated keys. */
  lemma ChainRemoveUnique(c: Chain, k: Key)
    requires UniqueKeys(c)
    ensures UniqueKeys(ChainRemove(c, k))
  {
    var m := FirstMatch(c, k);
    var d := ChainRemove(c, k);
    if m < |c| {
      forall i, j | 0 <= i < j < |d|
        ensures d[i].0 != d[j].0
      {
        if i >= m {
          assert d[i] == c[i + 1] && d[j] == c[j + 1];
        } else if j >= m {
          assert d[i] == c[i] && d[j] == c[j + 1];
        } else {
          assert d[i] == c[i] && d[j] == c[j];
        }
      }
    }
  }

  /** `ChainRemove` for `k` leaves every other key's lookup alone. */
  lemma ChainRemoveOthers(c: Chain, k: Key, k': Key)
    requires k' != k
    ensures ChainFind(ChainRemove(c, k), k') == ChainFind(c, k')
  {
    var m := FirstMatch(c, k);
    var d := ChainRemove(c, k);
    if m < |c| {
      var m' := FirstMatch(c, k');
      if m' < m {
        FirstMatchIs(d, k', m');
      } else {
        FirstMatchIs(d, k', m' - 1);
      }
    }
  }

  /** After `RemoveMatching(t, k)` the table is still valid, `k` retrieves
      nothing, and every other key retrieves what it did before. */
  lemma RemoveMatchingForgetsKey(t: Table, k: Key, k': Key)
    requires Valid(t)
    ensures Valid(RemoveMatching(t, k))
    ensures Retrieve(RemoveMatching(t, k), k) == None
    ensures k' != k ==> Retrieve(RemoveMatching(t, k), k') == Retrieve(t, k')
  {
    var r := RemoveMatching(t, k);
    var h := Hash(k, t.capacity);
    var c := t.buckets[h];
    var d := ChainRemove(c, k);
    ChainRemoveDrops(c, k);
    ChainRemoveUnique(c, k);
    forall j | 0 <= j < |d|
      ensures Hash(d[j].0, t.capacity) == h
    {
      assert d[j] in c;
    }
    assert r.buckets == t.buckets[h := d];
    ReplaceBucketKeepsValid(t, h, d, r);
    if k' != k {
      ChainRemoveOthers(c, k, k');
    }
  }

  /** Every pair of every chain, chain by chain. */
  function Flatten(bs: seq<Chain>): (ps: seq<Pair>)
    ensures |ps| == TotalLength(bs)
    ensures forall p :: p in ps ==> exists i :: 0 <= i < |bs| && p in bs[i]
  {
    if |bs| == 0 then [] else bs[0] + Flatten(bs[1..])
  }

  /** Insert the pairs of `ps` one after the other. */
  function InsertAll(t: Table, ps: seq<Pair>): (r: Table)
    requires WellFormed(t)
    ensures WellFormed(r) && r.capacity == t.capacity
    ensures Valid(t) ==> Valid(r)
    decreases |ps|
  {
    if |ps| == 0 then t
    else
      InsertCountedKeepsValid(t, ps[0].0, ps[0].1);
      InsertAll(InsertCounted(t, ps[0].0, ps[0].1), ps[1..])
  }

  /** `hash_table_resize` as its comment describes it: a table of twice the
      capacity into which every stored pair is inserted again. */
  function ResizeMigrating(t: Table): (r: Table)
    requires WellFormed(t) && 2 * t.capacity <= IntMax
    ensures WellFormed(r) && r.capacity == 2 * t.capacity
  {
    InsertAll(Create(2 * t.capacity).value, Flatten(t.buckets))
  }

  /** The value of the last pair of `ps` holding `k`: what survives inserting
      `ps` in order. */
  function LastFind(ps: seq<Pair>, k: Key): (r: Option<Value>)
    ensures r.None? <==> forall j :: 0 <= j < |ps| ==> ps[j].0 != k
    ensures r.Some? ==> exists j :: && 0 <= j < |ps| && ps[j] == (k, r.value)
                                   && forall j' :: j < j' < |ps| ==> ps[j'].0 != k
  {
    if |ps| == 0 then None
    else
      var rest := LastFind(ps[1..], k);
      if rest.Some? then rest
      else if ps[0].0 == k then Some(ps[0].1)
      else None
  }

  /** Looking up the last pair of a concatenation looks in the second part
      first. */
  lemma {:induction false} LastFindConcat(a: seq<Pair>, b: seq<Pair>, k: Key)
    ensures LastFind(a + b, k) == if LastFind(b, k).Some? then LastFind(b, k) else LastFind(a, k)
  {
    if |a| > 0 {
      assert (a + b)[1..] == a[1..] + b;
      LastFindConcat(a[1..], b, k);
    } else {
      assert a + b == b;
    }
  }

  /** In a chain without repeated keys the first and the last pair for `k`
      are the same one. */
  lemma {:induction false} LastFindUnique(c: Chain, k: Key)
    requires UniqueKeys(c)
    ensures LastFind(c, k) == ChainFind(c, k)
  {
    if |c| > 0 {
      assert UniqueKeys(c[1..]);
      LastFindUnique(c[1..], k);
      if c[0].0 == k {
        assert forall j :: 0 <= j < |c[1..]| ==> c[1..][j].0 != k;
      }
    }
  }

  /** When only chain `h` can hold `k`, the last pair for `k` among all
      chains is the one `ChainFind` picks in chain `h`. */
  lemma {:induction false} LastFindFlatten(bs: seq<Chain>, k: Key, h: int)
    requires forall i, j :: 0 <= i < |bs| && 0 <= j < |bs[i]| && bs[i][j].0 == k ==> i == h
    requires forall i :: 0 <= i < |bs| ==> UniqueKeys(bs[i])
    ensures LastFind(Flatten(bs), k) == if 0 <= h < |bs| then ChainFind(bs[h], k) else None
  {
    if |bs| > 0 {
      var rest := bs[1..];
      LastFindFlatten(rest, k, h - 1);
      LastFindConcat(bs[0], Flatten(rest), k);
      LastFindUnique(bs[0], k);
      if h != 0 {
        assert forall j :: 0 <= j < |bs[0]| ==> bs[0][j].0 != k;
      }
    }
  }

  /** Chains whose keys hash to their own (offset) positions, each without
      repeated keys, flatten into a sequence without repeated keys. */
  lemma {:induction false} FlattenUnique(bs: seq<Chain>, cap: int, off: int)
    requires cap >= 1
    requires forall i, j :: 0 <= i < |bs| && 0 <= j < |bs[i]| ==> Hash(bs[i][j].0, cap) == off + i
    requires forall i :: 0 <= i < |bs| ==> UniqueKeys(bs[i])
    ensures UniqueKeys(Flatten(bs))
  {
    if |bs| > 0 {
      var a := bs[0];
      var rest := bs[1..];
      FlattenUnique(rest, cap, off + 1);
      var f := Flatten(rest);
      var ps := Flatten(bs);
      assert ps == a + f;
      forall i, j | 0 <= i < j < |ps|
        ensures ps[i].0 != ps[j].0
      {
        if i < |a| && j >= |a| {
          var p := f[j - |a|];
          assert p in f;
          var i' :| 0 <= i' < |rest| && p in rest[i'];
          var j' :| 0 <= j' < |rest[i']| && rest[i'][j'] == p;
          assert Hash(p.0, cap) == off + 1 + i';
        }
      }
    }
  }

  /** Inserting `ps` in order leaves each key with its last value in `ps`,
      and every key not in `ps` with what it retrieved before. */
  lemma {:induction false} InsertAllRetrieve(t: Table, ps: seq<Pair>, k: Key)
    requires WellFormed(t)
    ensures Retrieve(InsertAll(t, ps), k) ==
            if LastFind(ps, k).Some? then LastFind(ps, k) else Retrieve(t, k)
    decreases |ps|
  {
    if |ps| > 0 {
      var t' := InsertCounted(t, ps[0].0, ps[0].1);
      InsertAllRetrieve(t', ps[1..], k);
      InsertThenRetrieve(t, ps[0].0, ps[0].1, k);
    }
  }

  /** Inserting pairs with distinct keys, none of them retrievable before,
      raises the count by the number of pairs. */
  lemma {:induction false} InsertAllCount(t: Table, ps: seq<Pair>)
    requires WellFormed(t) && UniqueKeys(ps)
    requires forall j :: 0 <= j < |ps| ==> Retrieve(t, ps[j].0) == None
    ensures InsertAll(t, ps).count == t.count + |ps|
    decreases |ps|
  {
    if |ps| > 0 {
      var k := ps[0].0;
      var c := t.buckets[Hash(k, t.capacity)];
      var m := FirstMatch(c, k);
      var t' := InsertCounted(t, k, ps[0].1);
      assert t'.count == t.count + 1;
      forall j | 0 <= j < |ps[1..]|
        ensures Retrieve(t', ps[1..][j].0) == None
      {
        assert ps[1..][j] == ps[j + 1];
        InsertThenRetrieve(t, k, ps[0].1, ps[j + 1].0);
      }
      InsertAllCount(t', ps[1..]);
    }
  }

  /** The migrating resize keeps the table invariant and every key's value,
      and carries a correct count over unchanged. */
  lemma ResizeMigratingKeepsEntries(t: Table, k: Key)
    requires Valid(t) && 2 * t.capacity <= IntMax
    ensures Valid(ResizeMigrating(t))
    ensures Retrieve(ResizeMigrating(t), k) == Retrieve(t, k)
    ensures Counted(t) ==> ResizeMigrating(t).count == t.count
  {
    ResizeMigratingRetrieves(t, k);
    if Counted(t) {
      ResizeMigratingCount(t);
    }
  }

  /** Every key retrieves from the migrated table what it did before. */
  lemma ResizeMigratingRetrieves(t: Table, k: Key)
    requires Valid(t) && 2 * t.capacity <= IntMax
    ensures Retrieve(ResizeMigrating(t), k) == Retrieve(t, k)
  {
    var e := Create(2 * t.capacity).value;
    CreateRetrievesNothing(2 * t.capacity, k);
    InsertAllRetrieve(e, Flatten(t.buckets), k);
    LastFindFlatten(t.buckets, k, Hash(k, t.capacity));
  }

  /** The migrated table counts every stored pair of the old one once. */
  lemma ResizeMigratingCount(t: Table)
    requires Valid(t) && 2 * t.capacity <= IntMax
    ensures ResizeMigrating(t).count == Size(t)
  {
    var e := Create(2 * t.capacity).value;
    var ps := Flatten(t.buckets);
    FlattenUnique(t.buckets, t.capacity, 0);
    forall j | 0 <= j < |ps|
      ensures Retrieve(e, ps[j].0) == None
    {
      CreateRetrievesNothing(2 * t.capacity, ps[j].0);
    }
    InsertAllCount(e, ps);
  }

  /** On the table of the scenario, removing "line_3" with the key compared
      leaves "line_1" in place and forgets "line_3". */
  lemma FixedScenario()
    ensures Retrieve(RemoveMatching(ChainedScenario.Filled(), ChainedScenario.Line3),
                     ChainedScenario.Line1) == Some(ChainedScenario.Value1)
    ensures Retrieve(RemoveMatching(ChainedScenario.Filled(), ChainedScenario.Line3),
                     ChainedScenario.Line3) == None
  {
    ChainedScenario.MainInserts();
    RemoveMatchingForgetsKey(ChainedScenario.Filled(), ChainedScenario.Line3, ChainedScenario.Line1);
  }
}
