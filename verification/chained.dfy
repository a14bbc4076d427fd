/** The hash table with separate chaining of full_hashtable/hashtables.c,
    modelled as the code behaves, not as its comments intend. Memory is
    abstracted away: a `LinkedPair` list becomes a sequence in list order and
    a NULL storage slot becomes the empty sequence. */
module Chained {
  import opened Options
  import opened Djb2

  /** Values are stored and returned, never compared or hashed. */
  type Value = string

  type Pair = (Key, Value)

  /** One bucket: the linked list of `LinkedPair`s hanging off a storage slot. */
  type Chain = seq<Pair>

  /** The largest C `int`. */
  const IntMax: int := 0x7FFF_FFFF

  /** `HashTable`: capacity and count as the struct holds them, and the
      storage array with one chain per slot. */
  datatype Table = Table(capacity: int, count: int, buckets: seq<Chain>)

  /** The shape every table built by `Create` has. */
  predicate WellFormed(t: Table)
  {
    t.capacity >= 1 && |t.buckets| == t.capacity
  }

  /** No key occurs twice in a chain. */
  predicate UniqueKeys(c: Chain)
  {
    forall i, j :: 0 <= i < j < |c| ==> c[i].0 != c[j].0
  }

  /** Every pair sits in the bucket its key hashes to, and no chain holds a
      key twice. */
  predicate Valid(t: Table)
  {
    && WellFormed(t)
    && (forall i, j :: 0 <= i < |t.buckets| && 0 <= j < |t.buckets[i]| ==>
          Hash(t.buckets[i][j].0, t.capacity) == i)
    && (forall i :: 0 <= i < |t.buckets| ==> UniqueKeys(t.buckets[i]))
  }

  /** The total length of a sequence of chains. */
  function TotalLength(bs: seq<Chain>): nat
  {
    if |bs| == 0 then 0 else |bs[0]| + TotalLength(bs[1..])
  }

  /** The number of pairs actually stored, as opposed to the `count` field. */
  function Size(t: Table): nat
  {
    TotalLength(t.buckets)
  }

  /** Replacing one chain changes the total length by the difference in
      that chain's length. */
  lemma {:induction false} TotalLengthUpdate(bs: seq<Chain>, i: int, c: Chain)
    requires 0 <= i < |bs|
    ensures TotalLength(bs[i := c]) == TotalLength(bs) - |bs[i]| + |c|
  {
    if i > 0 {
      assert bs[i := c][1..] == bs[1..][i - 1 := c];
      TotalLengthUpdate(bs[1..], i - 1, c);
    }
  }

  /** Position of the first pair of `c` whose key is `k`, or `|c|` when there
      is none. */
  function FirstMatch(c: Chain, k: Key): (m: nat)
    ensures m <= |c|
    ensures forall j :: 0 <= j < m ==> c[j].0 != k
    ensures m < |c| ==> c[m].0 == k
  {
    if |c| == 0 then 0
    else if c[0].0 == k then 0
    else 1 + FirstMatch(c[1..], k)
  }

  /** The three facts above pin the first match down. */
  lemma FirstMatchIs(c: Chain, k: Key, m: nat)
    requires m <= |c|
    requires forall j :: 0 <= j < m ==> c[j].0 != k
    requires m < |c| ==> c[m].0 == k
    ensures FirstMatch(c, k) == m
  {
  }

  /** The walk of `hash_table_insert` over a non-empty chain: stop at the
      first pair holding `k` and overwrite its value, or append a new pair
      after the tail. */
  function ChainInsert(c: Chain, k: Key, v: Value): (r: Chain)
    requires |c| >= 1
    ensures var m := FirstMatch(c, k);
            if m < |c| then r == c[m := (k, v)] else r == c + [(k, v)]
  {
    if c[0].0 == k then [(c[0].0, v)] + c[1..]
    else if |c| == 1 then c + [(k, v)]
    else [c[0]] + ChainInsert(c[1..], k, v)
  }

  /** The walk of `hash_table_retrieve`: the value of the first pair
      holding `k`. */
  function ChainFind(c: Chain, k: Key): (r: Option<Value>)
    ensures var m := FirstMatch(c, k);
            r == if m < |c| then Some(c[m].1) else None
  {
    if |c| == 0 then None
    else if c[0].0 == k then Some(c[0].1)
    else ChainFind(c[1..], k)
  }

  /** `create_hash_table`: no table for a capacity below one, otherwise
      `capacity` empty buckets and a zero count. */
  function Create(capacity: int): (r: Option<Table>)
    ensures r.None? <==> capacity < 1
    ensures r.Some? ==> && Valid(r.value)
                        && r.value.capacity == capacity
                        && r.value.count == 0
                        && forall i :: 0 <= i < capacity ==> r.value.buckets[i] == []
  {
    if capacity < 1 then None
    else Some(Table(capacity, 0, seq(capacity, _ => [])))
  }

  /** `hash_table_insert`. Only bucket `Hash(k)` changes: an existing pair for
      `k` gets the new value in place, otherwise `(k, v)` goes after the tail
      (a one-element chain when the bucket was empty). `count` rises only on
      the empty-bucket path. */
  function Insert(t: Table, k: Key, v: Value): (r: Table)
    requires WellFormed(t)
    ensures WellFormed(r) && r.capacity == t.capacity
    ensures forall i :: 0 <= i < t.capacity && i != Hash(k, t.capacity) ==>
              r.buckets[i] == t.buckets[i]
    ensures var c := t.buckets[Hash(k, t.capacity)];
            var m := FirstMatch(c, k);
            && r.buckets[Hash(k, t.capacity)] == (if m < |c| then c[m := (k, v)] else c + [(k, v)])
            && r.count == (if |c| == 0 then t.count + 1 else t.count)
  {
    var i := Hash(k, t.capacity);
    if t.buckets[i] == [] then
      t.(count := t.count + 1, buckets := t.buckets[i := [(k, v)]])
    else
      t.(buckets := t.buckets[i := ChainInsert(t.buckets[i], k, v)])
  }

  /** `hash_table_retrieve`: a value found in bucket `Hash(k)` under key `k`,
      or none exactly when that bucket holds no pair for `k`. */
  function Retrieve(t: Table, k: Key): (r: Option<Value>)
    requires WellFormed(t)
    ensures r.Some? ==> (k, r.value) in t.buckets[Hash(k, t.capacity)]
    ensures r.None? <==> forall p :: p in t.buckets[Hash(k, t.capacity)] ==> p.0 != k
  {
    var i := Hash(k, t.capacity);
    if t.buckets[i] == [] then None
    else ChainFind(t.buckets[i], k)
  }

  /** `hash_table_remove` as written. The head test at line 172 compares the
      head's key with itself, so it always holds: a non-empty bucket
      `Hash(k)` loses its head whatever key it holds, an empty one is left
      alone, and `count` never changes. */
  function Remove(t: Table, k: Key): (r: Table)
    requires WellFormed(t)
    ensures WellFormed(r) && r.capacity == t.capacity && r.count == t.count
    ensures forall i :: 0 <= i < t.capacity && i != Hash(k, t.capacity) ==>
              r.buckets[i] == t.buckets[i]
    ensures var c := t.buckets[Hash(k, t.capacity)];
            r.buckets[Hash(k, t.capacity)] == if |c| == 0 then c else c[1..]
  {
    var i := Hash(k, t.capacity);
    if t.buckets[i] == [] then t
    else t.(buckets := t.buckets[i := t.buckets[i][1..]])
  }

  /** `hash_table_resize` as written: a fresh table of twice the capacity;
      nothing is copied over. The doubled capacity must fit in a C `int`. */
  function Resize(t: Table): (r: Table)
    requires WellFormed(t) && 2 * t.capacity <= IntMax
    ensures Valid(r) && r.capacity == 2 * t.capacity && r.count == 0
    ensures forall i :: 0 <= i < r.capacity ==> r.buckets[i] == []
  {
    Create(t.capacity * 2).value
  }

  // ---------------------------------------------------------------------
  // Properties of the operations
  // ---------------------------------------------------------------------

  /** A freshly created table retrieves nothing. */
  lemma CreateRetrievesNothing(capacity: int, k: Key)
    requires capacity >= 1
    ensures Retrieve(Create(capacity).value, k) == None
  {
  }

  /** Under the table invariant, `Retrieve` finds `v` for `k` exactly when the
      pair `(k, v)` is stored in some bucket. */
  lemma RetrieveIffStored(t: Table, k: Key, v: Value)
    requires Valid(t)
    ensures Retrieve(t, k) == Some(v) <==>
            exists i :: 0 <= i < |t.buckets| && (k, v) in t.buckets[i]
  {
    var h := Hash(k, t.capacity);
    var c := t.buckets[h];
    if i :| 0 <= i < |t.buckets| && (k, v) in t.buckets[i] {
      var j :| 0 <= j < |t.buckets[i]| && t.buckets[i][j] == (k, v);
      assert i == h;
      FirstMatchIs(c, k, j);
    }
    if Retrieve(t, k) == Some(v) {
      assert (k, v) in t.buckets[h];
    }
  }

  /** `Insert` keeps every pair in its own bucket and every chain free of
      repeated keys. */
  lemma InsertKeepsValid(t: Table, k: Key, v: Value)
    requires Valid(t)
    ensures Valid(Insert(t, k, v))
  {
    var r := Insert(t, k, v);
    var h := Hash(k, t.capacity);
    InsertedChain(t.buckets[h], k, v, t.capacity, h);
    assert r.buckets == t.buckets[h := r.buckets[h]];
    ReplaceBucketKeepsValid(t, h, r.buckets[h], r);
  }

  /** Replacing bucket `h` of a valid table by a chain without repeated keys,
      all hashing to `h`, gives a valid table whatever its count. */
  lemma ReplaceBucketKeepsValid(t: Table, h: int, d: Chain, r: Table)
    requires Valid(t) && 0 <= h < |t.buckets|
    requires UniqueKeys(d) && forall j :: 0 <= j < |d| ==> Hash(d[j].0, t.capacity) == h
    requires r.capacity == t.capacity && r.buckets == t.buckets[h := d]
    ensures Valid(r)
  {
    forall i | 0 <= i < |r.buckets|
      ensures UniqueKeys(r.buckets[i])
      ensures forall j :: 0 <= j < |r.buckets[i]| ==> Hash(r.buckets[i][j].0, r.capacity) == i
    {
      if i != h {
        assert r.buckets[i] == t.buckets[i];
      }
    }
  }

  /** The chain `Insert` leaves in bucket `h` keeps every key hashing to `h`
      and holds no key twice, when the old chain did and `k` hashes to `h`. */
  lemma InsertedChain(c: Chain, k: Key, v: Value, cap: int, h: int)
    requires cap >= 1 && Hash(k, cap) == h && UniqueKeys(c)
    requires forall j :: 0 <= j < |c| ==> Hash(c[j].0, cap) == h
    ensures var m := FirstMatch(c, k);
            var d := if m < |c| then c[m := (k, v)] else c + [(k, v)];
            && UniqueKeys(d)
            && forall j :: 0 <= j < |d| ==> Hash(d[j].0, cap) == h
  {
    var m := FirstMatch(c, k);
    var d := if m < |c| then c[m := (k, v)] else c + [(k, v)];
    assert forall j :: 0 <= j < |d| ==> d[j].0 == k || d[j] == c[j];
    forall i, j | 0 <= i < j < |d|
      ensures d[i].0 != d[j].0
    {
      if m == |c| && j == |c| {
        assert c[i].0 != k;
      }
    }
  }

  /** The chain `Insert` leaves behind finds `v` for `k` and is unchanged
      for every other key. */
  lemma ChainFindAfterInsert(c: Chain, k: Key, v: Value, k': Key)
    ensures var m := FirstMatch(c, k);
            var d := if m < |c| then c[m := (k, v)] else c + [(k, v)];
            && ChainFind(d, k) == Some(v)
            && (k' != k ==> ChainFind(d, k') == ChainFind(c, k'))
  {
    var m := FirstMatch(c, k);
    var d := if m < |c| then c[m := (k, v)] else c + [(k, v)];
    FirstMatchIs(d, k, m);
    if k' != k {
      var m' := FirstMatch(c, k');
      if m' < |c| {
        FirstMatchIs(d, k', m');
      } else {
        FirstMatchIs(d, k', |d|);
      }
    }
  }

  /** After `Insert(t, k, v)`, `k` retrieves `v` and every other key retrieves
      what it did before. */
  lemma InsertThenRetrieve(t: Table, k: Key, v: Value, k': Key)
    requires WellFormed(t)
    ensures Retrieve(Insert(t, k, v), k) == Some(v)
    ensures k' != k ==> Retrieve(Insert(t, k, v), k') == Retrieve(t, k')
  {
    var h := Hash(k, t.capacity);
    ChainFindAfterInsert(t.buckets[h], k, v, k');
  }

  /** `Remove` keeps the table invariant. */
  lemma RemoveKeepsValid(t: Table, k: Key)
    requires Valid(t)
    ensures Valid(Remove(t, k))
  {
    var r := Remove(t, k);
    var h := Hash(k, t.capacity);
    var c := t.buckets[h];
    assert forall j :: 0 <= j < |r.buckets[h]| ==> r.buckets[h][j] == c[j + 1];
  }

  /** What `Remove(t, k)` does to retrieval: the key at the head of bucket
      `Hash(k)` is gone, whichever key that is, and every other key retrieves
      what it did before. */
  lemma RemoveThenRetrieve(t: Table, k: Key, k': Key)
    requires Valid(t)
    ensures var c := t.buckets[Hash(k, t.capacity)];
            Retrieve(Remove(t, k), k') ==
              if |c| > 0 && k' == c[0].0 then None else Retrieve(t, k')
  {
    var r := Remove(t, k);
    var h := Hash(k, t.capacity);
    var c := t.buckets[h];
    var h' := Hash(k', t.capacity);
    if h' == h && |c| > 0 {
      var d := r.buckets[h];
      assert d == c[1..];
      if k' == c[0].0 {
        assert forall p :: p in d ==> p.0 != k';
      } else {
        var m' := FirstMatch(c, k');
        assert m' >= 1;
        FirstMatchIs(d, k', m' - 1);
      }
    }
  }

  /** The count bookkeeping of `Insert`: the number of stored pairs grows
      whenever `k` is new to its bucket, but `count` only grows when the
      bucket was empty, so appending to a chain leaves `count` behind. */
  lemma InsertGrowth(t: Table, k: Key, v: Value)
    requires WellFormed(t)
    ensures var c := t.buckets[Hash(k, t.capacity)];
            var isNew := FirstMatch(c, k) == |c|;
            && Size(Insert(t, k, v)) == Size(t) + (if isNew then 1 else 0)
            && Insert(t, k, v).count == t.count + (if |c| == 0 then 1 else 0)
  {
    var h := Hash(k, t.capacity);
    TotalLengthUpdate(t.buckets, h, Insert(t, k, v).buckets[h]);
    assert Insert(t, k, v).buckets == t.buckets[h := Insert(t, k, v).buckets[h]];
  }

  /** `Resize` as written loses every entry: no key retrieves anything from
      the resized table. */
  lemma ResizeForgetsEverything(t: Table, k: Key)
    requires WellFormed(t) && 2 * t.capacity <= IntMax
    ensures Retrieve(Resize(t), k) == None
  {
  }
}
