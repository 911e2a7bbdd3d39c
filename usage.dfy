/**
  What a client of `HashTbl` can rely on when it combines the public
  operations: a table built without a size has 11 buckets, a stored item is
  found again with the data last stored, and a removed key is gone.
*/
module TableUsage {
  import opened Primes
  import opened MyHashTable

  /** A table built with the default size has `nextPrime(11) = 11` buckets. */
  method DefaultTable<K(==), D>(hash: K -> nat) returns (t: HashTbl<K, D>)
    ensures t.Valid() && t.size == 11 && t.count == 0 && t.Contents == map[]
  {
    t := new HashTbl(hash);
    NextPrimeOfEleven();
    NextPrimeUnique(11, t.size, 11);
  }

  /** After `insert(k, v)`, `retrieve(k)` succeeds and yields v, whether k
      was new or already present. */
  method InsertThenRetrieve<K(==), D>(t: HashTbl<K, D>, k: K, v: D, d: D) returns (found: bool, result: D)
    requires t.Valid()
    modifies t, t.buckets
    ensures t.Valid()
    ensures found && result == v
  {
    var _ := t.Insert(k, v);
    found, result := t.Retrieve(k, d);
  }

  /** After `remove(k)`, `retrieve(k)` fails and leaves the caller's item
      as it was; removing again reports that nothing was removed. */
  method RemoveThenRetrieve<K(==), D>(t: HashTbl<K, D>, k: K, d: D) returns (found: bool, result: D, again: bool)
    requires t.Valid()
    modifies t, t.buckets
    ensures t.Valid()
    ensures !found && result == d && !again
  {
    var _ := t.Remove(k);
    found, result := t.Retrieve(k, d);
    again := t.Remove(k);
  }

  /** Inserting a new key and removing it again gives back the same
      contents and count. */
  method InsertThenRemove<K(==), D>(t: HashTbl<K, D>, k: K, v: D) returns (inserted: bool, removed: bool)
    requires t.Valid() && k !in t.Contents
    modifies t, t.buckets
    ensures t.Valid()
    ensures inserted && removed
    ensures t.Contents == old(t.Contents) && t.count == old(t.count)
  {
    ghost var m, n := t.Contents, t.count;
    inserted := t.Insert(k, v);
    assert t.Contents == m[k := v] && t.count == n + 1;
    removed := t.Remove(k);
    AddThenDrop(m, k, v);
  }

  /** After `clear`, the table is empty and keeps its number of buckets. */
  method ClearThenIsEmpty<K(==), D>(t: HashTbl<K, D>) returns (empty: bool)
    requires t.Valid()
    modifies t, t.buckets
    ensures t.Valid() && empty && t.size == old(t.size)
  {
    t.Clear();
    empty := t.IsEmpty();
  }

  /** Inserting a key the table lacks, seen from outside: the pair is added,
      the count grows by one, and the size changes only when the table was
      one entry short of full, to the next prime from twice the old size. */
  method InsertNew<K(==), D>(t: HashTbl<K, D>, k: K, v: D)
    requires t.Valid() && k !in t.Contents
    modifies t, t.buckets
    ensures t.Valid() && t.Contents == old(t.Contents)[k := v] && t.count == old(t.count) + 1
    ensures old(t.count) + 1 != old(t.size) ==> t.size == old(t.size)
    ensures old(t.count) + 1 == old(t.size) ==> IsNextPrime(2 * old(t.size), t.size)
    ensures t.buckets == old(t.buckets) || fresh(t.buckets)
  {
    var inserted := t.Insert(k, v);
  }

  /** A table asked for 2 buckets gets 2; six distinct keys make it grow on
      the second insert (to 5) and on the fifth (to 11), and every key keeps
      the data stored under it. */
  method GrowFromTwo<K(==), D>(hash: K -> nat, keys: seq<K>, data: seq<D>) returns (t: HashTbl<K, D>)
    requires |keys| == 6 && |data| == 6
    requires forall a, b :: 0 <= a < b < 6 ==> keys[a] != keys[b]
    ensures t.Valid() && t.size == 11 && t.count == 6
    ensures forall a :: 0 <= a < 6 ==> keys[a] in t.Contents && t.Contents[keys[a]] == data[a]
  {
    t := new HashTbl(hash, 2);
    NextPrimeOfTwo();
    NextPrimeUnique(2, t.size, 2);
    for i := 0 to 6
      invariant t.Valid() && fresh(t) && fresh(t.buckets)
      invariant t.count == i
      invariant t.size == if i < 2 then 2 else if i < 5 then 5 else 11
      invariant forall a :: 0 <= a < i ==> keys[a] in t.Contents && t.Contents[keys[a]] == data[a]
      invariant forall k :: k in t.Contents ==> exists a :: 0 <= a < i && keys[a] == k
    {
      ghost var m := t.Contents;
      InsertNew(t, keys[i], data[i]);
      forall a | 0 <= a <= i
        ensures keys[a] in t.Contents && t.Contents[keys[a]] == data[a]
      {
        if a < i {
          assert keys[a] != keys[i] && keys[a] in m;
        }
      }
      if i == 1 {
        NextPrimeOfFour();
        NextPrimeUnique(4, t.size, 5);
      } else if i == 4 {
        NextPrimeOfTen();
        NextPrimeUnique(10, t.size, 11);
      }
    }
  }

  /** Adding a key the map lacks and dropping it again gives the map back. */
  lemma AddThenDrop<K, D>(m: map<K, D>, k: K, v: D)
    requires k !in m
    ensures m[k := v] - {k} == m
  {
    assert (m[k := v] - {k}).Keys == m.Keys;
  }
}
