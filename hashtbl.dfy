/**
  The separate-chaining hash table `HashTbl`: an array of `size` collision
  lists and a counter of stored entries. Keys are placed by the division
  method, `hash(key) % size`; a new key is prepended to its list, and the
  table grows to the next prime at or above twice its size just before the
  count would reach the size.

  The hash functor is the function `hash` the table is built with; key
  equality is `==` on K. The ghost field `Contents` is the partial map from
  keys to data that the table stands for.
*/
module MyHashTable {
  import opened Primes
  import opened Buckets

  class HashTbl<K(==), D> {
    /** The requested initial size when the client gives none. */
    static const DefaultSize: nat := 11

    const hash: K -> nat
    var size: nat
    var count: nat
    var buckets: array<Bucket<K, D>>

    ghost var Contents: map<K, D>

    /** The table invariant: the array has `size` buckets, every key sits in
        the bucket it hashes to, no bucket holds a key twice, the buckets
        store exactly `Contents`, and `count` is both the number of entries
        and the number of keys, and stays below `size`. */
    ghost predicate Valid()
      reads this, buckets
    {
      && size == buckets.Length
      && 0 < size
      && count < size
      && ValidTable(hash, buckets[..], Contents)
      && count == TotalLength(buckets[..])
      && count == |Contents|
    }

    /** Builds an empty table of `nextPrime(initSize)` buckets. */
    constructor (hash: K -> nat, initSize: nat := DefaultSize)
      requires 1 <= initSize
      ensures Valid() && fresh(buckets)
      ensures this.hash == hash
      ensures IsNextPrime(initSize, size)
      ensures count == 0 && Contents == map[]
      ensures forall i :: 0 <= i < size ==> buckets[i] == []
    {
      this.hash := hash;
      var s := NextPrime(initSize);
      size := s;
      count := 0;
      buckets := new Bucket<K, D>[s](_ => []);
      Contents := map[];
      new;
      EmptyBucketsValid(hash, buckets[..]);
    }

    /** Stores `data` under `key`. An entry with an equal key has its data
        overwritten and the answer is false; otherwise the table first grows
        if the new entry would make the count reach the size, the entry is
        prepended to its bucket, and the answer is true. */
    method Insert(key: K, data: D) returns (inserted: bool)
      requires Valid()
      modifies this, buckets
      ensures Valid()
      ensures inserted <==> key !in old(Contents)
      ensures Contents == old(Contents)[key := data]
      ensures count == if inserted then old(count) + 1 else old(count)
      ensures !inserted || old(count) + 1 != old(size) ==> size == old(size) && buckets == old(buckets)
      ensures inserted && old(count) + 1 == old(size) ==> IsNextPrime(2 * old(size), size) && fresh(buckets)
      ensures inserted ==> buckets[Slot(hash, key, size)][0] == HashEntry(key, data)
      ensures inserted && old(count) + 1 != old(size) ==>
        buckets[Slot(hash, key, size)] == [HashEntry(key, data)] + old(buckets[Slot(hash, key, size)])
      ensures !inserted ==>
        exists j ::
          && 0 <= j < |old(buckets[Slot(hash, key, size)])|
          && old(buckets[Slot(hash, key, size)])[j].key == key
          && buckets[Slot(hash, key, size)] == old(buckets[Slot(hash, key, size)])[j := HashEntry(key, data)]
      ensures !inserted || old(count) + 1 != old(size) ==>
        forall i :: 0 <= i < size && i != Slot(hash, key, size) ==> buckets[i] == old(buckets[i])
    {
      var slot := Slot(hash, key, size);
      var j := 0;
      while j < |buckets[slot]|
        invariant 0 <= j <= |buckets[slot]|
        invariant forall j' :: 0 <= j' < j ==> buckets[slot][j'].key != key
        invariant unchanged(this) && buckets[..] == old(buckets[..])
      {
        if buckets[slot][j].key == key {
          SetData(slot, j, key, data);
          return false;
        }
        j := j + 1;
      }
      AbsentFromSlot(hash, buckets[..], Contents, key);

      if count + 1 == size {
        Rehash();
        slot := Slot(hash, key, size);
      }
      PushFront(slot, key, data);
      return true;
    }

    /** The update branch of `insert`: entry j of bucket `slot` holds `key`
        and gets `data` as its new data item. */
    method SetData(slot: nat, j: nat, key: K, data: D)
      requires Valid() && slot == Slot(hash, key, size)
      requires j < |buckets[slot]| && buckets[slot][j].key == key
      modifies this`Contents, buckets
      ensures Valid()
      ensures Contents == old(Contents)[key := data] && count == old(count)
      ensures buckets[slot] == old(buckets[slot])[j := HashEntry(key, data)]
      ensures forall i :: 0 <= i < size && i != slot ==> buckets[i] == old(buckets[i])
    {
      ghost var t := buckets[..];
      Overwrite(hash, t, Contents, key, j, data);
      buckets[slot] := buckets[slot][j := HashEntry(key, data)];
      assert buckets[..] == t[slot := t[slot][j := HashEntry(key, data)]];
      Contents := Contents[key := data];
    }

    /** The end of `insert` for a key the table does not hold yet: the entry
        goes to the front of its bucket and the count goes up by one. */
    method PushFront(slot: nat, key: K, data: D)
      requires Valid() && key !in Contents && count + 1 < size
      requires slot == Slot(hash, key, size)
      modifies this`count, this`Contents, buckets
      ensures Valid()
      ensures Contents == old(Contents)[key := data] && count == old(count) + 1
      ensures buckets[slot] == [HashEntry(key, data)] + old(buckets[slot])
      ensures forall i :: 0 <= i < size && i != slot ==> buckets[i] == old(buckets[i])
    {
      ghost var t := buckets[..];
      Prepend(hash, t, Contents, key, data);
      buckets[slot] := [HashEntry(key, data)] + buckets[slot];
      assert buckets[..] == t[slot := [HashEntry(key, data)] + t[slot]];
      Contents := Contents[key := data];
      count := count + 1;
    }

    /** Unlinks the entry whose key equals `key`, if there is one; the answer
        says whether there was. The array is never replaced or shrunk. */
    method Remove(key: K) returns (removed: bool)
      requires Valid()
      modifies this`count, this`Contents, buckets
      ensures Valid()
      ensures removed <==> key in old(Contents)
      ensures Contents == old(Contents) - {key}
      ensures count == if removed then old(count) - 1 else old(count)
      ensures !removed ==> buckets[..] == old(buckets[..])
      ensures removed ==>
        exists j ::
          && 0 <= j < |old(buckets[Slot(hash, key, size)])|
          && old(buckets[Slot(hash, key, size)])[j].key == key
          && buckets[Slot(hash, key, size)] == Unlinked(old(buckets[Slot(hash, key, size)]), j)
      ensures forall i :: 0 <= i < size && i != Slot(hash, key, size) ==> buckets[i] == old(buckets[i])
    {
      var slot := Slot(hash, key, size);
      var j := 0;
      while j < |buckets[slot]|
        invariant 0 <= j <= |buckets[slot]|
        invariant forall j' :: 0 <= j' < j ==> buckets[slot][j'].key != key
        invariant count == old(count) && Contents == old(Contents) && buckets[..] == old(buckets[..])
      {
        if buckets[slot][j].key == key {
          EraseAt(slot, j, key);
          return true;
        }
        j := j + 1;
      }
      AbsentFromSlot(hash, buckets[..], Contents, key);
      assert Contents - {key} == Contents;
      return false;
    }

    /** The erase step of `remove`: the j-th entry of the key's list, which
        holds the key, is unlinked and the count drops by one. */
    method EraseAt(slot: nat, j: nat, key: K)
      requires Valid() && slot == Slot(hash, key, size)
      requires j < |buckets[slot]| && buckets[slot][j].key == key
      modifies this`count, this`Contents, buckets
      ensures Valid()
      ensures Contents == old(Contents) - {key} && key in old(Contents)
      ensures count == old(count) - 1
      ensures buckets[slot] == Unlinked(old(buckets[slot]), j)
      ensures forall i :: 0 <= i < size && i != slot ==> buckets[i] == old(buckets[i])
    {
      ghost var t := buckets[..];
      Unlink(hash, t, Contents, key, j);
      buckets[slot] := Unlinked(buckets[slot], j);
      assert buckets[..] == t[slot := Unlinked(t[slot], j)];
      count := count - 1;
      Contents := Contents - {key};
    }

    /** Looks `key` up without changing the table. On a hit the answer is
        true and `result` is the stored data; on a miss the answer is false
        and `result` is `dataItem`, the caller's variable left as it was. */
    method Retrieve(key: K, dataItem: D) returns (found: bool, result: D)
      requires Valid()
      ensures found <==> key in Contents
      ensures found ==> result == Contents[key]
      ensures !found ==> result == dataItem
    {
      found, result := false, dataItem;
      var slot := Slot(hash, key, size);
      var j := 0;
      while j < |buckets[slot]|
        invariant 0 <= j <= |buckets[slot]|
        invariant forall j' :: 0 <= j' < j ==> buckets[slot][j'].key != key
      {
        if buckets[slot][j].key == key {
          result := buckets[slot][j].data;
          found := true;
          break;
        }
        j := j + 1;
      }
      if !found {
        AbsentFromSlot(hash, buckets[..], Contents, key);
      }
    }

    /** Empties every bucket and resets the count; the array stays. */
    method Clear()
      requires Valid()
      modifies this, buckets
      ensures Valid()
      ensures Contents == map[] && count == 0
      ensures size == old(size) && buckets == old(buckets)
      ensures forall i :: 0 <= i < size ==> buckets[i] == []
    {
      var i := 0;
      while i < size
        invariant 0 <= i <= size
        invariant unchanged(this)
        invariant forall i' :: 0 <= i' < i ==> buckets[i'] == []
      {
        buckets[i] := [];
        i := i + 1;
      }
      count := 0;
      Contents := map[];
      EmptyBucketsValid(hash, buckets[..]);
    }

    /** `clear` read by value, as its loop is evidently meant (ranging over
        the raw array pointer, it does not compile once called): each
        collision list is copied into the loop variable and the copy is
        erased, so the buckets keep their entries while the count drops to 0. */
    method ClearAsWritten()
      requires Valid()
      modifies this`count
      ensures count == 0 && buckets[..] == old(buckets[..])
      ensures old(count) != 0 ==> !Valid()
    {
      var i := 0;
      while i < size
        invariant 0 <= i <= size
      {
        var list := buckets[i];
        list := [];
        i := i + 1;
      }
      count := 0;
    }

    /** True exactly when the table stores nothing. */
    function IsEmpty(): (empty: bool)
      reads this, buckets
      requires Valid()
      ensures empty <==> Contents == map[]
    {
      count == 0
    }

    /** The number of stored keys, which is also the number of entries and
        stays below the number of buckets. */
    function Count(): (n: nat)
      reads this, buckets
      requires Valid()
      ensures n == |Contents| && n == TotalLength(buckets[..]) && n < size
    {
      count
    }

    /** The inner loop of `rehash`: every entry of `bucket`, which is bucket
        i of the old table t, is copied, front to back, to the front of the
        bucket of `newTable` its key hashes to. */
    method MoveBucket(ghost t: seq<Bucket<K, D>>, ghost m: map<K, D>, i: nat, bucket: Bucket<K, D>,
                      newTable: array<Bucket<K, D>>, ghost moved: map<K, D>) returns (ghost moved': map<K, D>)
      requires ValidTable(hash, t, m) && i < |t| && bucket == t[i] && 0 < newTable.Length
      requires ValidTable(hash, newTable[..], moved) && TotalLength(newTable[..]) == |moved|
      requires MovedUpTo(hash, t, m, moved, i, 0)
      modifies newTable
      ensures ValidTable(hash, newTable[..], moved') && TotalLength(newTable[..]) == |moved'|
      ensures MovedUpTo(hash, t, m, moved', i, |t[i]|)
    {
      moved' := moved;
      var j := 0;
      while j < |bucket|
        invariant 0 <= j <= |bucket|
        invariant ValidTable(hash, newTable[..], moved') && TotalLength(newTable[..]) == |moved'|
        invariant MovedUpTo(hash, t, m, moved', i, j)
      {
        var key, data := bucket[j].key, bucket[j].data;
        var slot := Slot(hash, key, newTable.Length);
        ghost var nt := newTable[..];
        NotYetMoved(hash, t, m, moved', i, j);
        Prepend(hash, nt, moved', key, data);
        MoveEntry(hash, t, m, moved', i, j);
        newTable[slot] := [HashEntry(key, data)] + newTable[slot];
        assert newTable[..] == nt[slot := [HashEntry(key, data)] + nt[slot]];
        moved' := moved'[key := data];
        j := j + 1;
      }
    }

    /** The loops of `rehash`: every entry of every bucket, bucket by bucket
        and front to back, is copied to the front of the bucket of `newTable`
        its key hashes to. The old buckets are left as they are. */
    method MoveEntries(newTable: array<Bucket<K, D>>)
      requires Valid() && newTable != buckets && 0 < newTable.Length
      requires forall i :: 0 <= i < newTable.Length ==> newTable[i] == []
      modifies newTable
      ensures ValidTable(hash, newTable[..], Contents) && TotalLength(newTable[..]) == count
    {
      ghost var t, m := buckets[..], Contents;
      ghost var moved: map<K, D> := map[];
      EmptyBucketsValid(hash, newTable[..]);
      var i := 0;
      while i < size
        invariant 0 <= i <= size
        invariant buckets[..] == t
        invariant ValidTable(hash, newTable[..], moved) && TotalLength(newTable[..]) == |moved|
        invariant MovedBelow(hash, t, m, moved, i)
      {
        if buckets[i] == [] {
          StartBucket(hash, t, m, moved, i);
          FinishBucket(hash, t, m, moved, i);
          i := i + 1;
          continue;
        }
        StartBucket(hash, t, m, moved, i);
        moved := MoveBucket(t, m, i, buckets[i], newTable, moved);
        FinishBucket(hash, t, m, moved, i);
        i := i + 1;
      }
      AllMoved(hash, t, m, moved);
    }

    /** Grows the array to `nextPrime(2 * size)` buckets and moves every
        entry to the bucket its key hashes to under the new size, prepending;
        the new array is filled completely before it replaces the old one. */
    method Rehash()
      requires Valid()
      modifies this
      ensures Valid() && fresh(buckets)
      ensures IsNextPrime(2 * old(size), size) && 2 * old(size) <= size
      ensures Contents == old(Contents) && count == old(count)
    {
      var newSize := NextPrime(size * 2);
      var newTable := new Bucket<K, D>[newSize](_ => []);
      MoveEntries(newTable);
      buckets := newTable;
      size := newSize;
    }
  }
}
