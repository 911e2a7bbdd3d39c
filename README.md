# Separate-chaining hash table `MyHashTable::HashTbl`, in Dafny

This project models the generic C++ hash table `HashTbl<KeyType, DataType,
KeyHash, KeyEqual>` of `include/hashtbl.h` and `include/hashtbl.cpp`.

**State.** The table is an array of `mSize` collision lists
(`mpDataTable`) plus a counter `mCount`. A key goes to bucket
`hash(key) % mSize` (the division method). A new key is pushed to the
front of its list. Just before the count would reach the size, the table
grows to `nextPrime(2 * mSize)` buckets.

**Files and modules.**

- `primes.dfy`, module `Primes`: `nextPrime` as the source writes it, an outer `while (1)` around trial division. Its specification is `IsNextPrime`. Lemmas relate that specification to primality and prove that the search terminates.
- `buckets.dfy`, module `Buckets`: the `HashEntry` key/data pair and the bucket array seen as a sequence of lists. It defines the invariant of the storage: placement, unique keys, and exact representation of a partial map. Each in-place change of one bucket has a lemma showing that it keeps the invariant: overwrite, prepend, unlink, and the moves of `rehash`.
- `hashtbl.dfy`, module `MyHashTable`: the class `HashTbl`, described below.
- `usage.dfy`, module `TableUsage`: what a client can rely on when combining operations. It covers the insert/retrieve and insert/remove round trips, the default size, and a growth sequence from a table of 2 buckets.

**The `HashTbl` class.**

- Its fields are `size`, `count` and `buckets: array<seq<HashEntry>>`, plus a ghost field `Contents: map<K, D>`, the partial map the table stands for.
- `Valid()` is the class invariant:
  - every key sits in its bucket, and no bucket holds a key twice;
  - the buckets store exactly `Contents`;
  - `count` is both the number of entries and the number of keys;
  - `count < size`.
- Every public operation keeps `Valid()` and states its effect on `Contents` and on the buckets it touches.
- The hash functor is the function `hash: K -> nat` the table is built with. The equality functor is `==` on `K`.

**Degenerate sizes.** `nextPrime` returns 0 and 1 unchanged, because its trial-division loop finds no divisor of either. So a table asked for 1 bucket gets 1, and it grows to 2 on its first insert. `Primes.NextPrimeOfZeroAndOne` states this, and `Primes.NextPrimeIsLeastPrime` covers sizes from 2 on.

## Model

| member | source | states |
|---|---|---|
| Primes.NextPrime | include/hashtbl.cpp:259-281 | the result is the least p >= n such that no i with 2 <= i and i*i <= p divides p (`IsNextPrime`) |
| Primes.PassingAtLeast | include/hashtbl.cpp:264-280 | some number at or above n passes the trial-division test, so the `while (1)` search ends |
| Primes.NoSmallDivisorIffPrime | include/hashtbl.cpp:266-272 | from 2 on, having no divisor up to the square root is the same as being prime |
| Primes.NextPrimeIsLeastPrime | include/hashtbl.cpp:255-281 | from 2 on, `nextPrime(n)` is prime and no prime lies in [n, result) |
| Primes.NextPrimeUnique | include/hashtbl.cpp:259-281 | the specification determines the result: two results for the same n are equal |
| Primes.NextPrimeFixedPoint | include/hashtbl.cpp:255-258 | n is its own next prime exactly when n passes the test |
| Primes.NextPrimeOfZeroAndOne | include/hashtbl.cpp:264-276 | 0 and 1 are returned unchanged |
| Primes.NextPrimeOfTwo | include/hashtbl.cpp:264-276 | a requested size of 2 stays 2 |
| Primes.NextPrimeOfFour | include/hashtbl.cpp:221 | doubling 2 buckets gives 5 |
| Primes.NextPrimeOfTen | include/hashtbl.cpp:221 | doubling 5 buckets gives 11 |
| Primes.NextPrimeOfEleven | include/hashtbl.h:80 | the default size 11 is kept as it is |
| Primes.NextPrimeOfTwelve | include/hashtbl.cpp:264-280 | 12 fails the test and the search moves on to 13 |
| Buckets.Slot | include/hashtbl.cpp:62 | `hash(key) % size` is a bucket index below size |
| Buckets.TotalLengthUpdate | include/hashtbl.h:73-74 | replacing one list changes the total number of entries by the difference in length |
| Buckets.EmptyBucketsValid | include/hashtbl.cpp:25 | an array of empty lists holds the empty map and no entries |
| Buckets.AbsentFromSlot | include/hashtbl.cpp:66-74 | a key that its own bucket does not hold is not in the table, so searching one bucket is enough |
| Buckets.Overwrite | include/hashtbl.cpp:68-71 | overwriting the data of the entry with the key keeps the invariant, maps the key to the new data and keeps the number of entries |
| Buckets.Prepend | include/hashtbl.cpp:84-86 | pushing an entry for an absent key to the front of its bucket keeps the invariant, adds the pair and adds one entry |
| Buckets.Unlinked | include/hashtbl.cpp:117 | erasing entry j leaves the other entries in their order, one fewer |
| Buckets.Unlink | include/hashtbl.cpp:115-118 | erasing the entry with the key keeps the invariant, drops the key and removes one entry |
| Buckets.StartBucket | include/hashtbl.cpp:227-234 | before the walk of old bucket i, every entry of the buckets before it has been moved |
| Buckets.NotYetMoved | include/hashtbl.cpp:237-240 | the entry the walk reaches has not been copied yet, so prepending it keeps the keys unique |
| Buckets.MoveEntry | include/hashtbl.cpp:240-243 | copying the entry the walk reaches extends the moved map by exactly that pair |
| Buckets.FinishBucket | include/hashtbl.cpp:237-245 | after the walk of bucket i (or skipping an empty one), every entry of the buckets up to i has been moved |
| Buckets.AllMoved | include/hashtbl.cpp:227-246 | once every old bucket is walked, the new array holds exactly the old map |
| MyHashTable.HashTbl.constructor | include/hashtbl.cpp:22-26 | the size is `nextPrime(initSize)`, the count is 0, every bucket is empty and the table holds nothing |
| MyHashTable.HashTbl.Insert | include/hashtbl.cpp:51-89 | result is true iff the key was absent, and the key then maps to the data. The count rises by one only on a new key. An existing key's entry is overwritten in place, with no growth and no other bucket changed. A new key grows the table to `nextPrime(2 * size)` exactly when count + 1 == size, then goes to the front of its bucket. The load bound count < size is kept |
| MyHashTable.HashTbl.SetData | include/hashtbl.cpp:68-71 | the entry found for the key gets the new data; nothing else changes |
| MyHashTable.HashTbl.PushFront | include/hashtbl.cpp:83-87 | the new entry goes to the front of its bucket, the count rises by one, the map gains the pair |
| MyHashTable.HashTbl.Remove | include/hashtbl.cpp:100-126 | result is true iff the key was present. The key is gone afterwards. On a hit exactly the entry with the key is unlinked from its bucket and the count drops by one; on a miss the table is unchanged. Size and array never change |
| MyHashTable.HashTbl.EraseAt | include/hashtbl.cpp:115-118 | the entry with the key is unlinked, the count drops by one and the key leaves the map |
| MyHashTable.HashTbl.Retrieve | include/hashtbl.cpp:137-162 | found iff the key is stored, in which case the result is its data. On a miss the caller's item is left as it was. The table is not changed |
| MyHashTable.HashTbl.Clear | include/hashtbl.cpp:165-173 | every bucket is empty, the count is 0, the size and the array stay (the evidently intended effect, see Findings) |
| MyHashTable.HashTbl.ClearAsWritten | include/hashtbl.cpp:165-173 | the by-value reading of the loop (the source as written does not compile once called): erasing copies of the lists leaves every bucket as it was while the count becomes 0, which breaks the invariant on any nonempty table |
| MyHashTable.HashTbl.IsEmpty | include/hashtbl.cpp:179-183 | true exactly when the table holds no key |
| MyHashTable.HashTbl.Count | include/hashtbl.cpp:189-193 | the count is the number of keys and the number of entries, and is below the size |
| MyHashTable.HashTbl.MoveBucket | include/hashtbl.cpp:234-244 | the new array is a valid chaining of the moved pairs, which now include every entry of old bucket i, and its entry count is the number of moved pairs |
| MyHashTable.HashTbl.MoveEntries | include/hashtbl.cpp:227-246 | after the nested loops the new array is a valid chaining of exactly the old map, with the same number of entries |
| MyHashTable.HashTbl.Rehash | include/hashtbl.cpp:217-253 | the new size is `nextPrime(2 * size)`, at least twice the old one. The map and the count are unchanged, and every entry sits in its bucket under the new size |
| TableUsage.DefaultTable | include/hashtbl.h:48 | a table built without a size has 11 empty buckets |
| TableUsage.InsertThenRetrieve | include/hashtbl.cpp:51-162 | after `insert(k, v)`, `retrieve(k)` is true and yields v |
| TableUsage.RemoveThenRetrieve | include/hashtbl.cpp:100-162 | after `remove(k)`, `retrieve(k)` is false and a second `remove(k)` is false |
| TableUsage.InsertThenRemove | include/hashtbl.cpp:51-126 | inserting a new key and removing it gives back the same map and count |
| TableUsage.ClearThenIsEmpty | include/hashtbl.cpp:165-183 | after `clear`, `isEmpty` is true and the size is unchanged |
| TableUsage.InsertNew | include/hashtbl.cpp:76-88 | a new key is added with count + 1. The size changes only when count + 1 == size, and then to `nextPrime(2 * size)` |
| TableUsage.GrowFromTwo | include/hashtbl.cpp:76-88 | six distinct keys in a table asked for 2 buckets end in 11 buckets, each key mapped to its data |

## Left out

- `showStructure` (include/hashtbl.cpp:196-211) only prints to the console.
- The destructor, the `this->~HashTbl()` call inside `rehash`, `new[]` and `std::bad_alloc` are memory management. `rehash` is modelled as filling a new array and then replacing the old one; the old lists are not freed.
- `HashEntry`'s constructor (include/hashtbl.h:23) is the datatype constructor `HashEntry(key, data)`, which stores exactly its arguments.
- The disabled copy constructor and assignment (include/hashtbl.h:62-64) have no counterpart. Each `HashTbl` object owns the array the constructor allocates (`fresh(buckets)`).
- The `UndefinedHashFunctionException` of the comment at include/hashtbl.cpp:16 is never thrown by the code.
- The "double hashing" of the comment at include/hashtbl.h:30 is not in the code, which only chains.
- The `KeyHash` and `KeyEqual` functors are a fixed function `hash: K -> nat` and Dafny's `==`. A user-supplied equality that is coarser than `==` is not modelled.
- The demo driver `src/pgm_ht.cpp` is not part of this model. Its floating-point records and hash function, its console output and its interactive loop are out of scope. Its comment at line 88 says a table asked for 2 buckets gets 23; it gets 2 (`Primes.NextPrimeOfTwo`).
- Primes.NextPrime: the floating-point bound `i <= sqrt(_size)` is modelled as the integer test `i * i <= n`, which selects the same `i` for table sizes, and the 32-bit `unsigned int` wrap-around of `_size++` is not modelled.
- MyHashTable.HashTbl.MoveBucket: the contract states what has been moved as a map. The order in which the entries are copied (front to back, each pushed to the front of its new bucket) is in the body only.
- MyHashTable.HashTbl.Rehash: the 32-bit wrap-around of `mSize * 2` is not modelled (integers are unbounded); the contract states the new array as a map, not the order of entries inside each new bucket, which the front insertion reverses.
- MyHashTable.HashTbl.Insert: on the growing path, only the first entry of the key's new bucket is stated, not that bucket's remaining order; `mCount` does not wrap.
- MyHashTable.HashTbl.constructor: requires `initSize >= 1`. With 0 the source would compute `hash % 0`. A negative `int` size is not modelled; in the source it converts to a huge `unsigned`.
- `SetData`, `PushFront`, `EraseAt`, `MoveBucket` and `MoveEntries` are steps of `insert`, `remove` and `rehash` written as separate methods. The source does them inline.

## Findings

| source | as written | input that shows it | evidently intended | confidence | as-written member | corrected member |
|---|---|---|---|---|---|---|
| include/hashtbl.cpp:168-171 | `for (auto _list : mpDataTable)` ranges over `mpDataTable`, a raw `std::list<Entry>*` (include/hashtbl.h:76) that has no `begin`/`end`, so `clear()` does not compile once anything calls it. Read by value, as the loop is evidently meant, `auto _list` copies each list and erases the copy, while `mCount` is set to 0 | any call of `clear()` fails to compile. Under the by-value reading, a table holding one entry still holds it after `clear()` while `count()` is 0 | every bucket emptied, count 0, array kept | high from the text; not executed | MyHashTable.HashTbl.ClearAsWritten | MyHashTable.HashTbl.Clear |
