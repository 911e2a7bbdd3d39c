/**
  The storage of the hash table as values: an array of collision lists
  (buckets) seen as a sequence, the invariants the table keeps on it, and
  how each in-place change of one bucket keeps them.
*/
module Buckets {

  /** A key together with its data item, as stored in a collision list. */
  datatype HashEntry<K, D> = HashEntry(key: K, data: D)

  /** One collision list, front first. */
  type Bucket<K, D> = seq<HashEntry<K, D>>

  /** The division method: the bucket a key belongs to in a table of `size` buckets. */
  function Slot<K>(hash: K -> nat, key: K, size: nat): (s: nat)
    requires 0 < size
    ensures s < size
  {
    hash(key) % size
  }

  /** The number of entries over all buckets. */
  function TotalLength<K, D>(t: seq<Bucket<K, D>>): nat {
    if t == [] then 0 else |t[0]| + TotalLength(t[1..])
  }

  /** Placement: every entry sits in the bucket its key hashes to. */
  ghost predicate Placed<K, D>(hash: K -> nat, t: seq<Bucket<K, D>>) {
    forall i, j :: 0 <= i < |t| && 0 <= j < |t[i]| ==> Slot(hash, t[i][j].key, |t|) == i
  }

  /** Uniqueness: no bucket holds two entries with equal keys. */
  ghost predicate UniqueKeys<K, D>(t: seq<Bucket<K, D>>) {
    forall i, j1, j2 ::
      0 <= i < |t| && 0 <= j1 < |t[i]| && 0 <= j2 < |t[i]| && t[i][j1].key == t[i][j2].key ==> j1 == j2
  }

  /** The buckets store exactly the key/data pairs of m. */
  ghost predicate Represents<K, D>(hash: K -> nat, t: seq<Bucket<K, D>>, m: map<K, D>) {
    && 0 < |t|
    && (forall i, j :: 0 <= i < |t| && 0 <= j < |t[i]| ==> t[i][j].key in m && m[t[i][j].key] == t[i][j].data)
    && (forall k :: k in m ==> HashEntry(k, m[k]) in t[Slot(hash, k, |t|)])
  }

  /** The invariant of the storage: t is a well-formed chaining of the partial map m. */
  ghost predicate ValidTable<K, D>(hash: K -> nat, t: seq<Bucket<K, D>>, m: map<K, D>) {
    0 < |t| && Placed(hash, t) && UniqueKeys(t) && Represents(hash, t, m)
  }

  /** Replacing one bucket changes the total by the difference of the two lengths. */
  lemma {:induction false} TotalLengthUpdate<K, D>(t: seq<Bucket<K, D>>, i: nat, b: Bucket<K, D>)
    requires i < |t|
    ensures TotalLength(t[i := b]) == TotalLength(t) - |t[i]| + |b|
  {
    if i == 0 {
      assert t[i := b][1..] == t[1..];
    } else {
      assert t[i := b][1..] == t[1..][i - 1 := b];
      TotalLengthUpdate(t[1..], i - 1, b);
    }
  }

  /** A table of empty buckets stores nothing. */
  lemma {:induction false} EmptyBucketsHoldNothing<K, D>(t: seq<Bucket<K, D>>)
    requires forall i :: 0 <= i < |t| ==> t[i] == []
    ensures TotalLength(t) == 0
  {
    if t != [] {
      EmptyBucketsHoldNothing(t[1..]);
    }
  }

  /** A nonempty table of empty buckets is a valid chaining of the empty map. */
  lemma EmptyBucketsValid<K, D>(hash: K -> nat, t: seq<Bucket<K, D>>)
    requires 0 < |t|
    requires forall i :: 0 <= i < |t| ==> t[i] == []
    ensures ValidTable(hash, t, map[]) && TotalLength(t) == 0
  {
    EmptyBucketsHoldNothing(t);
  }

  /** A key the bucket it hashes to does not hold is not in the map. */
  lemma AbsentFromSlot<K, D>(hash: K -> nat, t: seq<Bucket<K, D>>, m: map<K, D>, k: K)
    requires ValidTable(hash, t, m)
    requires forall j :: 0 <= j < |t[Slot(hash, k, |t|)]| ==> t[Slot(hash, k, |t|)][j].key != k
    ensures k !in m
  {
  }

  /** Overwriting the data of the entry with key k keeps the invariant and
      maps k to the new data; the number of entries is unchanged. */
  lemma Overwrite<K, D>(hash: K -> nat, t: seq<Bucket<K, D>>, m: map<K, D>, k: K, j: nat, v: D)
    requires ValidTable(hash, t, m)
    requires j < |t[Slot(hash, k, |t|)]| && t[Slot(hash, k, |t|)][j].key == k
    ensures var s := Slot(hash, k, |t|);
      && ValidTable(hash, t[s := t[s][j := HashEntry(k, v)]], m[k := v])
      && TotalLength(t[s := t[s][j := HashEntry(k, v)]]) == TotalLength(t)
      && |m[k := v]| == |m|
  {
    var s := Slot(hash, k, |t|);
    OverwriteKeepsShape(hash, t, s, j, v);
    OverwriteKeepsPairs(hash, t, m, k, j, v);
    TotalLengthUpdate(t, s, t[s][j := HashEntry(k, v)]);
    assert m[k := v].Keys == m.Keys;
  }

  lemma OverwriteKeepsShape<K, D>(hash: K -> nat, t: seq<Bucket<K, D>>, s: nat, j: nat, v: D)
    requires 0 < |t| && Placed(hash, t) && UniqueKeys(t)
    requires s < |t| && j < |t[s]|
    ensures var b := t[s][j := HashEntry(t[s][j].key, v)];
      Placed(hash, t[s := b]) && UniqueKeys(t[s := b])
  {
    var b: Bucket<K, D> := t[s][j := HashEntry(t[s][j].key, v)];
    var t': seq<Bucket<K, D>> := t[s := b];
    forall i: int, j': int | 0 <= i < |t'| && 0 <= j' < |t'[i]|
      ensures Slot(hash, t'[i][j'].key, |t'|) == i
    {
      if i == s {
        assert t'[i][j'].key == t[s][j'].key;
      }
    }
    forall i: int, j1: int, j2: int | 0 <= i < |t'| && 0 <= j1 < |t'[i]| && 0 <= j2 < |t'[i]| && t'[i][j1].key == t'[i][j2].key
      ensures j1 == j2
    {
      if i == s {
        assert t'[i][j1].key == t[s][j1].key;
        assert t'[i][j2].key == t[s][j2].key;
      }
    }
  }

  lemma OverwriteKeepsPairs<K, D>(hash: K -> nat, t: seq<Bucket<K, D>>, m: map<K, D>, k: K, j: nat, v: D)
    requires ValidTable(hash, t, m)
    requires j < |t[Slot(hash, k, |t|)]| && t[Slot(hash, k, |t|)][j].key == k
    ensures var s := Slot(hash, k, |t|);
      Represents(hash, t[s := t[s][j := HashEntry(k, v)]], m[k := v])
  {
    var s := Slot(hash, k, |t|);
    var t': seq<Bucket<K, D>> := t[s := t[s][j := HashEntry(k, v)]];
    var m' := m[k := v];
    forall i: int, j': int | 0 <= i < |t'| && 0 <= j' < |t'[i]|
      ensures t'[i][j'].key in m' && m'[t'[i][j'].key] == t'[i][j'].data
    {
      if i == s && j' != j {
        assert t'[i][j'] == t[s][j'];
        assert t[s][j'].key != k;
      }
    }
    forall k' | k' in m'
      ensures HashEntry(k', m'[k']) in t'[Slot(hash, k', |t'|)]
    {
      if k' == k {
        assert t'[s][j] == HashEntry(k, v);
      } else {
        var s' := Slot(hash, k', |t|);
        assert HashEntry(k', m[k']) in t[s'];
        var j' :| 0 <= j' < |t[s']| && t[s'][j'] == HashEntry(k', m[k']);
        assert t'[s'][j'] == HashEntry(k', m'[k']);
      }
    }
  }

  /** Prepending an entry for a key the map does not hold keeps the invariant,
      adds the pair to the map and adds one entry. */
  lemma Prepend<K, D>(hash: K -> nat, t: seq<Bucket<K, D>>, m: map<K, D>, k: K, v: D)
    requires ValidTable(hash, t, m)
    requires k !in m
    ensures var s := Slot(hash, k, |t|);
      && ValidTable(hash, t[s := [HashEntry(k, v)] + t[s]], m[k := v])
      && TotalLength(t[s := [HashEntry(k, v)] + t[s]]) == TotalLength(t) + 1
      && |m[k := v]| == |m| + 1
  {
    var s := Slot(hash, k, |t|);
    PrependKeepsShape(hash, t, m, k, v);
    PrependKeepsPairs(hash, t, m, k, v);
    TotalLengthUpdate(t, s, [HashEntry(k, v)] + t[s]);
  }

  lemma PrependKeepsShape<K, D>(hash: K -> nat, t: seq<Bucket<K, D>>, m: map<K, D>, k: K, v: D)
    requires ValidTable(hash, t, m) && k !in m
    ensures var s := Slot(hash, k, |t|);
      Placed(hash, t[s := [HashEntry(k, v)] + t[s]]) && UniqueKeys(t[s := [HashEntry(k, v)] + t[s]])
  {
    var s := Slot(hash, k, |t|);
    var t': seq<Bucket<K, D>> := t[s := [HashEntry(k, v)] + t[s]];
    forall i: int, j: int | 0 <= i < |t'| && 0 <= j < |t'[i]|
      ensures Slot(hash, t'[i][j].key, |t'|) == i
    {
      if i == s && j > 0 {
        assert t'[i][j] == t[s][j - 1];
      }
    }
    forall i: int, j1: int, j2: int | 0 <= i < |t'| && 0 <= j1 < |t'[i]| && 0 <= j2 < |t'[i]| && t'[i][j1].key == t'[i][j2].key
      ensures j1 == j2
    {
      if i == s {
        if j1 > 0 {
          assert t'[i][j1] == t[s][j1 - 1];
        }
        if j2 > 0 {
          assert t'[i][j2] == t[s][j2 - 1];
        }
      }
    }
  }

  lemma PrependKeepsPairs<K, D>(hash: K -> nat, t: seq<Bucket<K, D>>, m: map<K, D>, k: K, v: D)
    requires Represents(hash, t, m) && k !in m
    ensures var s := Slot(hash, k, |t|);
      Represents(hash, t[s := [HashEntry(k, v)] + t[s]], m[k := v])
  {
    var s := Slot(hash, k, |t|);
    var t': seq<Bucket<K, D>> := t[s := [HashEntry(k, v)] + t[s]];
    var m' := m[k := v];
    forall i: int, j: int | 0 <= i < |t'| && 0 <= j < |t'[i]|
      ensures t'[i][j].key in m' && m'[t'[i][j].key] == t'[i][j].data
    {
      if i == s && j > 0 {
        assert t'[i][j] == t[s][j - 1];
      }
    }
    forall k' | k' in m'
      ensures HashEntry(k', m'[k']) in t'[Slot(hash, k', |t'|)]
    {
      if k' == k {
        assert t'[s][0] == HashEntry(k, v);
      } else {
        var s' := Slot(hash, k', |t|);
        assert HashEntry(k', m[k']) in t[s'];
        var j' :| 0 <= j' < |t[s']| && t[s'][j'] == HashEntry(k', m[k']);
        if s' == s {
          assert t'[s'][j' + 1] == HashEntry(k', m'[k']);
        } else {
          assert t'[s'][j'] == HashEntry(k', m'[k']);
        }
      }
    }
  }

  /** The bucket b with its j-th entry unlinked. */
  function Unlinked<K, D>(b: Bucket<K, D>, j: nat): (r: Bucket<K, D>)
    requires j < |b|
    ensures |r| + 1 == |b|
    ensures forall x :: 0 <= x < |r| ==> r[x] == if x < j then b[x] else b[x + 1]
  {
    b[..j] + b[j + 1..]
  }

  /** Unlinking the entry with key k keeps the invariant, drops k from the
      map and removes one entry. */
  lemma Unlink<K, D>(hash: K -> nat, t: seq<Bucket<K, D>>, m: map<K, D>, k: K, j: nat)
    requires ValidTable(hash, t, m)
    requires j < |t[Slot(hash, k, |t|)]| && t[Slot(hash, k, |t|)][j].key == k
    ensures var s := Slot(hash, k, |t|);
      && ValidTable(hash, t[s := Unlinked(t[s], j)], m - {k})
      && TotalLength(t[s := Unlinked(t[s], j)]) + 1 == TotalLength(t)
      && |m - {k}| + 1 == |m|
  {
    var s := Slot(hash, k, |t|);
    var b := Unlinked(t[s], j);
    UnlinkKeepsShape(hash, t, s, j);
    UnlinkKeepsPairs(hash, t, m, k, j);
    TotalLengthUpdate(t, s, b);
    assert (m - {k}).Keys == m.Keys - {k};
  }

  lemma UnlinkKeepsShape<K, D>(hash: K -> nat, t: seq<Bucket<K, D>>, s: nat, j: nat)
    requires 0 < |t| && Placed(hash, t) && UniqueKeys(t)
    requires s < |t| && j < |t[s]|
    ensures Placed(hash, t[s := Unlinked(t[s], j)]) && UniqueKeys(t[s := Unlinked(t[s], j)])
  {
    var t': seq<Bucket<K, D>> := t[s := Unlinked(t[s], j)];
    forall i: int, j': int | 0 <= i < |t'| && 0 <= j' < |t'[i]|
      ensures Slot(hash, t'[i][j'].key, |t'|) == i
    {
      if i == s {
        var o := if j' < j then j' else j' + 1;
        assert t'[i][j'] == t[s][o];
      }
    }
    forall i: int, j1: int, j2: int | 0 <= i < |t'| && 0 <= j1 < |t'[i]| && 0 <= j2 < |t'[i]| && t'[i][j1].key == t'[i][j2].key
      ensures j1 == j2
    {
      if i == s {
        var o1 := if j1 < j then j1 else j1 + 1;
        var o2 := if j2 < j then j2 else j2 + 1;
        assert t'[i][j1] == t[s][o1];
        assert t'[i][j2] == t[s][o2];
      }
    }
  }

  lemma UnlinkKeepsPairs<K, D>(hash: K -> nat, t: seq<Bucket<K, D>>, m: map<K, D>, k: K, j: nat)
    requires ValidTable(hash, t, m)
    requires j < |t[Slot(hash, k, |t|)]| && t[Slot(hash, k, |t|)][j].key == k
    ensures var s := Slot(hash, k, |t|);
      Represents(hash, t[s := Unlinked(t[s], j)], m - {k})
  {
    var s := Slot(hash, k, |t|);
    var t': seq<Bucket<K, D>> := t[s := Unlinked(t[s], j)];
    var m' := m - {k};
    forall i: int, j': int | 0 <= i < |t'| && 0 <= j' < |t'[i]|
      ensures t'[i][j'].key in m' && m'[t'[i][j'].key] == t'[i][j'].data
    {
      if i == s {
        var o := if j' < j then j' else j' + 1;
        assert t'[i][j'] == t[s][o];
        assert o != j;
      }
    }
    forall k' | k' in m'
      ensures HashEntry(k', m'[k']) in t'[Slot(hash, k', |t'|)]
    {
      var s' := Slot(hash, k', |t|);
      assert HashEntry(k', m[k']) in t[s'];
      var j' :| 0 <= j' < |t[s']| && t[s'][j'] == HashEntry(k', m[k']);
      if s' != s {
        assert t'[s'][j'] == t[s'][j'];
      } else if j' < j {
        assert t'[s'][j'] == t[s'][j'];
      } else {
        assert j' != j;
        assert t'[s'][j' - 1] == t[s'][j'];
      }
    }
  }

  // Rehash: the entries of t (a valid chaining of m) are moved one by one,
  // bucket by bucket and front to back, into a new table; `moved` is the
  // part of m the new table holds so far.

  /** Before bucket i: exactly the keys of m in buckets below i have been moved. */
  ghost predicate MovedBelow<K, D>(hash: K -> nat, t: seq<Bucket<K, D>>, m: map<K, D>, moved: map<K, D>, i: nat)
    requires 0 < |t|
  {
    && (forall k :: k in moved ==> k in m && moved[k] == m[k] && Slot(hash, k, |t|) < i)
    && (forall k :: k in m && Slot(hash, k, |t|) < i ==> k in moved)
  }

  /** Inside bucket i, before its entry j: the keys of buckets below i and
      of the first j entries of bucket i have been moved, and no others. */
  ghost predicate MovedUpTo<K, D>(hash: K -> nat, t: seq<Bucket<K, D>>, m: map<K, D>, moved: map<K, D>, i: nat, j: nat)
    requires i < |t| && j <= |t[i]|
  {
    && (forall k :: k in moved ==> k in m && moved[k] == m[k])
    && (forall k :: k in moved ==> Slot(hash, k, |t|) < i || exists j' :: 0 <= j' < j && t[i][j'].key == k)
    && (forall k :: k in m && Slot(hash, k, |t|) < i ==> k in moved)
    && (forall j' :: 0 <= j' < j ==> t[i][j'].key in moved)
  }

  lemma StartBucket<K, D>(hash: K -> nat, t: seq<Bucket<K, D>>, m: map<K, D>, moved: map<K, D>, i: nat)
    requires i < |t| && MovedBelow(hash, t, m, moved, i)
    ensures MovedUpTo(hash, t, m, moved, i, 0)
  {
  }

  lemma FinishBucket<K, D>(hash: K -> nat, t: seq<Bucket<K, D>>, m: map<K, D>, moved: map<K, D>, i: nat)
    requires ValidTable(hash, t, m)
    requires i < |t| && MovedUpTo(hash, t, m, moved, i, |t[i]|)
    ensures MovedBelow(hash, t, m, moved, i + 1)
  {
    forall k | k in m && Slot(hash, k, |t|) == i
      ensures k in moved
    {
      assert HashEntry(k, m[k]) in t[i];
    }
  }

  /** The entry about to be moved has a key not moved yet. */
  lemma NotYetMoved<K, D>(hash: K -> nat, t: seq<Bucket<K, D>>, m: map<K, D>, moved: map<K, D>, i: nat, j: nat)
    requires 0 < |t| && Placed(hash, t) && UniqueKeys(t)
    requires i < |t| && j < |t[i]| && MovedUpTo(hash, t, m, moved, i, j)
    ensures t[i][j].key !in moved
  {
    assert Slot(hash, t[i][j].key, |t|) == i;
    assert forall j' :: 0 <= j' < j ==> t[i][j'].key != t[i][j].key;
  }

  /** After moving entry j of bucket i, the first j + 1 entries are done. */
  lemma MoveEntry<K, D>(hash: K -> nat, t: seq<Bucket<K, D>>, m: map<K, D>, moved: map<K, D>, i: nat, j: nat)
    requires Represents(hash, t, m)
    requires i < |t| && j < |t[i]| && MovedUpTo(hash, t, m, moved, i, j)
    ensures MovedUpTo(hash, t, m, moved[t[i][j].key := t[i][j].data], i, j + 1)
  {
    var e := t[i][j];
    var moved' := moved[e.key := e.data];
    forall k | k in moved'
      ensures Slot(hash, k, |t|) < i || exists j' :: 0 <= j' < j + 1 && t[i][j'].key == k
    {
      if k == e.key {
        assert t[i][j].key == k;
      } else {
        assert k in moved;
      }
    }
  }

  /** Once every bucket is done, the new table holds all of m. */
  lemma AllMoved<K, D>(hash: K -> nat, t: seq<Bucket<K, D>>, m: map<K, D>, moved: map<K, D>)
    requires 0 < |t| && MovedBelow(hash, t, m, moved, |t|)
    ensures moved == m
  {
    assert moved.Keys == m.Keys;
  }
}
