/**
 * The fixed-capacity chained hash table: an array of bucket chains, a
 * pluggable hash function and the bucket count, refined to an abstract
 * `map<nat, V>` (`Contents`).  Ownership of stored values is tracked by the
 * multiset `Values`: every operation that hands a value back to its caller or
 * frees it accounts for it exactly once.
 */
module HashTable {
  import opened Wrappers
  import opened Chains

  /** The table: one chain per bucket and the hash function given at creation. */
  datatype Table<V> = Table(buckets: seq<Chain<V>>, hash: nat -> nat)

  /** Why `createHashTable` refuses to build a table (the source exits instead). */
  datatype CreateError = ZeroBuckets

  /** A new table together with the value whose ownership passes to the caller. */
  datatype Handoff<V> = Handoff(table: Table<V>, released: Option<V>)

  /** A new table together with the values destroyed by the operation. */
  datatype Freed<V> = Freed(table: Table<V>, freed: seq<V>)

  /** `hash` sends every key to one of `n` buckets. */
  ghost predicate HashFits(hash: nat -> nat, n: nat)
  {
    forall k: nat :: hash(k) < n
  }

  /**
   * The table invariant: at least one bucket, a hash that stays in range,
   * every entry sits in bucket `hash(key)`, and no chain repeats a key.
   */
  ghost predicate Valid<V>(t: Table<V>)
  {
    && |t.buckets| > 0
    && HashFits(t.hash, |t.buckets|)
    && (forall b, i :: 0 <= b < |t.buckets| && 0 <= i < |t.buckets[b]| ==>
          t.hash(t.buckets[b][i].key) == b)
    && (forall b :: 0 <= b < |t.buckets| ==> DistinctKeys(t.buckets[b]))
  }

  /** Every key stored anywhere in the table. */
  ghost function Keys<V>(t: Table<V>): set<nat>
  {
    set b, i | 0 <= b < |t.buckets| && 0 <= i < |t.buckets[b]| :: t.buckets[b][i].key
  }

  /** All entries, bucket 0 first, each chain head first: the order `destroyHashTable` visits them. */
  ghost function Entries<V>(bs: seq<Chain<V>>): seq<Entry<V>>
  {
    if |bs| == 0 then [] else Entries(bs[..|bs| - 1]) + bs[|bs| - 1]
  }

  /** The values the table currently owns, with multiplicity. */
  ghost function Values<V>(t: Table<V>): multiset<V>
  {
    ValuesOf(Entries(t.buckets))
  }

  /** A key is stored in the table exactly when bucket `hash(key)` holds it. */
  lemma KeyInItsBucket<V>(t: Table<V>, k: nat)
    requires Valid(t)
    ensures k in Keys(t) <==> HasKey(t.buckets[t.hash(k)], k)
  {
    if k in Keys(t) {
      var b, i :| 0 <= b < |t.buckets| && 0 <= i < |t.buckets[b]| && t.buckets[b][i].key == k;
      assert t.hash(k) == b;
    }
  }

  /** The abstract view: each stored key mapped to its value. */
  ghost function Contents<V>(t: Table<V>): map<nat, V>
    requires Valid(t)
  {
    map k | k in Keys(t) :: Get(t, k).value
  }

  /**
   * `createHashTable`: zero buckets is an error; otherwise every bucket
   * starts empty.
   */
  function Create<V>(hash: nat -> nat, numBuckets: nat): (r: Result<Table<V>, CreateError>)
    requires numBuckets > 0 ==> HashFits(hash, numBuckets)
    ensures r.Failure? <==> numBuckets == 0
    ensures r.Success? ==> Valid(r.value) && r.value.hash == hash && |r.value.buckets| == numBuckets
    ensures r.Success? ==> Contents(r.value) == map[] && Values(r.value) == multiset{}
  {
    if numBuckets == 0 then Failure(ZeroBuckets)
    else
      var t := Table(seq(numBuckets, _ => []), hash);
      EntriesOfEmpty(t.buckets);
      assert Keys(t) == {};
      Success(t)
  }

  /**
   * `getItem`: scans only bucket `hash(key)`; the result is the value of an
   * entry with that key, and is absent exactly when no entry anywhere has it.
   */
  function Get<V>(t: Table<V>, k: nat): (r: Option<V>)
    requires Valid(t)
    ensures r.Some? <==> k in Keys(t)
    ensures r.Some? ==>
              exists i :: 0 <= i < |t.buckets[t.hash(k)]| && t.buckets[t.hash(k)][i] == Entry(k, r.value)
  {
    KeyInItsBucket(t, k);
    Find(t.buckets[t.hash(k)], k)
  }

  /**
   * `insertItem`: a present key has its value overwritten in place and the
   * previous value is handed back; an absent key gets a new entry at the head
   * of bucket `hash(key)` and nothing is handed back.  Other buckets are untouched.
   */
  function Insert<V>(t: Table<V>, k: nat, v: V): (r: Handoff<V>)
    requires Valid(t)
    ensures Valid(r.table) && r.table.hash == t.hash && |r.table.buckets| == |t.buckets|
    ensures Contents(r.table) == Contents(t)[k := v]
    ensures r.released == if k in Contents(t) then Some(Contents(t)[k]) else None
    ensures Values(r.table) + Bag(r.released) == Values(t) + multiset{v}
  {
    var b := t.hash(k);
    var c := t.buckets[b];
    match IndexOf(c, k)
    case Some(i) =>
      ReplaceInBucket(t, k, i, v);
      Handoff(t.(buckets := t.buckets[b := c[i := Entry(k, v)]]), Some(c[i].value))
    case None =>
      PrependToBucket(t, k, v);
      Handoff(t.(buckets := t.buckets[b := [Entry(k, v)] + c]), None)
  }

  /**
   * Where `insertItem` puts the entry: other buckets are untouched, an absent
   * key goes to the head of bucket `hash(key)`, and a present key is
   * overwritten in place, so the chain keeps its keys in order.
   */
  lemma InsertShape<V>(t: Table<V>, k: nat, v: V)
    requires Valid(t)
    ensures var r := Insert(t, k, v).table;
            forall b :: 0 <= b < |t.buckets| && b != t.hash(k) ==> r.buckets[b] == t.buckets[b]
    ensures var r := Insert(t, k, v).table;
            k !in Contents(t) ==> r.buckets[t.hash(k)] == [Entry(k, v)] + t.buckets[t.hash(k)]
    ensures var r := Insert(t, k, v).table;
            k in Contents(t) ==>
              && |r.buckets[t.hash(k)]| == |t.buckets[t.hash(k)]|
              && forall i :: 0 <= i < |t.buckets[t.hash(k)]| ==> r.buckets[t.hash(k)][i].key == t.buckets[t.hash(k)][i].key
  {
    var c := t.buckets[t.hash(k)];
    KeyInItsBucket(t, k);
    match IndexOf(c, k)
    case Some(i) =>
      var c' := c[i := Entry(k, v)];
      assert forall j :: 0 <= j < |c| ==> c'[j].key == c[j].key;
    case None =>
  }

  /**
   * `removeItem`: unlinks the entry for `k` (head or interior) and hands its
   * value back; an absent key leaves the table as it was.
   */
  function Remove<V>(t: Table<V>, k: nat): (r: Handoff<V>)
    requires Valid(t)
    ensures Valid(r.table) && r.table.hash == t.hash && |r.table.buckets| == |t.buckets|
    ensures Contents(r.table) == Contents(t) - {k}
    ensures r.released == if k in Contents(t) then Some(Contents(t)[k]) else None
    ensures k !in Contents(t) ==> r.table == t
    ensures forall b :: 0 <= b < |t.buckets| && b != t.hash(k) ==> r.table.buckets[b] == t.buckets[b]
    ensures Values(r.table) + Bag(r.released) == Values(t)
  {
    var b := t.hash(k);
    KeyInItsBucket(t, k);
    var u := Unlink(t.buckets[b], k);
    UnlinkFromBucket(t, k);
    Handoff(t.(buckets := t.buckets[b := u.0]), u.1)
  }

  /**
   * `deleteItem`: the same unlinking walk as `removeItem`, but the value is
   * freed instead of handed back; an absent key frees nothing.
   */
  function Delete<V>(t: Table<V>, k: nat): (r: Freed<V>)
    requires Valid(t)
    ensures Valid(r.table) && r.table.hash == t.hash && |r.table.buckets| == |t.buckets|
    ensures Contents(r.table) == Contents(t) - {k}
    ensures r.freed == if k in Contents(t) then [Contents(t)[k]] else []
    ensures k !in Contents(t) ==> r.table == t
    ensures Values(r.table) + multiset(r.freed) == Values(t)
  {
    var h := Remove(t, k);
    match h.released
    case None => Freed(h.table, [])
    case Some(v) => Freed(h.table, [v])
  }

  /**
   * `destroyHashTable`: visits every bucket and every entry of its chain and
   * releases each entry (with its value) exactly once.
   */
  method Destroy<V>(t: Table<V>) returns (released: seq<Entry<V>>)
    requires Valid(t)
    ensures |released| == |Contents(t)|
    ensures DistinctKeys(released)
    ensures forall p :: 0 <= p < |released| ==>
              released[p].key in Contents(t) && Contents(t)[released[p].key] == released[p].value
    ensures ValuesOf(released) == Values(t)
  {
    released := [];
    var b := 0;
    while b < |t.buckets|
      invariant 0 <= b <= |t.buckets|
      invariant released == Entries(t.buckets[..b])
    {
      var chain := t.buckets[b];
      var i := 0;
      while i < |chain|
        invariant 0 <= i <= |chain|
        invariant released == Entries(t.buckets[..b]) + chain[..i]
      {
        released := released + [chain[i]];
        i := i + 1;
      }
      assert chain[..i] == chain;
      assert t.buckets[..b + 1][..b] == t.buckets[..b];
      b := b + 1;
    }
    assert t.buckets[..b] == t.buckets;
    EntriesOfValid(t);
  }

  // ---------------------------------------------------------------------------
  // Properties relating several operations

  /** Round trip: after `insertItem(k, v)`, `getItem(k)` yields `v`. */
  lemma InsertThenGet<V>(t: Table<V>, k: nat, v: V)
    requires Valid(t)
    ensures Get(Insert(t, k, v).table, k) == Some(v)
  {
    var t' := Insert(t, k, v).table;
    assert k in Contents(t');
  }

  /** Replace semantics: a second insert under the same key hands back the first value. */
  lemma InsertTwiceReplaces<V>(t: Table<V>, k: nat, v1: V, v2: V)
    requires Valid(t)
    ensures var t1 := Insert(t, k, v1).table;
            && Insert(t1, k, v2).released == Some(v1)
            && Get(Insert(t1, k, v2).table, k) == Some(v2)
            && |Contents(Insert(t1, k, v2).table)| == |Contents(t1)|
  {
    var t1 := Insert(t, k, v1).table;
    var r2 := Insert(t1, k, v2);
    assert k in Contents(t1) && Contents(t1)[k] == v1;
    GetIsContents(r2.table, k);
    SameKeysSameSize(Contents(t1), k, v2);
  }

  /** Overwriting a present key keeps the number of keys. */
  lemma SameKeysSameSize<T>(m: map<nat, T>, k: nat, v: T)
    requires k in m
    ensures |m[k := v]| == |m|
  {
    assert m[k := v].Keys == m.Keys;
  }

  /** Remove transfers ownership: the stored value comes back and the key is gone. */
  lemma InsertThenRemove<V>(t: Table<V>, k: nat, v: V)
    requires Valid(t)
    ensures var r := Remove(Insert(t, k, v).table, k);
            && r.released == Some(v)
            && Get(r.table, k) == None
            && Contents(r.table) == Contents(t) - {k}
  {
    var t1 := Insert(t, k, v).table;
    var r := Remove(t1, k);
    assert r.released == Some(v) by {
      assert Contents(t1)[k] == v;
    }
    assert Contents(r.table) == Contents(t) - {k} by {
      UpdateThenDrop(Contents(t), k, v);
    }
    GetIsContents(r.table, k);
  }

  /**
   * Two distinct absent keys that share a bucket end up in the same chain,
   * the later one at its head.
   */
  lemma SharedBucketOrder<V>(t: Table<V>, k1: nat, v1: V, k2: nat, v2: V)
    requires Valid(t) && k1 != k2 && t.hash(k1) == t.hash(k2)
    requires k1 !in Contents(t) && k2 !in Contents(t)
    ensures var t2 := Insert(Insert(t, k1, v1).table, k2, v2).table;
            t2.buckets[t.hash(k1)] == [Entry(k2, v2), Entry(k1, v1)] + t.buckets[t.hash(k1)]
  {
    var h := t.hash(k1);
    var t1 := Insert(t, k1, v1).table;
    InsertShape(t, k1, v1);
    assert k2 !in Contents(t1);
    InsertShape(t1, k2, v2);
    assert [Entry(k2, v2)] + ([Entry(k1, v1)] + t.buckets[h]) == [Entry(k2, v2), Entry(k1, v1)] + t.buckets[h];
  }

  /** Keys are unique across the whole table, not only within one chain. */
  lemma KeysUnique<V>(t: Table<V>, b1: nat, i1: nat, b2: nat, i2: nat)
    requires Valid(t)
    requires b1 < |t.buckets| && i1 < |t.buckets[b1]|
    requires b2 < |t.buckets| && i2 < |t.buckets[b2]|
    requires t.buckets[b1][i1].key == t.buckets[b2][i2].key
    ensures b1 == b2 && i1 == i2
  {
    assert t.hash(t.buckets[b1][i1].key) == b1;
    assert t.hash(t.buckets[b2][i2].key) == b2;
    assert DistinctKeys(t.buckets[b1]);
  }

  // ---------------------------------------------------------------------------
  // Proof helpers

  /** `getItem` read through the abstract view. */
  lemma GetIsContents<V>(t: Table<V>, k: nat)
    requires Valid(t)
    ensures Get(t, k) == if k in Contents(t) then Some(Contents(t)[k]) else None
  {
  }

  /** A table whose lookups agree with `m` on every key has contents `m`. */
  lemma ContentsFromGet<V>(t: Table<V>, m: map<nat, V>)
    requires Valid(t)
    requires forall j: nat :: Get(t, j) == if j in m then Some(m[j]) else None
    ensures Contents(t) == m
  {
    assert forall j :: j in Contents(t) <==> j in m by {
      forall j: nat ensures j in Contents(t) <==> j in m {
        assert Get(t, j).Some? <==> j in m;
      }
    }
  }

  lemma EntriesOfEmpty<V>(bs: seq<Chain<V>>)
    requires forall b :: 0 <= b < |bs| ==> bs[b] == []
    ensures Entries(bs) == []
  {
    if |bs| > 0 {
      EntriesOfEmpty(bs[..|bs| - 1]);
    }
  }

  /** Replacing bucket `b` by `c'` swaps that chain's values in the table's multiset. */
  lemma {:induction false} EntriesUpdate<V>(bs: seq<Chain<V>>, b: nat, c': Chain<V>)
    requires b < |bs|
    ensures ValuesOf(Entries(bs[b := c'])) + ValuesOf(bs[b]) == ValuesOf(Entries(bs)) + ValuesOf(c')
    decreases |bs|
  {
    var n := |bs|;
    var bs' := bs[b := c'];
    var front := bs[..n - 1];
    var front' := bs'[..n - 1];
    ValuesOfConcat(Entries(front), bs[n - 1]);
    ValuesOfConcat(Entries(front'), bs'[n - 1]);
    var a, a', x, x' := ValuesOf(Entries(front)), ValuesOf(Entries(front')), ValuesOf(bs[n - 1]), ValuesOf(bs'[n - 1]);
    assert ValuesOf(Entries(bs)) == a + x;
    assert ValuesOf(Entries(bs')) == a' + x';
    if b == n - 1 {
      assert front' == front;
      MultisetSwap(a, x', x);
    } else {
      assert front' == front[b := c'];
      assert x' == x;
      EntriesUpdate(front, b, c');
      MultisetAddBoth(a', ValuesOf(bs[b]), a, ValuesOf(c'), x);
    }
  }

  /** Multiset arithmetic for the value ledgers below. */
  lemma MultisetSwap<T>(a: multiset<T>, b: multiset<T>, c: multiset<T>)
    ensures a + b + c == a + c + b
  {
    assert forall o :: (a + b + c)[o] == (a + c + b)[o];
  }

  lemma MultisetAddBoth<T>(a': multiset<T>, y: multiset<T>, a: multiset<T>, z: multiset<T>, x: multiset<T>)
    requires a' + y == a + z
    ensures a' + x + y == a + x + z
  {
    forall o
      ensures (a' + x + y)[o] == (a + x + z)[o]
    {
      calc {
        (a' + x + y)[o];
        a'[o] + x[o] + y[o];
        (a' + y)[o] + x[o];
        (a + z)[o] + x[o];
        (a + x + z)[o];
      }
    }
  }

  /** The table with the value of the entry for `k` (position `i` of its bucket) overwritten. */
  lemma ReplaceInBucket<V>(t: Table<V>, k: nat, i: nat, v: V)
    requires Valid(t)
    requires i < |t.buckets[t.hash(k)]| && t.buckets[t.hash(k)][i].key == k
    ensures var b := t.hash(k);
            var c := t.buckets[b];
            var t' := t.(buckets := t.buckets[b := c[i := Entry(k, v)]]);
            && Valid(t')
            && k in Contents(t) && Contents(t)[k] == c[i].value
            && Contents(t') == Contents(t)[k := v]
            && Values(t') + multiset{c[i].value} == Values(t) + multiset{v}
  {
    var b := t.hash(k);
    var c := t.buckets[b];
    var t' := t.(buckets := t.buckets[b := c[i := Entry(k, v)]]);
    ReplaceKeepsValid(t, k, i, v);
    var m := Contents(t)[k := v];
    forall j: nat
      ensures Get(t', j) == if j in m then Some(m[j]) else None
    {
      ReplaceGet(t, k, i, v, j);
      GetIsContents(t, j);
    }
    ContentsFromGet(t', m);
    ReplaceValues(t, b, i, Entry(k, v));
  }

  lemma ReplaceKeepsValid<V>(t: Table<V>, k: nat, i: nat, v: V)
    requires Valid(t)
    requires i < |t.buckets[t.hash(k)]| && t.buckets[t.hash(k)][i].key == k
    ensures var b := t.hash(k);
            Valid(t.(buckets := t.buckets[b := t.buckets[b][i := Entry(k, v)]]))
    ensures k in Keys(t) && Get(t, k) == Some(t.buckets[t.hash(k)][i].value)
  {
    var b := t.hash(k);
    var c := t.buckets[b];
    var c' := c[i := Entry(k, v)];
    assert DistinctKeys(c);
    FindReplace(c, i, v, k);
    assert forall p :: 0 <= p < |c'| ==> c'[p].key == c[p].key;
  }

  /** A lookup after an in-place overwrite of the entry for `k`. */
  lemma ReplaceGet<V>(t: Table<V>, k: nat, i: nat, v: V, j: nat)
    requires Valid(t)
    requires i < |t.buckets[t.hash(k)]| && t.buckets[t.hash(k)][i].key == k
    requires var b := t.hash(k);
             Valid(t.(buckets := t.buckets[b := t.buckets[b][i := Entry(k, v)]]))
    ensures var b := t.hash(k);
            Get(t.(buckets := t.buckets[b := t.buckets[b][i := Entry(k, v)]]), j)
            == if j == k then Some(v) else Get(t, j)
  {
    var b := t.hash(k);
    if t.hash(j) == b {
      assert DistinctKeys(t.buckets[b]);
      FindReplace(t.buckets[b], i, v, j);
    }
  }

  /** Ledger for an in-place overwrite: the old value leaves, the new one arrives. */
  lemma ReplaceValues<V>(t: Table<V>, b: nat, i: nat, e: Entry<V>)
    requires b < |t.buckets| && i < |t.buckets[b]|
    ensures var c := t.buckets[b];
            Values(t.(buckets := t.buckets[b := c[i := e]])) + multiset{c[i].value} == Values(t) + multiset{e.value}
  {
    var c := t.buckets[b];
    var t' := t.(buckets := t.buckets[b := c[i := e]]);
    EntriesUpdate(t.buckets, b, c[i := e]);
    ValuesOfReplace(c, i, e);
    calc {
      Values(t') + multiset{c[i].value} + ValuesOf(c);
      Values(t) + ValuesOf(c[i := e]) + multiset{c[i].value};
      Values(t) + (ValuesOf(c[i := e]) + multiset{c[i].value});
      Values(t) + (ValuesOf(c) + multiset{e.value});
      Values(t) + multiset{e.value} + ValuesOf(c);
    }
    MultisetCancel(Values(t') + multiset{c[i].value}, Values(t) + multiset{e.value}, ValuesOf(c));
  }

  lemma UpdateThenDrop<K, T>(m: map<K, T>, k: K, v: T)
    ensures m[k := v] - {k} == m - {k}
  {
  }

  lemma MultisetCancel<T>(a: multiset<T>, b: multiset<T>, c: multiset<T>)
    requires a + c == b + c
    ensures a == b
  {
    assert forall x :: a[x] == (a + c)[x] - c[x];
  }

  /** The table with a new entry for the absent key `k` at the head of its bucket. */
  lemma PrependToBucket<V>(t: Table<V>, k: nat, v: V)
    requires Valid(t)
    requires !HasKey(t.buckets[t.hash(k)], k)
    ensures var b := t.hash(k);
            var t' := t.(buckets := t.buckets[b := [Entry(k, v)] + t.buckets[b]]);
            && Valid(t')
            && k !in Contents(t)
            && Contents(t') == Contents(t)[k := v]
            && Values(t') == Values(t) + multiset{v}
  {
    var b := t.hash(k);
    var t' := t.(buckets := t.buckets[b := [Entry(k, v)] + t.buckets[b]]);
    KeyInItsBucket(t, k);
    PrependKeepsValid(t, k, v);
    var m := Contents(t)[k := v];
    forall j: nat
      ensures Get(t', j) == if j in m then Some(m[j]) else None
    {
      PrependGet(t, k, v, j);
      GetIsContents(t, j);
    }
    ContentsFromGet(t', m);
    PrependValues(t, b, Entry(k, v));
  }

  lemma PrependKeepsValid<V>(t: Table<V>, k: nat, v: V)
    requires Valid(t)
    requires !HasKey(t.buckets[t.hash(k)], k)
    ensures var b := t.hash(k);
            Valid(t.(buckets := t.buckets[b := [Entry(k, v)] + t.buckets[b]]))
  {
    var b := t.hash(k);
    var c := t.buckets[b];
    var c' := [Entry(k, v)] + c;
    assert forall p :: 1 <= p < |c'| ==> c'[p] == c[p - 1];
    assert DistinctKeys(c');
  }

  /** A lookup after a new head entry for the absent key `k`. */
  lemma PrependGet<V>(t: Table<V>, k: nat, v: V, j: nat)
    requires Valid(t)
    requires var b := t.hash(k);
             Valid(t.(buckets := t.buckets[b := [Entry(k, v)] + t.buckets[b]]))
    ensures var b := t.hash(k);
            Get(t.(buckets := t.buckets[b := [Entry(k, v)] + t.buckets[b]]), j)
            == if j == k then Some(v) else Get(t, j)
  {
    var b := t.hash(k);
    if t.hash(j) == b {
      FindPrepend(Entry(k, v), t.buckets[b], j);
    }
  }

  /** Ledger for a new head entry: its value arrives. */
  lemma PrependValues<V>(t: Table<V>, b: nat, e: Entry<V>)
    requires b < |t.buckets|
    ensures Values(t.(buckets := t.buckets[b := [e] + t.buckets[b]])) == Values(t) + multiset{e.value}
  {
    var c := t.buckets[b];
    var t' := t.(buckets := t.buckets[b := [e] + c]);
    EntriesUpdate(t.buckets, b, [e] + c);
    assert ([e] + c)[1..] == c;
    assert ValuesOf([e] + c) == multiset{e.value} + ValuesOf(c);
    MultisetCancel(Values(t'), Values(t) + multiset{e.value}, ValuesOf(c));
  }

  /** The table with the entry for `k` unlinked from its bucket. */
  lemma UnlinkFromBucket<V>(t: Table<V>, k: nat)
    requires Valid(t)
    ensures var b := t.hash(k);
            var u := Unlink(t.buckets[b], k);
            var t' := t.(buckets := t.buckets[b := u.0]);
            && Valid(t')
            && Contents(t') == Contents(t) - {k}
            && u.1 == (if k in Contents(t) then Some(Contents(t)[k]) else None)
            && (k !in Contents(t) ==> t' == t)
            && Values(t') + Bag(u.1) == Values(t)
  {
    var b := t.hash(k);
    var c := t.buckets[b];
    UnlinkSplices(c, k);
    var u := Unlink(c, k);
    match IndexOf(c, k)
    case None =>
      assert u == (c, None);
      KeyInItsBucket(t, k);
      UnlinkAbsent(t, k);
    case Some(i) =>
      assert u == (c[..i] + c[i + 1..], Some(c[i].value));
      SpliceFromBucket(t, k, i);
      assert Bag(u.1) == multiset{c[i].value};
  }

  /** Unlinking an absent key changes nothing. */
  lemma UnlinkAbsent<V>(t: Table<V>, k: nat)
    requires Valid(t) && k !in Keys(t)
    ensures k !in Contents(t)
    ensures t.(buckets := t.buckets[t.hash(k) := t.buckets[t.hash(k)]]) == t
    ensures Contents(t) - {k} == Contents(t)
  {
    var b := t.hash(k);
    assert t.buckets[b := t.buckets[b]] == t.buckets;
  }

  /** The table with the entry for `k`, at position `i` of its bucket, spliced out. */
  lemma SpliceFromBucket<V>(t: Table<V>, k: nat, i: nat)
    requires Valid(t)
    requires i < |t.buckets[t.hash(k)]| && t.buckets[t.hash(k)][i].key == k
    ensures var b := t.hash(k);
            var c := t.buckets[b];
            var t' := t.(buckets := t.buckets[b := c[..i] + c[i + 1..]]);
            && Valid(t')
            && k in Contents(t) && Contents(t)[k] == c[i].value
            && Contents(t') == Contents(t) - {k}
            && Values(t') + multiset{c[i].value} == Values(t)
  {
    var b := t.hash(k);
    var c := t.buckets[b];
    var t' := t.(buckets := t.buckets[b := c[..i] + c[i + 1..]]);
    SpliceKeepsValid(t, k, i);
    var m := Contents(t) - {k};
    forall j: nat
      ensures Get(t', j) == if j in m then Some(m[j]) else None
    {
      SpliceGet(t, k, i, j);
      GetIsContents(t, j);
    }
    ContentsFromGet(t', m);
    GetIsContents(t, k);
    SpliceValues(t, b, i);
  }

  lemma SpliceKeepsValid<V>(t: Table<V>, k: nat, i: nat)
    requires Valid(t)
    requires i < |t.buckets[t.hash(k)]| && t.buckets[t.hash(k)][i].key == k
    ensures var b := t.hash(k);
            var c := t.buckets[b];
            Valid(t.(buckets := t.buckets[b := c[..i] + c[i + 1..]]))
    ensures k in Keys(t) && Get(t, k) == Some(t.buckets[t.hash(k)][i].value)
  {
    var b := t.hash(k);
    var c := t.buckets[b];
    var c' := c[..i] + c[i + 1..];
    assert DistinctKeys(c);
    FindSplice(c, i, k);
    assert forall p :: 0 <= p < i ==> c'[p] == c[p];
    assert forall p :: i <= p < |c'| ==> c'[p] == c[p + 1];
  }

  /** A lookup after the entry for `k` is spliced out. */
  lemma SpliceGet<V>(t: Table<V>, k: nat, i: nat, j: nat)
    requires Valid(t)
    requires i < |t.buckets[t.hash(k)]| && t.buckets[t.hash(k)][i].key == k
    requires var b := t.hash(k);
             var c := t.buckets[b];
             Valid(t.(buckets := t.buckets[b := c[..i] + c[i + 1..]]))
    ensures var b := t.hash(k);
            var c := t.buckets[b];
            Get(t.(buckets := t.buckets[b := c[..i] + c[i + 1..]]), j) == if j == k then None else Get(t, j)
  {
    var b := t.hash(k);
    if t.hash(j) == b {
      assert DistinctKeys(t.buckets[b]);
      FindSplice(t.buckets[b], i, j);
    }
  }

  /** Ledger for an unlinked entry: its value leaves. */
  lemma SpliceValues<V>(t: Table<V>, b: nat, i: nat)
    requires b < |t.buckets| && i < |t.buckets[b]|
    ensures var c := t.buckets[b];
            Values(t.(buckets := t.buckets[b := c[..i] + c[i + 1..]])) + multiset{c[i].value} == Values(t)
  {
    var c := t.buckets[b];
    var c' := c[..i] + c[i + 1..];
    var t' := t.(buckets := t.buckets[b := c']);
    EntriesUpdate(t.buckets, b, c');
    ValuesOfSplice(c, i);
    MultisetCancel(Values(t') + multiset{c[i].value}, Values(t), ValuesOf(c'));
  }

  /** Every entry of the first `n` buckets is listed by `Entries`. */
  lemma {:induction false} EntriesHasEntry<V>(bs: seq<Chain<V>>, b: nat, i: nat)
    requires b < |bs| && i < |bs[b]|
    ensures bs[b][i] in Entries(bs)
    decreases |bs|
  {
    var n := |bs|;
    if b < n - 1 {
      assert bs[..n - 1][b] == bs[b];
      EntriesHasEntry(bs[..n - 1], b, i);
    } else {
      assert Entries(bs) == Entries(bs[..n - 1]) + bs[n - 1];
      assert (Entries(bs[..n - 1]) + bs[n - 1])[|Entries(bs[..n - 1])| + i] == bs[b][i];
    }
  }

  /** Every listed entry comes from some bucket. */
  lemma {:induction false} EntryFromBucket<V>(bs: seq<Chain<V>>, p: nat)
    requires p < |Entries(bs)|
    ensures exists b, i :: 0 <= b < |bs| && 0 <= i < |bs[b]| && Entries(bs)[p] == bs[b][i]
    decreases |bs|
  {
    var n := |bs|;
    var front := Entries(bs[..n - 1]);
    if p < |front| {
      EntryFromBucket(bs[..n - 1], p);
      var b, i :| 0 <= b < n - 1 && 0 <= i < |bs[..n - 1][b]| && front[p] == bs[..n - 1][b][i];
      assert Entries(bs)[p] == bs[b][i];
    } else {
      assert Entries(bs)[p] == bs[n - 1][p - |front|];
    }
  }

  /** The entries of the first `n` buckets of a valid table repeat no key and hash below `n`. */
  lemma {:induction false} EntriesDistinct<V>(t: Table<V>, n: nat)
    requires Valid(t) && n <= |t.buckets|
    ensures DistinctKeys(Entries(t.buckets[..n]))
    ensures forall p :: 0 <= p < |Entries(t.buckets[..n])| ==> t.hash(Entries(t.buckets[..n])[p].key) < n
  {
    if n > 0 {
      var bs := t.buckets[..n];
      assert bs[..n - 1] == t.buckets[..n - 1];
      EntriesDistinct(t, n - 1);
      var front := Entries(t.buckets[..n - 1]);
      var last := t.buckets[n - 1];
      var es := Entries(bs);
      assert es == front + last;
      assert DistinctKeys(last);
      forall p | 0 <= p < |es|
        ensures t.hash(es[p].key) < n
        ensures p >= |front| ==> t.hash(es[p].key) == n - 1
      {
        if p >= |front| {
          assert es[p] == last[p - |front|];
        } else {
          assert es[p] == front[p];
        }
      }
    }
  }

  /** The keys of a run of entries. */
  ghost function KeySet<V>(es: seq<Entry<V>>): set<nat>
  {
    set p | 0 <= p < |es| :: es[p].key
  }

  /** A run of entries without repeated keys has as many keys as entries. */
  lemma {:induction false} DistinctKeyCount<V>(es: seq<Entry<V>>)
    requires DistinctKeys(es)
    ensures |KeySet(es)| == |es|
    decreases |es|
  {
    if |es| > 0 {
      var n := |es|;
      var front := es[..n - 1];
      assert DistinctKeys(front) by {
        assert forall p :: 0 <= p < n - 1 ==> front[p] == es[p];
      }
      DistinctKeyCount(front);
      KeySetSnoc(es);
    }
  }

  /** The keys of a run without repeats: those of all but the last entry, plus the last one's, which is new. */
  lemma KeySetSnoc<V>(es: seq<Entry<V>>)
    requires DistinctKeys(es) && |es| > 0
    ensures KeySet(es) == KeySet(es[..|es| - 1]) + {es[|es| - 1].key}
    ensures es[|es| - 1].key !in KeySet(es[..|es| - 1])
  {
    var n := |es|;
    var front := es[..n - 1];
    assert forall p :: 0 <= p < n - 1 ==> front[p] == es[p];
    assert KeySet(es) == KeySet(front) + {es[n - 1].key} by {
      forall x | x in KeySet(es) ensures x in KeySet(front) + {es[n - 1].key} {
        var p :| 0 <= p < n && es[p].key == x;
        if p < n - 1 {
          assert front[p].key == x;
        }
      }
    }
  }

  /** What `Destroy` releases: every entry of the table, each key once, with its stored value. */
  lemma EntriesOfValid<V>(t: Table<V>)
    requires Valid(t)
    ensures var es := Entries(t.buckets);
            && DistinctKeys(es)
            && |es| == |Contents(t)|
            && forall p :: 0 <= p < |es| ==> es[p].key in Contents(t) && Contents(t)[es[p].key] == es[p].value
  {
    assert t.buckets[..|t.buckets|] == t.buckets;
    EntriesDistinct(t, |t.buckets|);
    EntriesAreContents(t);
    EntriesCount(t);
  }

  lemma EntriesAreContents<V>(t: Table<V>)
    requires Valid(t)
    ensures var es := Entries(t.buckets);
            forall p :: 0 <= p < |es| ==> es[p].key in Contents(t) && Contents(t)[es[p].key] == es[p].value
  {
    var es := Entries(t.buckets);
    forall p | 0 <= p < |es|
      ensures es[p].key in Contents(t) && Contents(t)[es[p].key] == es[p].value
    {
      EntryFromBucket(t.buckets, p);
      var b, i :| 0 <= b < |t.buckets| && 0 <= i < |t.buckets[b]| && es[p] == t.buckets[b][i];
      EntryIsContents(t, b, i);
    }
  }

  /** The entry at position `i` of bucket `b` is what the abstract view holds for its key. */
  lemma EntryIsContents<V>(t: Table<V>, b: nat, i: nat)
    requires Valid(t) && b < |t.buckets| && i < |t.buckets[b]|
    ensures t.buckets[b][i].key in Contents(t)
    ensures Contents(t)[t.buckets[b][i].key] == t.buckets[b][i].value
  {
    var e := t.buckets[b][i];
    assert e.key in Keys(t);
    assert t.hash(e.key) == b;
    assert DistinctKeys(t.buckets[b]);
  }

  lemma EntriesCount<V>(t: Table<V>)
    requires Valid(t)
    ensures |Entries(t.buckets)| == |Contents(t)|
  {
    var es := Entries(t.buckets);
    assert t.buckets[..|t.buckets|] == t.buckets;
    EntriesDistinct(t, |t.buckets|);
    DistinctKeyCount(es);
    ContentKeysListed(t);
    ListedKeysInContents(t);
    assert KeySet(es) == Contents(t).Keys;
    assert |Contents(t)| == |Contents(t).Keys|;
  }

  /** Every key of the contents is the key of some listed entry. */
  lemma ContentKeysListed<V>(t: Table<V>)
    requires Valid(t)
    ensures forall k :: k in Contents(t) ==> exists p :: 0 <= p < |Entries(t.buckets)| && Entries(t.buckets)[p].key == k
  {
    forall k | k in Contents(t) ensures exists p :: 0 <= p < |Entries(t.buckets)| && Entries(t.buckets)[p].key == k {
      assert k in Keys(t);
      KeyListed(t, k);
    }
  }

  /** A stored key is the key of some listed entry. */
  lemma KeyListed<V>(t: Table<V>, k: nat)
    requires k in Keys(t)
    ensures exists p :: 0 <= p < |Entries(t.buckets)| && Entries(t.buckets)[p].key == k
  {
    var es := Entries(t.buckets);
    var b, i :| 0 <= b < |t.buckets| && 0 <= i < |t.buckets[b]| && t.buckets[b][i].key == k;
    EntriesHasEntry(t.buckets, b, i);
    var p :| 0 <= p < |es| && es[p] == t.buckets[b][i];
    assert es[p].key == k;
  }

  /** Every listed entry's key is a key of the contents. */
  lemma ListedKeysInContents<V>(t: Table<V>)
    requires Valid(t)
    ensures forall p :: 0 <= p < |Entries(t.buckets)| ==> Entries(t.buckets)[p].key in Contents(t)
  {
    EntriesAreContents(t);
  }
}
