/**
 * One bucket of the chained hash table: a singly linked list of entries,
 * modelled as a sequence read from the head.
 */
module Chains {
  import opened Wrappers

  /** A key and the value stored under it (the `next` link is the sequence order). */
  datatype Entry<V> = Entry(key: nat, value: V)

  /** A bucket's chain, head first. */
  type Chain<V> = seq<Entry<V>>

  /** No key occurs twice in the chain. */
  ghost predicate DistinctKeys<V>(c: Chain<V>)
  {
    forall i, j :: 0 <= i < j < |c| ==> c[i].key != c[j].key
  }

  /** Some entry of the chain carries key `k`. */
  ghost predicate HasKey<V>(c: Chain<V>, k: nat)
  {
    exists i :: 0 <= i < |c| && c[i].key == k
  }

  /** The values held by a run of entries, with multiplicity. */
  ghost function ValuesOf<V>(es: seq<Entry<V>>): multiset<V>
  {
    if |es| == 0 then multiset{} else multiset{es[0].value} + ValuesOf(es[1..])
  }

  /**
   * The walk of `findItem`: the position of the first entry whose key is `k`,
   * scanning from the head, or `None` once the end of the chain is reached.
   */
  function IndexOf<V>(c: Chain<V>, k: nat): (r: Option<nat>)
    ensures r.Some? ==> r.value < |c| && c[r.value].key == k
    ensures r.Some? ==> forall j :: 0 <= j < r.value ==> c[j].key != k
    ensures r.None? <==> !HasKey(c, k)
    decreases |c|
  {
    if |c| == 0 then None
    else if c[0].key == k then Some(0)
    else
      match IndexOf(c[1..], k)
      case None => None
      case Some(i) => Some(i + 1)
  }

  /** The value of the first entry with key `k`, as `findItem` followed by `->value`. */
  function Find<V>(c: Chain<V>, k: nat): (r: Option<V>)
    ensures r.Some? <==> HasKey(c, k)
    ensures r.Some? ==> exists i :: 0 <= i < |c| && c[i] == Entry(k, r.value)
    ensures DistinctKeys(c) ==> forall i :: 0 <= i < |c| && c[i].key == k ==> r == Some(c[i].value)
  {
    match IndexOf(c, k)
    case None => None
    case Some(i) => Some(c[i].value)
  }

  /**
   * The unlinking walk of `removeItem`: an empty chain is left alone, a matching
   * head is dropped, and otherwise the first matching successor is spliced out.
   * Also returns the value of the unlinked entry.
   */
  function Unlink<V>(c: Chain<V>, k: nat): (r: (Chain<V>, Option<V>))
    ensures |r.0| <= |c|
    ensures r.1.Some? <==> HasKey(c, k)
    decreases |c|
  {
    if |c| == 0 then (c, None)
    else if c[0].key == k then (c[1..], Some(c[0].value))
    else
      var u := Unlink(c[1..], k);
      assert HasKey(c[1..], k) <==> HasKey(c, k) by {
        if HasKey(c, k) {
          var p :| 0 <= p < |c| && c[p].key == k;
          assert c[1..][p - 1].key == k;
        }
      }
      ([c[0]] + u.0, u.1)
  }

  /** The walk splices out exactly the first entry with key `k`, and returns its value. */
  lemma {:induction false} UnlinkSplices<V>(c: Chain<V>, k: nat)
    ensures IndexOf(c, k).None? ==> Unlink(c, k) == (c, None)
    ensures IndexOf(c, k).Some? ==>
              var i := IndexOf(c, k).value;
              Unlink(c, k) == (c[..i] + c[i + 1..], Some(c[i].value))
    decreases |c|
  {
    if |c| > 0 {
      if c[0].key == k {
        assert c[..0] + c[0 + 1..] == c[1..];
      } else {
        UnlinkSplices(c[1..], k);
        var u := Unlink(c[1..], k);
        assert Unlink(c, k) == ([c[0]] + u.0, u.1);
        match IndexOf(c[1..], k)
        case None =>
          assert IndexOf(c, k) == None;
          assert [c[0]] + c[1..] == c;
        case Some(j) =>
          assert IndexOf(c, k) == Some(j + 1);
          assert c[1..][j] == c[j + 1];
          SpliceBehindHead(c, j);
      }
    }
  }

  /** Splicing position `j` out of the tail is splicing position `j + 1` out of the chain. */
  lemma SpliceBehindHead<V>(c: Chain<V>, j: nat)
    requires j + 1 < |c|
    ensures [c[0]] + (c[1..][..j] + c[1..][j + 1..]) == c[..j + 1] + c[j + 2..]
  {
    assert c[1..][..j] == c[1..j + 1];
    assert c[1..][j + 1..] == c[j + 2..];
    assert [c[0]] + c[1..j + 1] == c[..j + 1];
  }

  lemma {:induction false} ValuesOfConcat<V>(a: seq<Entry<V>>, b: seq<Entry<V>>)
    ensures ValuesOf(a + b) == ValuesOf(a) + ValuesOf(b)
    decreases |a|
  {
    if |a| == 0 {
      assert a + b == b;
    } else {
      assert (a + b)[1..] == a[1..] + b;
      ValuesOfConcat(a[1..], b);
    }
  }

  /** Splitting a chain around position `i`. */
  lemma ValuesOfSplit<V>(c: Chain<V>, i: nat)
    requires i < |c|
    ensures ValuesOf(c) == ValuesOf(c[..i]) + multiset{c[i].value} + ValuesOf(c[i + 1..])
  {
    var tail := [c[i]] + c[i + 1..];
    assert c == c[..i] + tail;
    ValuesOfConcat(c[..i], tail);
    assert tail[1..] == c[i + 1..];
    assert ValuesOf(tail) == multiset{c[i].value} + ValuesOf(c[i + 1..]);
  }

  /** Overwriting the value at position `i` swaps exactly one value in the chain's multiset. */
  lemma ValuesOfReplace<V>(c: Chain<V>, i: nat, e: Entry<V>)
    requires i < |c|
    ensures ValuesOf(c[i := e]) + multiset{c[i].value} == ValuesOf(c) + multiset{e.value}
  {
    var c' := c[i := e];
    ValuesOfSplit(c, i);
    ValuesOfSplit(c', i);
    assert c'[..i] == c[..i];
    assert c'[i + 1..] == c[i + 1..];
  }

  /** Splicing out position `i` removes exactly that value from the chain's multiset. */
  lemma ValuesOfSplice<V>(c: Chain<V>, i: nat)
    requires i < |c|
    ensures ValuesOf(c[..i] + c[i + 1..]) + multiset{c[i].value} == ValuesOf(c)
  {
    ValuesOfSplit(c, i);
    ValuesOfConcat(c[..i], c[i + 1..]);
  }

  /** Lookup in a chain with one entry prepended. */
  lemma FindPrepend<V>(e: Entry<V>, c: Chain<V>, j: nat)
    ensures Find([e] + c, j) == if e.key == j then Some(e.value) else Find(c, j)
  {
    assert ([e] + c)[1..] == c;
  }

  /** Lookup after the value of the entry for `k` (at position `i`) is overwritten in place. */
  lemma FindReplace<V>(c: Chain<V>, i: nat, v: V, j: nat)
    requires DistinctKeys(c) && i < |c|
    ensures DistinctKeys(c[i := Entry(c[i].key, v)])
    ensures Find(c[i := Entry(c[i].key, v)], j) == if j == c[i].key then Some(v) else Find(c, j)
  {
    var c' := c[i := Entry(c[i].key, v)];
    assert forall p :: 0 <= p < |c| ==> c'[p].key == c[p].key;
    if j != c[i].key && HasKey(c, j) {
      var p :| 0 <= p < |c| && c[p].key == j;
      assert c'[p] == c[p];
    }
  }

  /** Lookup after the entry at position `i` is spliced out of a chain without repeated keys. */
  lemma FindSplice<V>(c: Chain<V>, i: nat, j: nat)
    requires DistinctKeys(c) && i < |c|
    ensures DistinctKeys(c[..i] + c[i + 1..])
    ensures Find(c[..i] + c[i + 1..], j) == if j == c[i].key then None else Find(c, j)
  {
    var c' := c[..i] + c[i + 1..];
    assert forall p :: 0 <= p < i ==> c'[p] == c[p];
    assert forall p :: i <= p < |c'| ==> c'[p] == c[p + 1];
    if j != c[i].key && HasKey(c, j) {
      var p :| 0 <= p < |c| && c[p].key == j;
      if p < i {
        assert c'[p] == c[p];
      } else {
        assert c'[p - 1] == c[p];
      }
    }
  }
}
