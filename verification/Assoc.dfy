/** Insertion-ordered maps as association lists. This is the behaviour shared
    by Python's `dict`, Java's `LinkedHashMap` and Jackson's `ObjectNode`:
    putting an existing key replaces its value but keeps its position,
    putting a new key appends it. Java's `HashMap` is modelled the same way,
    its iteration order being some fixed order the program does not choose. */
module Assoc {
  import opened Wrappers

  type Entries<K, V> = seq<(K, V)>

  function Keys<K, V>(es: Entries<K, V>): (r: seq<K>)
    ensures |r| == |es|
    ensures forall i :: 0 <= i < |es| ==> r[i] == es[i].0
  {
    seq(|es|, i requires 0 <= i < |es| => es[i].0)
  }

  predicate HasKey<K(==), V>(es: Entries<K, V>, k: K) {
    exists i | 0 <= i < |es| :: es[i].0 == k
  }

  predicate UniqueKeys<K(==), V>(es: Entries<K, V>) {
    forall i, j | 0 <= i < j < |es| :: es[i].0 != es[j].0
  }

  /** The value stored under `k`, if any (the first entry for `k`). */
  function Get<K(==), V>(es: Entries<K, V>, k: K): (r: Option<V>)
    ensures r.None? <==> !HasKey(es, k)
  {
    if |es| == 0 then None
    else if es[0].0 == k then Some(es[0].1)
    else Get(es[1..], k)
  }

  /** With unique keys, `Get` returns the value of the entry holding `k`. */
  lemma {:induction false} GetUnique<K, V>(es: Entries<K, V>, i: nat)
    requires UniqueKeys(es)
    requires i < |es|
    ensures Get(es, es[i].0) == Some(es[i].1)
  {
    if i > 0 {
      assert es[0].0 != es[i].0;
      assert es[1..][i - 1] == es[i];
      GetUnique(es[1..], i - 1);
    }
  }

  /** `map.put(k, v)`: replace in place or append. */
  function Put<K(==), V>(es: Entries<K, V>, k: K, v: V): (r: Entries<K, V>)
    ensures Get(r, k) == Some(v)
    ensures HasKey(es, k) ==> Keys(r) == Keys(es)
    ensures !HasKey(es, k) ==> r == es + [(k, v)]
  {
    if |es| == 0 then [(k, v)]
    else if es[0].0 == k then [(k, v)] + es[1..]
    else [es[0]] + Put(es[1..], k, v)
  }

  /** Putting `k` leaves every other key's value as it was. */
  lemma {:induction false} PutGetOther<K, V>(es: Entries<K, V>, k: K, v: V, k': K)
    requires k' != k
    ensures Get(Put(es, k, v), k') == Get(es, k')
  {
    if |es| > 0 && es[0].0 != k {
      PutGetOther(es[1..], k, v, k');
      assert Put(es, k, v)[1..] == Put(es[1..], k, v);
    } else if |es| > 0 {
      assert Put(es, k, v)[1..] == es[1..];
    }
  }

  /** Putting keeps keys unique. */
  lemma PutUnique<K, V>(es: Entries<K, V>, k: K, v: V)
    requires UniqueKeys(es)
    ensures UniqueKeys(Put(es, k, v))
  {
    var r := Put(es, k, v);
    if HasKey(es, k) {
      assert Keys(r) == Keys(es);
      forall i, j | 0 <= i < j < |r|
        ensures r[i].0 != r[j].0
      {
        assert Keys(r)[i] == Keys(es)[i] && Keys(r)[j] == Keys(es)[j];
      }
    }
  }

  /** `map.putIfAbsent(k, v)`: an existing value is kept. */
  function PutIfAbsent<K(==), V>(es: Entries<K, V>, k: K, v: V): (r: Entries<K, V>)
    ensures HasKey(es, k) ==> r == es
    ensures !HasKey(es, k) ==> r == es + [(k, v)]
  {
    if HasKey(es, k) then es else Put(es, k, v)
  }

  /** After a put, the keys are the old ones and the put one. */
  lemma PutHasKey<K, V>(es: Entries<K, V>, k: K, v: V)
    ensures forall k' :: HasKey(Put(es, k, v), k') <==> HasKey(es, k') || k' == k
  {
    var r := Put(es, k, v);
    if HasKey(es, k) {
      assert Keys(r) == Keys(es);
      forall k' ensures HasKey(r, k') <==> HasKey(es, k') {
        if HasKey(r, k') {
          var i :| 0 <= i < |r| && r[i].0 == k';
          assert Keys(r)[i] == Keys(es)[i];
        }
        if HasKey(es, k') {
          var i :| 0 <= i < |es| && es[i].0 == k';
          assert Keys(r)[i] == Keys(es)[i];
        }
      }
    } else {
      assert r == es + [(k, v)];
      assert r[|es|].0 == k;
      forall k' | HasKey(es, k') ensures HasKey(r, k') {
        var i :| 0 <= i < |es| && es[i].0 == k';
        assert r[i] == es[i];
      }
    }
  }

  /** A found value is the value of an entry holding the key. */
  lemma {:induction false} GetFound<K, V>(es: Entries<K, V>, k: K)
    requires Get(es, k).Some?
    ensures exists j | 0 <= j < |es| :: es[j] == (k, Get(es, k).value)
  {
    if es[0].0 != k {
      GetFound(es[1..], k);
      var j :| 0 <= j < |es[1..]| && es[1..][j] == (k, Get(es, k).value);
      assert es[j + 1] == es[1..][j];
    }
  }
}
