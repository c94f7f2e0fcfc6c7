/** Frequency tables as the source holds them: Python dicts from a key (a
    word, or a tuple of words) to an occurrence count. A dict keeps its keys
    in insertion order and never holds a key twice, so a table is a sequence
    of (key, count) entries with distinct keys. */
module CountTables {

  predicate DistinctKeys<K(==)>(entries: seq<(K, nat)>) {
    forall i, j :: 0 <= i < j < |entries| ==> entries[i].0 != entries[j].0
  }

  type Table<K(==)> = t: seq<(K, nat)> | DistinctKeys(t) witness []

  /** The keys of the table, as a set. */
  function Keys<K(==)>(t: seq<(K, nat)>): (ks: set<K>)
    ensures forall i :: 0 <= i < |t| ==> t[i].0 in ks
    ensures forall k :: k in ks ==> exists i :: 0 <= i < |t| && t[i].0 == k
  {
    set i | 0 <= i < |t| :: t[i].0
  }

  /** `t.get(key, 0)`: the count of a key, 0 for a key the table lacks. */
  function Get<K(==)>(t: seq<(K, nat)>, key: K): nat
  {
    if |t| == 0 then 0
    else if t[0].0 == key then t[0].1
    else Get(t[1..], key)
  }

  /** `sum(t.values())`. */
  function Total<K(==)>(t: seq<(K, nat)>): nat
  {
    if |t| == 0 then 0 else t[0].1 + Total(t[1..])
  }

  /** A missing key counts as 0. */
  lemma {:induction false} GetMissing<K>(t: seq<(K, nat)>, key: K)
    requires key !in Keys(t)
    ensures Get(t, key) == 0
  {
    if |t| > 0 {
      assert t[0].0 != key;
      assert Keys(t[1..]) <= Keys(t) by {
        forall k | k in Keys(t[1..]) ensures k in Keys(t) {
          var i :| 0 <= i < |t[1..]| && t[1..][i].0 == k;
          assert t[i + 1].0 == k;
        }
      }
      GetMissing(t[1..], key);
    }
  }

  /** A key the table holds gets the count stored with it. */
  lemma {:induction false} GetEntry<K>(t: Table<K>, i: nat)
    requires i < |t|
    ensures Get(t, t[i].0) == t[i].1
  {
    if i > 0 {
      assert t[0].0 != t[i].0;
      var rest: Table<K> := t[1..];
      GetEntry(rest, i - 1);
    }
  }

  /** No count exceeds the sum of all counts. */
  lemma {:induction false} GetAtMostTotal<K>(t: seq<(K, nat)>, key: K)
    ensures Get(t, key) <= Total(t)
  {
    if |t| > 0 && t[0].0 != key {
      GetAtMostTotal(t[1..], key);
    }
  }
}
