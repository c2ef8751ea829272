/** An ordered PHP array: a sequence of key/value pairs in insertion order.
    PHP keeps one pair per key; reading `$a[$k]` finds the pair with key k,
    and assigning `$a[$k] = $v` overwrites that pair in place or, when k is
    new, appends a pair at the end. */
module PhpArray {

  datatype Option<T> = None | Some(value: T)

  type Assoc<K, V> = seq<(K, V)>

  /** The keys of `a`, in iteration order. */
  function Keys<K, V>(a: Assoc<K, V>): (ks: seq<K>)
    ensures |ks| == |a|
    ensures forall i :: 0 <= i < |a| ==> ks[i] == a[i].0
  {
    seq(|a|, i requires 0 <= i < |a| => a[i].0)
  }

  /** No key occurs twice, as in every PHP array. */
  predicate DistinctKeys<K(==), V>(a: Assoc<K, V>)
  {
    forall i, j :: 0 <= i < j < |a| ==> a[i].0 != a[j].0
  }

  /** `$a[$k] ?? null`: the value stored under `k`, if any. */
  function Find<K(==), V>(a: Assoc<K, V>, k: K): Option<V>
  {
    if a == [] then None
    else if a[0].0 == k then Some(a[0].1)
    else Find(a[1..], k)
  }

  /** A read finds a value exactly when the key is present, and the value
      found is the first one stored under that key. */
  lemma {:induction false} FindFirst<K, V>(a: Assoc<K, V>, k: K)
    ensures Find(a, k).None? <==> k !in Keys(a)
    ensures Find(a, k).Some? ==> Find(a, k).value == a[IndexOf(a, k)].1
  {
    if a != [] && a[0].0 != k {
      FindFirst(a[1..], k);
      assert k in Keys(a) <==> k in Keys(a[1..]) by {
        if k in Keys(a) {
          var j :| 0 <= j < |a| && Keys(a)[j] == k;
          assert Keys(a[1..])[j - 1] == k;
        }
        if k in Keys(a[1..]) {
          var j :| 0 <= j < |a| - 1 && Keys(a[1..])[j] == k;
          assert Keys(a)[j + 1] == k;
        }
      }
    }
  }

  /** Position of the pair with key `k`. */
  function IndexOf<K(==), V>(a: Assoc<K, V>, k: K): (i: nat)
    requires k in Keys(a)
    ensures i < |a| && a[i].0 == k
    ensures forall j :: 0 <= j < i ==> a[j].0 != k
  {
    if a[0].0 == k then 0
    else
      assert k in Keys(a[1..]) by {
        var j :| 0 <= j < |a| && Keys(a)[j] == k;
        assert j != 0 && Keys(a[1..])[j - 1] == k;
      }
      1 + IndexOf(a[1..], k)
  }

  /** `$a[$k] = $v`. */
  function Set<K(==), V>(a: Assoc<K, V>, k: K, v: V): (r: Assoc<K, V>)
    ensures k !in Keys(a) ==> r == a + [(k, v)] && Keys(r) == Keys(a) + [k]
    ensures k in Keys(a) ==>
      && |r| == |a| && Keys(r) == Keys(a)
      && r[IndexOf(a, k)] == (k, v)
      && forall j :: 0 <= j < |a| && j != IndexOf(a, k) ==> r[j] == a[j]
  {
    if k in Keys(a) then
      var r := a[IndexOf(a, k) := (k, v)];
      assert Keys(r) == Keys(a);
      r
    else
      var r := a + [(k, v)];
      assert Keys(r) == Keys(a) + [k];
      r
  }

  lemma {:induction false} FindAt<K, V>(a: Assoc<K, V>, i: nat)
    requires DistinctKeys(a) && i < |a|
    ensures Find(a, a[i].0) == Some(a[i].1)
  {
    if i > 0 {
      assert a[0].0 != a[i].0;
      FindAt(a[1..], i - 1);
    }
  }

  /** The array a PHP literal `[k0 => v0, k1 => v1, ...]` denotes: the pairs
      are assigned left to right, so a repeated key keeps its first position
      and its last value. */
  function FromLiteral<K(==, !new), V>(pairs: seq<(K, V)>): (r: Assoc<K, V>)
    ensures DistinctKeys(r)
    ensures forall k :: k in Keys(r) <==> k in Keys(pairs)
  {
    if pairs == [] then []
    else
      var prefix := pairs[..|pairs| - 1];
      var last := pairs[|pairs| - 1];
      var r := Set(FromLiteral(prefix), last.0, last.1);
      assert forall k :: k in Keys(pairs) <==> k in Keys(prefix) || k == last.0 by {
        forall k | k in Keys(pairs) ensures k in Keys(prefix) || k == last.0 {
          var i :| 0 <= i < |pairs| && Keys(pairs)[i] == k;
          if i < |pairs| - 1 { assert Keys(prefix)[i] == k; }
        }
        forall k | k in Keys(prefix) ensures k in Keys(pairs) {
          var i :| 0 <= i < |prefix| && Keys(prefix)[i] == k;
          assert Keys(pairs)[i] == k;
        }
        assert Keys(pairs)[|pairs| - 1] == last.0;
      }
      r
  }

  /** A literal whose keys are all different denotes exactly its own pairs. */
  lemma {:induction false} FromDistinctLiteral<K(!new), V>(pairs: seq<(K, V)>)
    requires DistinctKeys(pairs)
    ensures FromLiteral(pairs) == pairs
  {
    if pairs != [] {
      var prefix := pairs[..|pairs| - 1];
      var last := pairs[|pairs| - 1];
      FromDistinctLiteral(prefix);
      assert forall i :: 0 <= i < |prefix| ==> Keys(prefix)[i] != last.0;
      assert prefix + [last] == pairs;
    }
  }
}
