/**
 * Keyed bucketing, the `HashMap::entry(key).or_default().push(value)` loop
 * that both `find_duplicates` (keyed by content hash) and `group_by_size`
 * (keyed by file size) run over their input.
 */
module Grouping {

  /** The values tagged with key `k`, in input order: the reference definition of a bucket. */
  function Select<K(==), V>(pairs: seq<(V, K)>, k: K): seq<V>
  {
    if |pairs| == 0 then []
    else (if pairs[0].1 == k then [pairs[0].0] else []) + Select(pairs[1..], k)
  }

  /** Selecting is a homomorphism over concatenation: buckets keep input order. */
  lemma {:induction false} SelectAppend<K, V>(a: seq<(V, K)>, b: seq<(V, K)>, k: K)
    ensures Select(a + b, k) == Select(a, k) + Select(b, k)
  {
    if |a| == 0 {
      assert a + b == b;
    } else {
      var ab := a + b;
      assert ab[0] == a[0];
      assert ab[1..] == a[1..] + b;
      SelectAppend(a[1..], b, k);
      var head := if a[0].1 == k then [a[0].0] else [];
      calc {
        Select(ab, k);
        head + Select(a[1..] + b, k);
        head + (Select(a[1..], k) + Select(b, k));
        (head + Select(a[1..], k)) + Select(b, k);
        Select(a, k) + Select(b, k);
      }
    }
  }

  /** Appending one pair extends exactly the bucket of its key. */
  lemma SelectSnoc<K, V>(init: seq<(V, K)>, last: (V, K))
    ensures forall k :: Select(init + [last], k)
                        == Select(init, k) + (if last.1 == k then [last.0] else [])
  {
    forall k ensures Select(init + [last], k)
                     == Select(init, k) + (if last.1 == k then [last.0] else []) {
      SelectAppend(init, [last], k);
    }
  }

  /** Every selected value came from a pair carrying the key. */
  lemma {:induction false} SelectFrom<K, V>(pairs: seq<(V, K)>, k: K, v: V)
    requires v in Select(pairs, k)
    ensures (v, k) in pairs
  {
    if pairs[0].1 == k && v == pairs[0].0 {
    } else {
      SelectFrom(pairs[1..], k, v);
    }
  }

  /** A bucket is non-empty exactly when some pair carries the key. */
  lemma {:induction false} SelectNonEmpty<K, V>(pairs: seq<(V, K)>, k: K)
    ensures |Select(pairs, k)| > 0 <==> exists i :: 0 <= i < |pairs| && pairs[i].1 == k
  {
    if |pairs| > 0 {
      SelectNonEmpty(pairs[1..], k);
      if pairs[0].1 != k && |Select(pairs[1..], k)| == 0 {
        forall i | 0 <= i < |pairs| ensures pairs[i].1 != k {
          if i > 0 {
            assert pairs[i] == pairs[1..][i - 1];
          }
        }
      }
      if pairs[0].1 != k && |Select(pairs[1..], k)| > 0 {
        var j :| 0 <= j < |pairs[1..]| && pairs[1..][j].1 == k;
        assert pairs[j + 1].1 == k;
      }
    }
  }

  /** The bucket map: each key that occurs maps to its values in input order. */
  function Bucket<K(==,!new), V>(pairs: seq<(V, K)>): (m: map<K, seq<V>>)
    ensures forall k :: k in m <==> |Select(pairs, k)| > 0
    ensures forall k :: k in m ==> m[k] == Select(pairs, k)
  {
    if |pairs| == 0 then map[]
    else
      var init := pairs[..|pairs| - 1];
      var last := pairs[|pairs| - 1];
      assert init + [last] == pairs;
      SelectSnoc(init, last);
      var m := Bucket(init);
      m[last.1 := (if last.1 in m then m[last.1] else []) + [last.0]]
  }

  /** The keys of `pairs`, each once, in order of first appearance. */
  function Keys<K(==,!new), V>(pairs: seq<(V, K)>): (ks: seq<K>)
    ensures forall k :: k in ks <==> |Select(pairs, k)| > 0
    ensures forall i, j :: 0 <= i < j < |ks| ==> ks[i] != ks[j]
  {
    if |pairs| == 0 then []
    else
      var init := pairs[..|pairs| - 1];
      var last := pairs[|pairs| - 1];
      assert init + [last] == pairs;
      SelectSnoc(init, last);
      var ks := Keys(init);
      if last.1 in ks then ks else ks + [last.1]
  }

  /** Number of pairs whose key lies in `s`. */
  function CountIn<K(==), V>(pairs: seq<(V, K)>, s: set<K>): nat
  {
    if |pairs| == 0 then 0
    else (if pairs[0].1 in s then 1 else 0) + CountIn(pairs[1..], s)
  }

  /** Adding a fresh key to `s` adds exactly that key's bucket to the count. */
  lemma {:induction false} CountInAdd<K, V>(pairs: seq<(V, K)>, s: set<K>, k: K)
    requires k !in s
    ensures CountIn(pairs, s + {k}) == CountIn(pairs, s) + |Select(pairs, k)|
  {
    if |pairs| > 0 {
      CountInAdd(pairs[1..], s, k);
    }
  }

  /** A bucket of two or more values needs two distinct pairs carrying the key. */
  lemma {:induction false} SelectTwo<K, V>(pairs: seq<(V, K)>, k: K)
    requires |Select(pairs, k)| >= 2
    ensures exists i, j :: 0 <= i < j < |pairs| && pairs[i].1 == k && pairs[j].1 == k
  {
    if pairs[0].1 == k {
      SelectNonEmpty(pairs[1..], k);
      var j :| 0 <= j < |pairs[1..]| && pairs[1..][j].1 == k;
      assert pairs[j + 1].1 == k;
    } else {
      SelectTwo(pairs[1..], k);
      var i, j :| 0 <= i < j < |pairs[1..]| && pairs[1..][i].1 == k && pairs[1..][j].1 == k;
      assert pairs[i + 1].1 == k && pairs[j + 1].1 == k;
    }
  }

  /** Every pair's value is in the bucket of its key. */
  lemma {:induction false} SelectContains<K, V>(pairs: seq<(V, K)>, j: nat)
    requires j < |pairs|
    ensures pairs[j].0 in Select(pairs, pairs[j].1)
  {
    if j > 0 {
      SelectContains(pairs[1..], j - 1);
      assert pairs[1..][j - 1] == pairs[j];
    }
  }
}
