/** A Python `dict`: key/value pairs in insertion order, each key at most
    once. Assigning to a key that is already present replaces its value in
    place; a new key goes to the end. */
module Dicts {
  import opened Wrappers

  type Dict<K, V> = seq<(K, V)>

  function Keys<K, V>(d: Dict<K, V>): (r: seq<K>)
    ensures |r| == |d| && forall i :: 0 <= i < |d| ==> r[i] == d[i].0
  {
    seq(|d|, i requires 0 <= i < |d| => d[i].0)
  }

  /** `d.values()`, in insertion order. */
  function Values<K, V>(d: Dict<K, V>): (r: seq<V>)
    ensures |r| == |d| && forall i :: 0 <= i < |d| ==> r[i] == d[i].1
  {
    seq(|d|, i requires 0 <= i < |d| => d[i].1)
  }

  ghost predicate DistinctKeys<K, V>(d: Dict<K, V>) {
    forall i, j :: 0 <= i < j < |d| ==> d[i].0 != d[j].0
  }

  /** The position of the first occurrence of `x` in `s`. */
  function FirstIndex<T(==)>(s: seq<T>, x: T): (r: nat)
    requires x in s
    ensures r < |s| && s[r] == x && forall j :: 0 <= j < r ==> s[j] != x
  {
    if s[0] == x then 0 else 1 + FirstIndex(s[1..], x)
  }

  /** `d.get(k)` */
  function Get<K(==), V>(d: Dict<K, V>, k: K): (r: Option<V>)
    ensures r.None? <==> k !in Keys(d)
    ensures r.Some? ==> exists i :: 0 <= i < |d| && d[i] == (k, r.value)
  {
    var keys := Keys(d);
    if k in keys then
      var i := FirstIndex(keys, k);
      assert d[i] == (k, d[i].1);
      Some(d[i].1)
    else None
  }

  /** With distinct keys, the value stored at position `i` is what a lookup
      of its key returns. */
  lemma GetAt<K, V>(d: Dict<K, V>, i: nat)
    requires DistinctKeys(d) && i < |d|
    ensures Get(d, d[i].0) == Some(d[i].1)
  {
    assert Keys(d)[i] == d[i].0;
  }

  /** `d[k] = v`: in place when `k` is already a key, at the end otherwise. */
  function Put<K(==), V>(d: Dict<K, V>, k: K, v: V): (r: Dict<K, V>)
    ensures k in Keys(d) ==> Keys(r) == Keys(d)
    ensures k !in Keys(d) ==> r == d + [(k, v)]
  {
    var keys := Keys(d);
    if k in keys then
      var r := d[FirstIndex(keys, k) := (k, v)];
      assert Keys(r) == keys;
      r
    else d + [(k, v)]
  }

  lemma PutGet<K, V>(d: Dict<K, V>, k: K, v: V, k': K)
    ensures Get(Put(d, k, v), k') == if k' == k then Some(v) else Get(d, k')
  {
    var r := Put(d, k, v);
    if k in Keys(d) {
      var i := FirstIndex(Keys(d), k);
      if k' in Keys(d) {
        var j := FirstIndex(Keys(d), k');
        assert Keys(r) == Keys(d);
        assert FirstIndex(Keys(r), k') == j;
        assert k' == k <==> i == j;
      }
    } else {
      assert Keys(r) == Keys(d) + [k];
      if k' in Keys(d) {
        var j := FirstIndex(Keys(d), k');
        assert Keys(r)[j] == k';
        assert FirstIndex(Keys(r), k') == j;
      } else if k' == k {
        assert FirstIndex(Keys(r), k') == |d|;
      }
    }
  }

  lemma PutDistinct<K, V>(d: Dict<K, V>, k: K, v: V)
    requires DistinctKeys(d)
    ensures DistinctKeys(Put(d, k, v))
  {
    var r := Put(d, k, v);
    if k in Keys(d) {
      assert forall i :: 0 <= i < |r| ==> r[i].0 == Keys(r)[i] == Keys(d)[i] == d[i].0;
    }
  }

  /** A dict comprehension `{k: v for (k, v) in ps}`: the pairs assigned
      one after the other. */
  function FromPairs<K(==), V>(ps: seq<(K, V)>): (r: Dict<K, V>)
    ensures DistinctKeys(r)
  {
    if ps == [] then []
    else
      var init := FromPairs(ps[..|ps| - 1]);
      PutDistinct(init, ps[|ps| - 1].0, ps[|ps| - 1].1);
      Put(init, ps[|ps| - 1].0, ps[|ps| - 1].1)
  }

  /** When the generated keys are already distinct, the comprehension keeps
      every pair, in order. */
  lemma {:induction false} FromDistinctPairs<K, V>(ps: seq<(K, V)>)
    requires DistinctKeys(ps)
    ensures FromPairs(ps) == ps
  {
    if ps != [] {
      var init := ps[..|ps| - 1];
      var last := ps[|ps| - 1];
      assert init + [last] == ps;
      assert DistinctKeys(init) by {
        forall i, j | 0 <= i < j < |init| ensures init[i].0 != init[j].0 {
          assert init[i] == ps[i] && init[j] == ps[j];
        }
      }
      assert last.0 !in Keys(init) by {
        forall i | 0 <= i < |init| ensures Keys(init)[i] != last.0 {
          assert init[i] == ps[i];
        }
      }
      assert FromPairs(init) == init by {
        FromDistinctPairs(init);
      }
    }
  }
}
