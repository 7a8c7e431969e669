/** The table idioms the scrapers use, over sequences of records: a pandas
    outer merge that keeps every row of one side, and a Python dict with
    insertion order kept as a sequence of (key, value) pairs.
 */
module Tables {
  import opened Wrappers
  import opened Seqs

  /** The rows of `other` that match `a`, in order. */
  function Matches<A, B>(a: A, other: seq<B>, m: (A, B) -> bool): (r: seq<B>)
    ensures |r| <= |other|
  {
    Filter(other, b => m(a, b))
  }

  /** `pd.merge` with `how` set to the side `keep`: every row of `keep`, in
      order, once per matching row of `other` (in order), or once with no
      partner when nothing matches. */
  function OuterJoin<A, B>(keep: seq<A>, other: seq<B>, m: (A, B) -> bool): (r: seq<(A, Option<B>)>)
    ensures |r| >= |keep|
  {
    if keep == [] then []
    else
      var ms := Matches(keep[0], other, m);
      var here := if ms == [] then [(keep[0], None)] else Map(ms, b => (keep[0], Some(b)));
      here + OuterJoin(keep[1..], other, m)
  }

  /** Every joined row pairs a kept row with a matching partner, or with
      none when it has no match at all. */
  lemma {:induction false} OuterJoinSound<A, B>(keep: seq<A>, other: seq<B>, m: (A, B) -> bool, a: A, p: Option<B>)
    requires (a, p) in OuterJoin(keep, other, m)
    ensures a in keep
    ensures p.Some? ==> p.value in other && m(a, p.value)
    ensures p.None? ==> forall b :: b in other ==> !m(a, b)
    decreases |keep|
  {
    var ms := Matches(keep[0], other, m);
    var here := if ms == [] then [(keep[0], None)] else Map(ms, b => (keep[0], Some(b)));
    if (a, p) in here {
      if ms == [] {
        forall b | b in other
          ensures !m(a, b)
        {
          FilterMembers(other, b => m(a, b), b);
        }
      } else {
        var k :| 0 <= k < |here| && here[k] == (a, p);
        FilterMembers(other, b => m(a, b), ms[k]);
      }
    } else {
      assert (a, p) in OuterJoin(keep[1..], other, m);
      OuterJoinSound(keep[1..], other, m, a, p);
    }
  }

  /** Every matching pair is joined, and a row with no match appears once
      with no partner: no row of the kept side is lost. */
  lemma {:induction false} OuterJoinComplete<A, B>(keep: seq<A>, other: seq<B>, m: (A, B) -> bool, a: A)
    requires a in keep
    ensures forall b :: b in other && m(a, b) ==> (a, Some(b)) in OuterJoin(keep, other, m)
    ensures (forall b :: b in other ==> !m(a, b)) ==> (a, None) in OuterJoin(keep, other, m)
    decreases |keep|
  {
    var ms := Matches(keep[0], other, m);
    var here := if ms == [] then [(keep[0], None)] else Map(ms, b => (keep[0], Some(b)));
    assert OuterJoin(keep, other, m) == here + OuterJoin(keep[1..], other, m);
    if a == keep[0] {
      forall b | b in other && m(a, b)
        ensures (a, Some(b)) in OuterJoin(keep, other, m)
      {
        FilterMembers(other, b' => m(a, b'), b);
        var k :| 0 <= k < |ms| && ms[k] == b;
        assert here[k] == (a, Some(b));
      }
      if forall b :: b in other ==> !m(a, b) {
        FilterNone(other, b => m(a, b));
        assert here[0] == (a, None);
      }
    } else {
      OuterJoinComplete(keep[1..], other, m, a);
    }
  }

  /** A dict whose keys are the first components, in insertion order. */
  type Dict<K, V> = seq<(K, V)>

  function Keys<K, V>(d: Dict<K, V>): (r: seq<K>)
    ensures |r| == |d|
    ensures forall i :: 0 <= i < |d| ==> r[i] == d[i].0
  {
    if d == [] then [] else [d[0].0] + Keys(d[1..])
  }

  function Values<K, V>(d: Dict<K, V>): (r: seq<V>)
    ensures |r| == |d|
    ensures forall i :: 0 <= i < |d| ==> r[i] == d[i].1
  {
    if d == [] then [] else [d[0].1] + Values(d[1..])
  }

  /** No key is stored twice. */
  predicate DistinctKeys<K(==), V>(d: Dict<K, V>) {
    forall i, j :: 0 <= i < j < |d| ==> d[i].0 != d[j].0
  }

  /** No value is stored twice. */
  predicate DistinctValues<K, V(==)>(d: Dict<K, V>) {
    forall i, j :: 0 <= i < j < |d| ==> d[i].1 != d[j].1
  }

  /** The stored values as a set. */
  function ValueSet<K, V(!new)>(d: Dict<K, V>): (r: set<V>)
    ensures forall v :: v in r <==> v in Values(d)
  {
    set v | v in Values(d)
  }

  /** Appending an entry appends its key and its value. */
  lemma AppendEntry<K, V>(d: Dict<K, V>, e: (K, V))
    ensures Keys(d + [e]) == Keys(d) + [e.0]
    ensures Values(d + [e]) == Values(d) + [e.1]
  {
  }

  /** Appending an entry adds its value to the value set. */
  lemma ValueSetAppend<K, V(!new)>(d: Dict<K, V>, e: (K, V))
    ensures ValueSet(d + [e]) == ValueSet(d) + {e.1}
  {
    AppendEntry(d, e);
  }

  /** `d[k] = v`: an existing key keeps its place and takes the new value;
      a new key goes to the end. */
  function Put<K(==), V>(d: Dict<K, V>, k: K, v: V): (r: Dict<K, V>)
    ensures k in Keys(r) && v in Values(r)
    ensures |r| == (if k in Keys(d) then |d| else |d| + 1)
  {
    if d == [] then [(k, v)]
    else if d[0].0 == k then
      [(k, v)] + d[1..]
    else [d[0]] + Put(d[1..], k, v)
  }

  /** `d.get(k)`. */
  function Get<K(==), V>(d: Dict<K, V>, k: K): (r: Option<V>)
    ensures r.Some? <==> k in Keys(d)
  {
    if d == [] then None
    else if d[0].0 == k then Some(d[0].1)
    else Get(d[1..], k)
  }

  /** After `d[k] = v`, `k` reads `v` and every other key reads as
      before. */
  lemma {:induction false} PutGet<K, V>(d: Dict<K, V>, k: K, v: V, j: K)
    ensures Get(Put(d, k, v), j) == if j == k then Some(v) else Get(d, j)
    decreases |d|
  {
    if d != [] && d[0].0 != k {
      PutGet(d[1..], k, v, j);
    }
  }

  /** A new key is appended. */
  lemma {:induction false} PutNew<K, V>(d: Dict<K, V>, k: K, v: V)
    requires k !in Keys(d)
    ensures Put(d, k, v) == d + [(k, v)]
    decreases |d|
  {
    if d != [] {
      assert Keys(d[1..]) == Keys(d)[1..];
      PutNew(d[1..], k, v);
    }
  }

  /** Putting keeps keys distinct, and every entry afterwards was there
      before or is the new one. */
  lemma {:induction false} PutDistinct<K, V>(d: Dict<K, V>, k: K, v: V)
    requires DistinctKeys(d)
    ensures DistinctKeys(Put(d, k, v))
    ensures forall i :: 0 <= i < |Put(d, k, v)| ==> Put(d, k, v)[i] in d || Put(d, k, v)[i] == (k, v)
    decreases |d|
  {
    if d == [] {
    } else if d[0].0 == k {
      var r := [(k, v)] + d[1..];
      forall i | 0 < i < |r|
        ensures r[i] == d[i]
      {
      }
    } else {
      PutDistinct(d[1..], k, v);
      var t := Put(d[1..], k, v);
      var r := [d[0]] + t;
      assert Put(d, k, v) == r;
      forall i | 0 < i < |r|
        ensures r[i].0 != d[0].0
      {
        assert t[i - 1] in d[1..] || t[i - 1] == (k, v);
      }
      forall i | 0 < i < |r|
        ensures r[i] in d || r[i] == (k, v)
      {
        assert t[i - 1] in d[1..] || t[i - 1] == (k, v);
      }
    }
  }
}
