/** Generic sequence operations that stand for the pandas and list idioms
    of the scrapers: keeping the elements that pass a test, mapping with
    failures dropped, and `drop_duplicates` keeping the first occurrence.
 */
module Seqs {
  import opened Wrappers

  /** `[x for x in xs if p(x)]`, and `DataFrame.dropna` / `query` as a row
      filter. */
  function Filter<T>(xs: seq<T>, p: T -> bool): (r: seq<T>)
    ensures |r| <= |xs|
  {
    if xs == [] then [] else (if p(xs[0]) then [xs[0]] else []) + Filter(xs[1..], p)
  }

  /** The filter keeps exactly the elements that pass. */
  lemma {:induction false} FilterMembers<T>(xs: seq<T>, p: T -> bool, x: T)
    ensures x in Filter(xs, p) <==> x in xs && p(x)
    decreases |xs|
  {
    if xs != [] {
      FilterMembers(xs[1..], p, x);
      assert xs == [xs[0]] + xs[1..];
    }
  }

  /** Filtering commutes with concatenation, so relative order is kept. */
  lemma {:induction false} FilterAppend<T>(a: seq<T>, b: seq<T>, p: T -> bool)
    ensures Filter(a + b, p) == Filter(a, p) + Filter(b, p)
    decreases |a|
  {
    if a == [] {
      assert a + b == b;
    } else {
      var head := if p(a[0]) then [a[0]] else [];
      calc {
        Filter(a + b, p);
        { assert (a + b)[0] == a[0]; assert (a + b)[1..] == a[1..] + b; }
        head + Filter(a[1..] + b, p);
        { FilterAppend(a[1..], b, p); }
        head + (Filter(a[1..], p) + Filter(b, p));
        head + Filter(a[1..], p) + Filter(b, p);
      }
    }
  }

  /** Every element passes: the filter is the identity. */
  lemma {:induction false} FilterAll<T>(xs: seq<T>, p: T -> bool)
    requires forall i :: 0 <= i < |xs| ==> p(xs[i])
    ensures Filter(xs, p) == xs
    decreases |xs|
  {
    if xs != [] {
      FilterAll(xs[1..], p);
      assert xs == [xs[0]] + xs[1..];
    }
  }

  /** No element passes: the filter is empty. */
  lemma {:induction false} FilterNone<T>(xs: seq<T>, p: T -> bool)
    requires forall i :: 0 <= i < |xs| ==> !p(xs[i])
    ensures Filter(xs, p) == []
    decreases |xs|
  {
    if xs != [] {
      FilterNone(xs[1..], p);
    }
  }

  /** The head of a non-empty filter is the first element that passes. */
  lemma {:induction false} FilterFirst<T>(xs: seq<T>, p: T -> bool)
    requires Filter(xs, p) != []
    ensures exists i :: (
      && 0 <= i < |xs| && p(xs[i]) && Filter(xs, p)[0] == xs[i]
      && forall j :: 0 <= j < i ==> !p(xs[j]))
    decreases |xs|
  {
    if !p(xs[0]) {
      FilterFirst(xs[1..], p);
      var i :| (
        && 0 <= i < |xs[1..]| && p(xs[1..][i]) && Filter(xs[1..], p)[0] == xs[1..][i]
        && forall j :: 0 <= j < i ==> !p(xs[1..][j]));
      assert xs[i + 1] == xs[1..][i];
      forall j | 0 <= j < i + 1
        ensures !p(xs[j])
      {
        if j > 0 {
          assert xs[j] == xs[1..][j - 1];
        }
      }
    } else {
      assert Filter(xs, p)[0] == xs[0];
    }
  }

  /** Filtering keeps keys distinct: it only drops elements. */
  lemma {:induction false} FilterKeepsDistinct<T, K>(xs: seq<T>, p: T -> bool, key: T -> K)
    requires KeysDistinct(xs, key)
    ensures KeysDistinct(Filter(xs, p), key)
    decreases |xs|
  {
    if xs != [] {
      var t := xs[1..];
      assert KeysDistinct(t, key) by {
        forall i, j | 0 <= i < j < |t| ensures key(t[i]) != key(t[j]) {
          assert t[i] == xs[i + 1] && t[j] == xs[j + 1];
        }
      }
      FilterKeepsDistinct(t, p, key);
      var rest := Filter(t, p);
      forall j | 0 <= j < |rest|
        ensures key(rest[j]) != key(xs[0])
      {
        FilterMembers(t, p, rest[j]);
        var k :| 0 <= k < |t| && t[k] == rest[j];
        assert t[k] == xs[k + 1];
      }
    }
  }

  /** The result of one element, or nothing. */
  function Produced<T, U>(x: T, f: T -> Option<U>): seq<U> {
    if f(x).Some? then [f(x).value] else []
  }

  /** Apply `f` to every element and keep the results that are present,
      in order: a loop whose body `continue`s on failure. */
  function Collect<T, U>(xs: seq<T>, f: T -> Option<U>): (r: seq<U>)
    ensures |r| <= |xs|
  {
    if xs == [] then [] else Produced(xs[0], f) + Collect(xs[1..], f)
  }

  /** A value is collected exactly when some element produces it. */
  lemma {:induction false} CollectMembers<T, U>(xs: seq<T>, f: T -> Option<U>, u: U)
    ensures u in Collect(xs, f) <==> exists i :: 0 <= i < |xs| && f(xs[i]) == Some(u)
    decreases |xs|
  {
    if xs != [] {
      CollectMembers(xs[1..], f, u);
      if f(xs[0]) == Some(u) {
        assert 0 < |xs| && f(xs[0]) == Some(u);
      }
      forall i | 1 <= i < |xs|
        ensures xs[i] == xs[1..][i - 1]
      {
      }
      if exists i :: 0 <= i < |xs[1..]| && f(xs[1..][i]) == Some(u) {
        var i :| 0 <= i < |xs[1..]| && f(xs[1..][i]) == Some(u);
        assert f(xs[i + 1]) == Some(u);
      }
    }
  }

  lemma {:induction false} CollectAppend<T, U>(a: seq<T>, b: seq<T>, f: T -> Option<U>)
    ensures Collect(a + b, f) == Collect(a, f) + Collect(b, f)
    decreases |a|
  {
    if a == [] {
      assert a + b == b;
    } else {
      assert Collect(a + b, f) == Produced(a[0], f) + Collect(a[1..] + b, f) by {
        assert (a + b)[0] == a[0];
        assert (a + b)[1..] == a[1..] + b;
      }
      CollectAppend(a[1..], b, f);
    }
  }

  /** One element gives its result, or nothing. */
  lemma CollectOne<T, U>(x: T, f: T -> Option<U>)
    ensures Collect([x], f) == if f(x).Some? then [f(x).value] else []
  {
    assert Collect([x], f) == Produced(x, f) + Collect([x][1..], f);
  }

  /** When nothing fails, every element gives exactly one result. */
  lemma {:induction false} CollectTotal<T, U>(xs: seq<T>, f: T -> Option<U>)
    requires forall i :: 0 <= i < |xs| ==> f(xs[i]).Some?
    ensures |Collect(xs, f)| == |xs|
    ensures forall i :: 0 <= i < |xs| ==> Collect(xs, f)[i] == f(xs[i]).value
    decreases |xs|
  {
    if xs != [] {
      CollectTotal(xs[1..], f);
    }
  }

  /** `[f(x) for x in xs]`. */
  function Map<T, U>(xs: seq<T>, f: T -> U): (r: seq<U>)
    ensures |r| == |xs|
    ensures forall i :: 0 <= i < |xs| ==> r[i] == f(xs[i])
  {
    seq(|xs|, i requires 0 <= i < |xs| => f(xs[i]))
  }

  /** `enumerate(xs)`. */
  function Enumerate<T>(xs: seq<T>): (r: seq<(nat, T)>)
    ensures |r| == |xs|
    ensures forall i :: 0 <= i < |xs| ==> r[i] == (i, xs[i])
  {
    seq(|xs|, i requires 0 <= i < |xs| => (i, xs[i]))
  }

  /** A loop that appends `f(x)` for every `x` and lets the first exception
      escape. */
  function MapAll<T, U>(xs: seq<T>, f: T -> Result<U>): (r: Result<seq<U>>)
    ensures r.Ok? ==> |r.value| == |xs|
  {
    if xs == [] then Ok([])
    else
      var head :- f(xs[0]);
      var tail :- MapAll(xs[1..], f);
      Ok([head] + tail)
  }

  /** The loop fails exactly when some element fails, with the error of the
      first one; otherwise it holds every result, in order. */
  lemma {:induction false} MapAllSpec<T, U>(xs: seq<T>, f: T -> Result<U>)
    ensures MapAll(xs, f).Ok? <==> forall i :: 0 <= i < |xs| ==> f(xs[i]).Ok?
    ensures MapAll(xs, f).Ok? ==> forall i :: 0 <= i < |xs| ==> MapAll(xs, f).value[i] == f(xs[i]).value
    ensures MapAll(xs, f).Err? ==>
      exists i :: 0 <= i < |xs| && f(xs[i]).Err? && MapAll(xs, f).error == f(xs[i]).error
        && forall j :: 0 <= j < i ==> f(xs[j]).Ok?
    decreases |xs|
  {
    if xs != [] {
      MapAllSpec(xs[1..], f);
      forall i | 1 <= i < |xs|
        ensures xs[i] == xs[1..][i - 1]
      {
      }
      if f(xs[0]).Ok? && MapAll(xs[1..], f).Err? {
        var i :| 0 <= i < |xs[1..]| && f(xs[1..][i]).Err? && MapAll(xs[1..], f).error == f(xs[1..][i]).error
          && forall j :: 0 <= j < i ==> f(xs[1..][j]).Ok?;
        assert f(xs[i + 1]).Err?;
        assert forall j :: 0 <= j < i + 1 ==> f(xs[j]).Ok? by {
          forall j | 0 <= j < i + 1
            ensures f(xs[j]).Ok?
          {
            if j > 0 {
              assert f(xs[1..][j - 1]).Ok?;
            }
          }
        }
      }
    }
  }

  /** No two elements share a key. */
  predicate KeysDistinct<T, K(==)>(xs: seq<T>, key: T -> K) {
    forall i, j :: 0 <= i < j < |xs| ==> key(xs[i]) != key(xs[j])
  }

  /** `xs[i]` is the first element of `xs` with its key. */
  predicate FirstWithKey<T, K(==)>(xs: seq<T>, key: T -> K, i: int) {
    0 <= i < |xs| && forall j :: 0 <= j < i ==> key(xs[j]) != key(xs[i])
  }

  /** `drop_duplicates(subset=key)` with the default `keep="first"`, scanning
      left to right; `seen` holds the keys already kept. */
  function DedupFrom<T, K(==)>(xs: seq<T>, key: T -> K, seen: set<K>): (r: seq<T>)
    ensures |r| <= |xs|
  {
    if xs == [] then []
    else if key(xs[0]) in seen then DedupFrom(xs[1..], key, seen)
    else [xs[0]] + DedupFrom(xs[1..], key, seen + {key(xs[0])})
  }

  function DedupBy<T, K(==)>(xs: seq<T>, key: T -> K): (r: seq<T>)
    ensures |r| <= |xs|
  {
    DedupFrom(xs, key, {})
  }

  /** What the scan keeps: elements of `xs` whose keys were not seen, with
      pairwise distinct keys. */
  lemma {:induction false} DedupFromSound<T, K>(xs: seq<T>, key: T -> K, seen: set<K>)
    ensures forall i :: 0 <= i < |DedupFrom(xs, key, seen)| ==>
      DedupFrom(xs, key, seen)[i] in xs && key(DedupFrom(xs, key, seen)[i]) !in seen
    ensures KeysDistinct(DedupFrom(xs, key, seen), key)
    decreases |xs|
  {
    if xs != [] {
      var t := xs[1..];
      if key(xs[0]) in seen {
        DedupFromSound(t, key, seen);
        forall y | y in t ensures y in xs {
          var k :| 0 <= k < |t| && t[k] == y;
          assert xs[k + 1] == y;
        }
      } else {
        var s2 := seen + {key(xs[0])};
        DedupFromSound(t, key, s2);
        var rest := DedupFrom(t, key, s2);
        forall y | y in t ensures y in xs {
          var k :| 0 <= k < |t| && t[k] == y;
          assert xs[k + 1] == y;
        }
        assert DedupFrom(xs, key, seen) == [xs[0]] + rest;
      }
    }
  }

  /** What the scan does not lose: the first element with each unseen key is
      kept. */
  lemma {:induction false} DedupFromKeepsFirst<T, K>(xs: seq<T>, key: T -> K, seen: set<K>, i: nat)
    requires FirstWithKey(xs, key, i) && key(xs[i]) !in seen
    ensures xs[i] in DedupFrom(xs, key, seen)
    decreases |xs|
  {
    var t := xs[1..];
    if i == 0 {
    } else {
      assert key(xs[0]) != key(xs[i]);
      var s2 := if key(xs[0]) in seen then seen else seen + {key(xs[0])};
      assert FirstWithKey(t, key, i - 1) by {
        forall j | 0 <= j < i - 1 ensures key(t[j]) != key(t[i - 1]) {
          assert t[j] == xs[j + 1];
        }
      }
      DedupFromKeepsFirst(t, key, s2, i - 1);
    }
  }

  /** `drop_duplicates(subset=key)`: keys become pairwise distinct, every
      kept element comes from the input, and the first element with each key
      is the one kept. */
  lemma DedupByProperties<T, K>(xs: seq<T>, key: T -> K)
    ensures KeysDistinct(DedupBy(xs, key), key)
    ensures forall y :: y in DedupBy(xs, key) ==> y in xs
    ensures forall i :: FirstWithKey(xs, key, i) ==> xs[i] in DedupBy(xs, key)
  {
    DedupFromSound(xs, key, {});
    forall i | FirstWithKey(xs, key, i) ensures xs[i] in DedupBy(xs, key) {
      DedupFromKeepsFirst(xs, key, {}, i);
    }
  }

  /** Input whose keys are already distinct passes through unchanged. */
  lemma {:induction false} DedupFromNoop<T, K>(xs: seq<T>, key: T -> K, seen: set<K>)
    requires KeysDistinct(xs, key)
    requires forall i :: 0 <= i < |xs| ==> key(xs[i]) !in seen
    ensures DedupFrom(xs, key, seen) == xs
    decreases |xs|
  {
    if xs != [] {
      var t := xs[1..];
      var s2 := seen + {key(xs[0])};
      forall i | 0 <= i < |t| ensures key(t[i]) !in s2 {
        assert t[i] == xs[i + 1];
      }
      assert KeysDistinct(t, key) by {
        forall i, j | 0 <= i < j < |t| ensures key(t[i]) != key(t[j]) {
          assert t[i] == xs[i + 1] && t[j] == xs[j + 1];
        }
      }
      DedupFromNoop(t, key, s2);
    }
  }

  /** `drop_duplicates` is idempotent. */
  lemma DedupByIdempotent<T, K>(xs: seq<T>, key: T -> K)
    ensures DedupBy(DedupBy(xs, key), key) == DedupBy(xs, key)
  {
    DedupFromSound(xs, key, {});
    DedupFromNoop(DedupBy(xs, key), key, {});
  }

  /** Every element with some key has a first element with that key. */
  lemma {:induction false} FindFirst<T, K>(xs: seq<T>, key: T -> K, i: nat)
    requires i < |xs|
    ensures exists j :: 0 <= j <= i && FirstWithKey(xs, key, j) && key(xs[j]) == key(xs[i])
    decreases i
  {
    if !FirstWithKey(xs, key, i) {
      var j :| 0 <= j < i && key(xs[j]) == key(xs[i]);
      FindFirst(xs, key, j);
    } else {
      assert 0 <= i <= i && FirstWithKey(xs, key, i) && key(xs[i]) == key(xs[i]);
    }
  }

  /** `pd.concat` of frames, or `sum(lists, [])`. */
  function Flatten<T>(xss: seq<seq<T>>): (r: seq<T>)
  {
    if xss == [] then [] else xss[0] + Flatten(xss[1..])
  }

  /** Everything in the concatenation comes from one of the parts, and every
      part is in it. */
  lemma {:induction false} FlattenMembers<T>(xss: seq<seq<T>>, x: T)
    ensures x in Flatten(xss) <==> exists i :: 0 <= i < |xss| && x in xss[i]
    decreases |xss|
  {
    if xss != [] {
      FlattenMembers(xss[1..], x);
      if x in xss[0] {
        assert 0 < |xss| && x in xss[0];
      }
      if exists i :: 0 <= i < |xss[1..]| && x in xss[1..][i] {
        var i :| 0 <= i < |xss[1..]| && x in xss[1..][i];
        assert x in xss[i + 1];
      }
      if exists i :: 0 <= i < |xss| && x in xss[i] {
        var i :| 0 <= i < |xss| && x in xss[i];
        if i > 0 {
          assert x in xss[1..][i - 1];
        }
      }
    }
  }

  /** `order` lists each index below `n` exactly once: the completion order
      of `n` submitted tasks under `as_completed`. */
  predicate IsOrder(order: seq<nat>, n: nat) {
    && |order| == n
    && (forall k :: 0 <= k < n ==> order[k] < n)
    && (forall k, l :: 0 <= k < l < n ==> order[k] != order[l])
  }

  /** Results gathered in completion order. */
  function Reorder<T>(xs: seq<T>, order: seq<nat>): (r: seq<T>)
    requires IsOrder(order, |xs|)
    ensures |r| == |xs|
  {
    seq(|xs|, k requires 0 <= k < |xs| => xs[order[k]])
  }

  /** The indices below `n`. */
  function Below(n: nat): (r: set<nat>)
    ensures |r| == n
    ensures forall m: nat :: m in r <==> m < n
  {
    if n == 0 then {} else Below(n - 1) + {n - 1}
  }

  /** The indices an order takes among its first `c` positions. */
  function Taken(order: seq<nat>, c: nat): set<nat>
    requires c <= |order|
  {
    if c == 0 then {} else Taken(order, c - 1) + {order[c - 1]}
  }

  lemma {:induction false} TakenMembers(order: seq<nat>, c: nat, m: nat)
    requires c <= |order|
    ensures m in Taken(order, c) <==> exists k :: 0 <= k < c && order[k] == m
  {
    if c > 0 {
      TakenMembers(order, c - 1, m);
    }
  }

  lemma {:induction false} TakenSize(order: seq<nat>, n: nat, c: nat)
    requires IsOrder(order, n) && c <= n
    ensures |Taken(order, c)| == c
    ensures Taken(order, c) <= Below(n)
  {
    if c > 0 {
      TakenSize(order, n, c - 1);
      TakenMembers(order, c - 1, order[c - 1]);
      assert order[c - 1] !in Taken(order, c - 1);
    }
  }

  /** Every index appears in a completion order: nothing is lost. */
  lemma OrderCovers(order: seq<nat>, n: nat, i: nat)
    requires IsOrder(order, n) && i < n
    ensures exists k :: 0 <= k < n && order[k] == i
  {
    var image := Taken(order, n);
    var below := Below(n);
    TakenSize(order, n, n);
    SubsetSameSize(image, below);
    assert i in image;
    TakenMembers(order, n, i);
  }

  lemma SubsetSameSize<T>(a: set<T>, b: set<T>)
    requires a <= b && |a| == |b|
    ensures a == b
  {
    assert b == a + (b - a);
    assert a * (b - a) == {};
    assert |b - a| == 0;
  }

  /** Gathering in completion order yields each result exactly once: the
      input at index `i` lands at the position where `order` names `i`, and
      every position holds some input. */
  lemma ReorderFinds<T>(xs: seq<T>, order: seq<nat>, i: nat)
    requires IsOrder(order, |xs|) && i < |xs|
    ensures exists k :: 0 <= k < |xs| && order[k] == i && Reorder(xs, order)[k] == xs[i]
  {
    OrderCovers(order, |xs|, i);
  }
}
