/** index.py: `filter_games`, the table the web page shows for a game. The
    game's price file is looked up through `search_dict.json`, rows without
    a positive price on all three cards are dropped, and the rest are
    sorted ascending by JCB, then 萬事達 (Mastercard), then VISA. The two
    files are parameters.
 */
module Listing {
  import opened Wrappers
  import opened Seqs
  import opened PriceJoin

  /** `JCB > 0 and 萬事達 > 0 and VISA > 0`; a NaN compares false. */
  predicate Positive(r: CardRow) {
    && r.jcb.Some? && r.jcb.value > 0.0
    && r.master.Some? && r.master.value > 0.0
    && r.visa.Some? && r.visa.value > 0.0
  }

  /** The sort key `["JCB", "萬事達", "VISA"]`. Every row that reaches the
      sort is positive, so `0.0` never stands in for a missing value there. */
  function Key(r: CardRow): (real, real, real) {
    (r.jcb.GetOr(0.0), r.master.GetOr(0.0), r.visa.GetOr(0.0))
  }

  /** Ascending lexicographic order on the keys. */
  predicate KeyLe(a: CardRow, b: CardRow) {
    var (x, y) := (Key(a), Key(b));
    x.0 < y.0 || (x.0 == y.0 && (x.1 < y.1 || (x.1 == y.1 && x.2 <= y.2)))
  }

  lemma KeyLeTotal(a: CardRow, b: CardRow)
    ensures KeyLe(a, b) || KeyLe(b, a)
  {
  }

  lemma KeyLeTrans(a: CardRow, b: CardRow, c: CardRow)
    requires KeyLe(a, b) && KeyLe(b, c)
    ensures KeyLe(a, c)
  {
  }

  predicate Sorted(s: seq<CardRow>) {
    forall i, j :: 0 <= i < j < |s| ==> KeyLe(s[i], s[j])
  }

  /** Puts `x` before the first row it does not follow, so that it stays
      ahead of the rows with an equal key. */
  function Insert(x: CardRow, s: seq<CardRow>): (r: seq<CardRow>)
    ensures |r| == |s| + 1
  {
    if s == [] then [x]
    else if KeyLe(x, s[0]) then [x] + s
    else [s[0]] + Insert(x, s[1..])
  }

  /** The rows of `Insert` are those of `s` and `x`. */
  lemma {:induction false} InsertPerm(x: CardRow, s: seq<CardRow>)
    ensures multiset(Insert(x, s)) == multiset(s) + multiset{x}
  {
    if s != [] && !KeyLe(x, s[0]) {
      InsertPerm(x, s[1..]);
      assert s == [s[0]] + s[1..];
    }
  }

  /** Inserting into a sorted sequence keeps it sorted. */
  lemma {:induction false} InsertSorted(x: CardRow, s: seq<CardRow>)
    requires Sorted(s)
    ensures Sorted(Insert(x, s))
  {
    if s == [] {
    } else if KeyLe(x, s[0]) {
      forall j | 0 <= j < |s|
        ensures KeyLe(x, s[j])
      {
        if j > 0 {
          KeyLeTrans(x, s[0], s[j]);
        }
      }
    } else {
      var t := Insert(x, s[1..]);
      InsertSorted(x, s[1..]);
      InsertPerm(x, s[1..]);
      KeyLeTotal(x, s[0]);
      forall j | 0 <= j < |t|
        ensures KeyLe(s[0], t[j])
      {
        assert t[j] in multiset(t);
        if t[j] != x {
          assert t[j] in multiset(s[1..]);
          var k :| 0 <= k < |s[1..]| && s[1..][k] == t[j];
          assert s[k + 1] == t[j];
        }
      }
    }
  }

  /** Insertion sort: the stable ascending sort of `sort_values`. */
  function Sort(s: seq<CardRow>): (r: seq<CardRow>)
    ensures |r| == |s|
  {
    if s == [] then [] else Insert(s[0], Sort(s[1..]))
  }

  /** `Sort` is ascending and a permutation of its input. */
  lemma {:induction false} SortSpec(s: seq<CardRow>)
    ensures Sorted(Sort(s))
    ensures multiset(Sort(s)) == multiset(s)
  {
    if s != [] {
      SortSpec(s[1..]);
      InsertSorted(s[0], Sort(s[1..]));
      InsertPerm(s[0], Sort(s[1..]));
      assert s == [s[0]] + s[1..];
    }
  }

  /** `./data/final_data/{file}.csv`. */
  function PricePath(file: string): string {
    "./data/final_data/" + file + ".csv"
  }

  /** `filter_games`: the `KeyError` of a game missing from the search
      dictionary, or the positive rows of its price file in key order. */
  function FilterGames(searchDict: map<string, string>, selected: string, readCsv: string -> seq<CardRow>): (r: Result<seq<CardRow>>)
    ensures r.Err? <==> selected !in searchDict
    ensures r.Err? ==> r.error == KeyError
    ensures r.Ok? ==> |r.value| <= |readCsv(PricePath(searchDict[selected]))|
  {
    if selected !in searchDict then Err(KeyError)
    else Ok(Sort(Filter(readCsv(PricePath(searchDict[selected])), Positive)))
  }

  /** The table is sorted, every row in it is positive, and it holds each
      positive row of the file exactly as often as the file does. */
  lemma FilterGamesSpec(searchDict: map<string, string>, selected: string, readCsv: string -> seq<CardRow>)
    requires selected in searchDict
    ensures var rows := readCsv(PricePath(searchDict[selected]));
      var shown := FilterGames(searchDict, selected, readCsv).value;
      && Sorted(shown)
      && multiset(shown) == multiset(Filter(rows, Positive))
      && (forall r :: r in shown <==> r in rows && Positive(r))
  {
    var rows := readCsv(PricePath(searchDict[selected]));
    var kept := Filter(rows, Positive);
    SortSpec(kept);
    forall r
      ensures r in Sort(kept) <==> r in rows && Positive(r)
    {
      FilterMembers(rows, Positive, r);
      assert r in Sort(kept) <==> r in multiset(Sort(kept));
      assert r in kept <==> r in multiset(kept);
    }
  }
}
