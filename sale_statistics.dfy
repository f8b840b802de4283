/**
 * The sales statistics: total revenue, total items sold, and the three products and the
 * three buyers that appear in the most sale records. Counting follows a `Counter` built
 * from the sales in list order; ranking follows its `most_common(n)`, which orders by
 * count, highest first, and keeps first-appearance order among equal counts.
 */
module SaleStatistics {
  import opened Wrappers
  import opened SaleModel

  /** How many rankings entries each list holds. */
  const TopCount := 3

  // ---------------------------------------------------------------- sums

  /** The sum of the sales' totals (price times quantity). */
  function Revenue(sales: seq<SaleRec>): int
  {
    if sales == [] then 0 else Revenue(sales[..|sales| - 1]) + RecTotal(sales[|sales| - 1])
  }

  /** The sum of the sales' quantities. */
  function ItemsSold(sales: seq<SaleRec>): int
  {
    if sales == [] then 0 else ItemsSold(sales[..|sales| - 1]) + sales[|sales| - 1].quantity
  }

  /** Revenue adds up over a split of the sales. */
  lemma {:induction false} RevenueAppend(a: seq<SaleRec>, b: seq<SaleRec>)
    ensures Revenue(a + b) == Revenue(a) + Revenue(b)
    decreases |b|
  {
    if b == [] {
      assert a + b == a;
    } else {
      assert (a + b)[..|a + b| - 1] == a + b[..|b| - 1];
      RevenueAppend(a, b[..|b| - 1]);
    }
  }

  /** Items sold add up over a split of the sales. */
  lemma {:induction false} ItemsSoldAppend(a: seq<SaleRec>, b: seq<SaleRec>)
    ensures ItemsSold(a + b) == ItemsSold(a) + ItemsSold(b)
    decreases |b|
  {
    if b == [] {
      assert a + b == a;
    } else {
      assert (a + b)[..|a + b| - 1] == a + b[..|b| - 1];
      ItemsSoldAppend(a, b[..|b| - 1]);
    }
  }

  /** With no negative price or quantity, neither sum is negative. */
  lemma {:induction false} SumsNonNegative(sales: seq<SaleRec>)
    requires forall i :: 0 <= i < |sales| ==> sales[i].price >= 0 && sales[i].quantity >= 0
    ensures Revenue(sales) >= 0 && ItemsSold(sales) >= 0
  {
    if sales != [] {
      SumsNonNegative(sales[..|sales| - 1]);
    }
  }

  // ---------------------------------------------------------------- counting

  /** A key and the number of sale records that name it. */
  datatype Entry = Entry(key: string, count: nat)

  /** How often `k` occurs in `keys`. */
  function Occurrences(keys: seq<string>, k: string): nat
  {
    if keys == [] then 0
    else Occurrences(keys[..|keys| - 1], k) + (if keys[|keys| - 1] == k then 1 else 0)
  }

  /** The distinct keys, each where it first appears. */
  function Dedup(keys: seq<string>): seq<string>
  {
    if keys == [] then []
    else
      var p := keys[..|keys| - 1];
      Dedup(p) + (if keys[|keys| - 1] in p then [] else [keys[|keys| - 1]])
  }

  predicate Distinct(s: seq<string>)
  {
    forall i, j :: 0 <= i < j < |s| ==> s[i] != s[j]
  }

  /** `Dedup` keeps every key once and invents none. */
  lemma {:induction false} DedupSpec(keys: seq<string>)
    ensures Distinct(Dedup(keys))
    ensures forall x :: x in Dedup(keys) <==> x in keys
  {
    if keys != [] {
      var p := keys[..|keys| - 1];
      var last := keys[|keys| - 1];
      DedupSpec(p);
      assert keys == p + [last];
    }
  }

  function KeysOf(t: seq<Entry>): (r: seq<string>)
    ensures |r| == |t| && forall i :: 0 <= i < |t| ==> r[i] == t[i].key
  {
    seq(|t|, i requires 0 <= i < |t| => t[i].key)
  }

  /** The count stored for `k`, or 0 when `k` has no entry. */
  function CountOf(t: seq<Entry>, k: string): nat
  {
    if t == [] then 0 else if t[0].key == k then t[0].count else CountOf(t[1..], k)
  }

  /** Counting one more `k`: its entry goes up by one, or a new entry is added at the end. */
  function Bump(t: seq<Entry>, k: string): seq<Entry>
  {
    if t == [] then [Entry(k, 1)]
    else if t[0].key == k then [Entry(k, t[0].count + 1)] + t[1..]
    else [t[0]] + Bump(t[1..], k)
  }

  /** The counter over `keys`, its entries in first-appearance order. */
  function Tally(keys: seq<string>): seq<Entry>
  {
    if keys == [] then [] else Bump(Tally(keys[..|keys| - 1]), keys[|keys| - 1])
  }

  lemma {:induction false} BumpKeys(t: seq<Entry>, k: string)
    ensures KeysOf(Bump(t, k)) == if k in KeysOf(t) then KeysOf(t) else KeysOf(t) + [k]
  {
    if t != [] {
      BumpKeys(t[1..], k);
      assert KeysOf(t) == [t[0].key] + KeysOf(t[1..]);
      if t[0].key != k {
        assert KeysOf(Bump(t, k)) == [t[0].key] + KeysOf(Bump(t[1..], k));
      }
    }
  }

  lemma {:induction false} BumpCount(t: seq<Entry>, k: string, x: string)
    ensures CountOf(Bump(t, k), x) == CountOf(t, x) + (if x == k then 1 else 0)
  {
    if t != [] && t[0].key != k {
      BumpCount(t[1..], k, x);
      assert Bump(t, k)[1..] == Bump(t[1..], k);
    }
  }

  /** Every entry's count in the counter is positive. */
  lemma {:induction false} BumpPositive(t: seq<Entry>, k: string)
    requires forall i :: 0 <= i < |t| ==> t[i].count > 0
    ensures forall i :: 0 <= i < |Bump(t, k)| ==> Bump(t, k)[i].count > 0
  {
    if t != [] && t[0].key != k {
      BumpPositive(t[1..], k);
      assert Bump(t, k) == [t[0]] + Bump(t[1..], k);
    }
  }

  /** With distinct keys, `CountOf` reads the entry's own count. */
  lemma {:induction false} CountOfEntry(t: seq<Entry>, i: nat)
    requires Distinct(KeysOf(t)) && i < |t|
    ensures CountOf(t, t[i].key) == t[i].count
  {
    if i > 0 {
      assert t[0].key != t[i].key by {
        assert KeysOf(t)[0] == t[0].key && KeysOf(t)[i] == t[i].key;
      }
      assert KeysOf(t[1..]) == KeysOf(t)[1..];
      CountOfEntry(t[1..], i - 1);
    }
  }

  /** The counter lists each distinct key once, in the order of first appearance. */
  lemma {:induction false} TallyKeys(keys: seq<string>)
    ensures KeysOf(Tally(keys)) == Dedup(keys)
  {
    if keys != [] {
      var p := keys[..|keys| - 1];
      TallyKeys(p);
      DedupSpec(p);
      BumpKeys(Tally(p), keys[|keys| - 1]);
    }
  }

  /** The counter's count for any key is how often that key occurs. */
  lemma {:induction false} TallyCounts(keys: seq<string>, x: string)
    ensures CountOf(Tally(keys), x) == Occurrences(keys, x)
  {
    if keys != [] {
      TallyCounts(keys[..|keys| - 1], x);
      BumpCount(Tally(keys[..|keys| - 1]), keys[|keys| - 1], x);
    }
  }

  lemma {:induction false} TallyPositive(keys: seq<string>)
    ensures forall i :: 0 <= i < |Tally(keys)| ==> Tally(keys)[i].count > 0
  {
    if keys != [] {
      TallyPositive(keys[..|keys| - 1]);
      BumpPositive(Tally(keys[..|keys| - 1]), keys[|keys| - 1]);
    }
  }

  /** What the counter holds: every key that occurs, once, with its number of occurrences,
      in first-appearance order, and nothing else. */
  lemma TallySpec(keys: seq<string>)
    ensures var t := Tally(keys);
      KeysOf(t) == Dedup(keys)
      && Distinct(KeysOf(t))
      && (forall x :: x in KeysOf(t) <==> x in keys)
      && (forall i :: 0 <= i < |t| ==> t[i].count == Occurrences(keys, t[i].key) > 0)
  {
    var t := Tally(keys);
    TallyKeys(keys);
    DedupSpec(keys);
    TallyPositive(keys);
    forall i | 0 <= i < |t| ensures t[i].count == Occurrences(keys, t[i].key) {
      CountOfEntry(t, i);
      TallyCounts(keys, t[i].key);
    }
  }

  // ---------------------------------------------------------------- ranking

  /** The position of the first entry with the highest count (see `FirstMaxSpec`). */
  function FirstMax(t: seq<Entry>): (m: nat)
    requires t != []
    ensures m < |t|
  {
    if |t| == 1 then 0
    else
      var m := FirstMax(t[..|t| - 1]);
      if t[|t| - 1].count > t[m].count then |t| - 1 else m
  }

  /** `FirstMax` picks an entry whose count no entry exceeds, and every entry before it has
      a smaller count. */
  lemma {:induction false} FirstMaxSpec(t: seq<Entry>)
    requires t != []
    ensures forall j :: 0 <= j < |t| ==> t[j].count <= t[FirstMax(t)].count
    ensures forall j :: 0 <= j < FirstMax(t) ==> t[j].count < t[FirstMax(t)].count
    decreases |t|
  {
    if |t| > 1 {
      var p := t[..|t| - 1];
      FirstMaxSpec(p);
      assert forall j :: 0 <= j < |p| ==> p[j] == t[j];
    }
  }

  function RemoveAt(t: seq<Entry>, m: nat): seq<Entry>
    requires m < |t|
  {
    t[..m] + t[m + 1..]
  }

  /** `most_common(n)`: the `n` entries with the highest counts, highest first; among
      equal counts the entry that comes first in `t` comes first. */
  function MostCommon(t: seq<Entry>, n: nat): seq<Entry>
    decreases n
  {
    if n == 0 || t == [] then []
    else
      var m := FirstMax(t);
      [t[m]] + MostCommon(RemoveAt(t, m), n - 1)
  }

  /** The entries of `t` with count `c`, in order. */
  function WithCount(t: seq<Entry>, c: nat): seq<Entry>
  {
    if t == [] then []
    else WithCount(t[..|t| - 1], c) + (if t[|t| - 1].count == c then [t[|t| - 1]] else [])
  }

  lemma {:induction false} WithCountAppend(a: seq<Entry>, b: seq<Entry>, c: nat)
    ensures WithCount(a + b, c) == WithCount(a, c) + WithCount(b, c)
    decreases |b|
  {
    if b == [] {
      assert a + b == a;
    } else {
      assert (a + b)[..|a + b| - 1] == a + b[..|b| - 1];
      WithCountAppend(a, b[..|b| - 1], c);
    }
  }

  lemma {:induction false} WithCountNone(t: seq<Entry>, c: nat)
    requires forall j :: 0 <= j < |t| ==> t[j].count != c
    ensures WithCount(t, c) == []
  {
    if t != [] {
      WithCountNone(t[..|t| - 1], c);
    }
  }

  lemma WithCountSingle(e: Entry, c: nat)
    ensures WithCount([e], c) == if e.count == c then [e] else []
  {
    assert [e][..0] == [];
  }

  /** Taking out an entry that comes before every other entry with its count removes it from
      the front of its own count class and leaves every other count class alone. */
  lemma WithCountRemove(t: seq<Entry>, m: nat, c: nat)
    requires m < |t|
    requires forall j :: 0 <= j < m ==> t[j].count != t[m].count
    ensures WithCount(t, c) == (if c == t[m].count then [t[m]] else []) + WithCount(RemoveAt(t, m), c)
  {
    var a, e, b := t[..m], t[m], t[m + 1..];
    assert t == (a + [e]) + b;
    assert RemoveAt(t, m) == a + b;
    WithCountAppend(a + [e], b, c);
    WithCountAppend(a, [e], c);
    WithCountAppend(a, b, c);
    WithCountSingle(e, c);
    if c == e.count {
      WithCountNone(a, c);
    }
  }

  /** The ranking is `n` long, or all of `t` when `t` is shorter. */
  lemma {:induction false} MostCommonLength(t: seq<Entry>, n: nat)
    ensures |MostCommon(t, n)| == if n < |t| then n else |t|
    decreases n
  {
    if n > 0 && t != [] {
      MostCommonLength(RemoveAt(t, FirstMax(t)), n - 1);
    }
  }

  lemma RemoveAtIndex(t: seq<Entry>, m: nat)
    requires m < |t|
    ensures |RemoveAt(t, m)| == |t| - 1
    ensures forall j :: 0 <= j < |t| - 1 ==> RemoveAt(t, m)[j] == t[if j < m then j else j + 1]
  {
  }

  /** A ranking never shows a count above the highest count it ranks from. */
  lemma {:induction false} MostCommonBounded(t: seq<Entry>, n: nat, c: nat)
    requires forall j :: 0 <= j < |t| ==> t[j].count <= c
    ensures forall i :: 0 <= i < |MostCommon(t, n)| ==> MostCommon(t, n)[i].count <= c
    decreases n
  {
    if n > 0 && t != [] {
      var m := FirstMax(t);
      var rest := MostCommon(RemoveAt(t, m), n - 1);
      var r := [t[m]] + rest;
      assert MostCommon(t, n) == r;
      RemoveAtIndex(t, m);
      MostCommonBounded(RemoveAt(t, m), n - 1, c);
      forall i | 0 <= i < |r| ensures r[i].count <= c {
        if i > 0 {
          assert r[i] == rest[i - 1];
        }
      }
    }
  }

  /** Counts never go up along `r`. */
  predicate ByCountDescending(r: seq<Entry>)
  {
    forall i, j :: 0 <= i < j < |r| ==> r[i].count >= r[j].count
  }

  /** The ranking is ordered by count, highest first. */
  lemma {:induction false} MostCommonSorted(t: seq<Entry>, n: nat)
    ensures ByCountDescending(MostCommon(t, n))
    decreases n
  {
    if n > 0 && t != [] {
      var m := FirstMax(t);
      var u := RemoveAt(t, m);
      var rest := MostCommon(u, n - 1);
      assert MostCommon(t, n) == [t[m]] + rest;
      MostCommonSorted(u, n - 1);
      FirstMaxBoundsRest(t, m);
      MostCommonBounded(u, n - 1, t[m].count);
      ConsDescending(t[m], rest);
    } else {
      assert MostCommon(t, n) == [];
    }
  }

  /** What is left after taking out the first maximum has no higher count. */
  lemma FirstMaxBoundsRest(t: seq<Entry>, m: nat)
    requires t != [] && m == FirstMax(t)
    ensures forall j :: 0 <= j < |RemoveAt(t, m)| ==> RemoveAt(t, m)[j].count <= t[m].count
  {
    FirstMaxSpec(t);
    RemoveAtIndex(t, m);
  }

  lemma ConsDescending(x: Entry, rest: seq<Entry>)
    requires ByCountDescending(rest)
    requires forall j :: 0 <= j < |rest| ==> rest[j].count <= x.count
    ensures ByCountDescending([x] + rest)
  {
    var r := [x] + rest;
    forall i, j | 0 <= i < j < |r| ensures r[i].count >= r[j].count {
      assert r[j] == rest[j - 1];
      if i > 0 {
        assert r[i] == rest[i - 1];
      }
    }
  }

  /** No entry left out of the ranking has a higher count than one in it. */
  lemma {:induction false} MostCommonTop(t: seq<Entry>, n: nat, x: Entry)
    requires x in t && x !in MostCommon(t, n)
    ensures forall i :: 0 <= i < |MostCommon(t, n)| ==> x.count <= MostCommon(t, n)[i].count
    decreases n
  {
    if n > 0 && t != [] {
      var m := FirstMax(t);
      var rest := MostCommon(RemoveAt(t, m), n - 1);
      assert MostCommon(t, n) == [t[m]] + rest;
      assert x != t[m];
      FirstMaxSpec(t);
      assert x in RemoveAt(t, m) by {
        var k :| 0 <= k < |t| && t[k] == x;
        if k < m {
          assert RemoveAt(t, m)[k] == x;
        } else {
          assert RemoveAt(t, m)[k - 1] == x;
        }
      }
      MostCommonTop(RemoveAt(t, m), n - 1, x);
    }
  }

  /** Ties go to first appearance: for every count, the ranked entries with that count are
      the first entries of `t` with that count, in the order of `t`. */
  lemma {:induction false} MostCommonTies(t: seq<Entry>, n: nat, c: nat)
    ensures WithCount(MostCommon(t, n), c) <= WithCount(t, c)
    decreases n
  {
    if n == 0 || t == [] {
      assert MostCommon(t, n) == [];
    } else {
      var m := FirstMax(t);
      var rest := MostCommon(RemoveAt(t, m), n - 1);
      MostCommonTies(RemoveAt(t, m), n - 1, c);
      FirstMaxSpec(t);
      WithCountRemove(t, m, c);
      WithCountAppend([t[m]], rest, c);
      assert WithCount([t[m]], c) == if c == t[m].count then [t[m]] else [] by {
        assert [t[m]][..0] == [];
      }
    }
  }

  // ---------------------------------------------------------------- the report

  function Products(sales: seq<SaleRec>): (r: seq<string>)
    ensures |r| == |sales| && forall i :: 0 <= i < |sales| ==> r[i] == sales[i].product
  {
    seq(|sales|, i requires 0 <= i < |sales| => sales[i].product)
  }

  function Buyers(sales: seq<SaleRec>): (r: seq<string>)
    ensures |r| == |sales| && forall i :: 0 <= i < |sales| ==> r[i] == sales[i].username
  {
    seq(|sales|, i requires 0 <= i < |sales| => sales[i].username)
  }

  /** The top `n` keys by number of occurrences. */
  function Ranking(keys: seq<string>, n: nat): seq<Entry>
  {
    MostCommon(Tally(keys), n)
  }

  datatype Report = Report(revenue: int, itemsSold: int, topProducts: seq<Entry>,
                           topBuyers: seq<Entry>)

  /** No report for no sales; otherwise both sums and both top-three rankings. */
  function Statistics(sales: seq<SaleRec>): (r: Option<Report>)
    ensures r.None? <==> sales == []
  {
    if sales == [] then None
    else Some(Report(Revenue(sales), ItemsSold(sales), Ranking(Products(sales), TopCount),
                     Ranking(Buyers(sales), TopCount)))
  }

  /** Every ranked entry is an entry of the list it ranks. */
  lemma {:induction false} MostCommonIn(t: seq<Entry>, n: nat, i: nat)
    requires i < |MostCommon(t, n)|
    ensures exists k :: 0 <= k < |t| && t[k] == MostCommon(t, n)[i]
    decreases n
  {
    var m := FirstMax(t);
    var u := RemoveAt(t, m);
    var rest := MostCommon(u, n - 1);
    assert MostCommon(t, n) == [t[m]] + rest;
    if i > 0 {
      MostCommonIn(u, n - 1, i - 1);
      var k :| 0 <= k < |u| && u[k] == rest[i - 1];
      RemoveAtIndex(t, m);
      assert t[if k < m then k else k + 1] == MostCommon(t, n)[i];
    }
  }

  /** Taking an entry out of a list with distinct keys keeps the keys distinct, and the
      entry's key is then absent. */
  lemma RemoveAtDistinct(t: seq<Entry>, m: nat)
    requires m < |t| && Distinct(KeysOf(t))
    ensures Distinct(KeysOf(RemoveAt(t, m)))
    ensures forall j :: 0 <= j < |RemoveAt(t, m)| ==> RemoveAt(t, m)[j].key != t[m].key
  {
    var u := RemoveAt(t, m);
    RemoveAtIndex(t, m);
    forall i, j | 0 <= i < j < |u| ensures KeysOf(u)[i] != KeysOf(u)[j] {
      assert KeysOf(t)[if i < m then i else i + 1] != KeysOf(t)[if j < m then j else j + 1];
    }
    forall j | 0 <= j < |u| ensures u[j].key != t[m].key {
      assert KeysOf(t)[if j < m then j else j + 1] != KeysOf(t)[m];
    }
  }

  /** A key absent from a list is absent from its ranking. */
  lemma MostCommonAvoids(u: seq<Entry>, n: nat, key: string)
    requires forall j :: 0 <= j < |u| ==> u[j].key != key
    ensures forall j :: 0 <= j < |MostCommon(u, n)| ==> MostCommon(u, n)[j].key != key
  {
    forall j | 0 <= j < |MostCommon(u, n)| ensures MostCommon(u, n)[j].key != key {
      MostCommonIn(u, n, j);
    }
  }

  lemma ConsDistinct(x: Entry, rest: seq<Entry>)
    requires Distinct(KeysOf(rest))
    requires forall j :: 0 <= j < |rest| ==> rest[j].key != x.key
    ensures Distinct(KeysOf([x] + rest))
  {
    var r := [x] + rest;
    forall i, j | 0 <= i < j < |r| ensures KeysOf(r)[i] != KeysOf(r)[j] {
      assert r[j] == rest[j - 1];
      if i > 0 {
        assert KeysOf(rest)[i - 1] != KeysOf(rest)[j - 1];
      }
    }
  }

  /** Ranking a list with distinct keys gives a list with distinct keys. */
  lemma {:induction false} MostCommonKeysDistinct(t: seq<Entry>, n: nat)
    requires Distinct(KeysOf(t))
    ensures Distinct(KeysOf(MostCommon(t, n)))
    decreases n
  {
    if n > 0 && t != [] {
      var m := FirstMax(t);
      var u := RemoveAt(t, m);
      var rest := MostCommon(u, n - 1);
      assert MostCommon(t, n) == [t[m]] + rest;
      RemoveAtDistinct(t, m);
      MostCommonKeysDistinct(u, n - 1);
      MostCommonAvoids(u, n - 1, t[m].key);
      ConsDistinct(t[m], rest);
    } else {
      assert MostCommon(t, n) == [];
    }
  }

  /** A ranking of keys is as long as asked for, or lists every distinct key when there are
      fewer, and each ranked entry is a key that occurs with its number of occurrences. */
  lemma RankingCounts(keys: seq<string>, n: nat)
    ensures var r := Ranking(keys, n);
      |r| == (if n < |Dedup(keys)| then n else |Dedup(keys)|)
      && forall i :: 0 <= i < |r| ==> r[i].key in keys && r[i].count == Occurrences(keys, r[i].key)
  {
    var t := Tally(keys);
    var r := MostCommon(t, n);
    TallySpec(keys);
    MostCommonLength(t, n);
    forall i | 0 <= i < |r| ensures r[i].key in keys && r[i].count == Occurrences(keys, r[i].key) {
      MostCommonIn(t, n, i);
      var k :| 0 <= k < |t| && t[k] == r[i];
      assert KeysOf(t)[k] == r[i].key;
    }
  }

  /** No key is ranked twice. */
  lemma RankingDistinct(keys: seq<string>, n: nat)
    ensures Distinct(KeysOf(Ranking(keys, n)))
  {
    TallySpec(keys);
    MostCommonKeysDistinct(Tally(keys), n);
  }

  /** A ranking of keys is ordered by count, highest first, and no key left out of it
      occurs more often than a ranked one. */
  lemma RankingOrder(keys: seq<string>, n: nat)
    ensures var r := Ranking(keys, n);
      ByCountDescending(r)
      && (forall x, i :: x in keys && x !in KeysOf(r) && 0 <= i < |r| ==>
            Occurrences(keys, x) <= r[i].count)
  {
    var t := Tally(keys);
    var r := MostCommon(t, n);
    assert Ranking(keys, n) == r;
    TallySpec(keys);
    MostCommonSorted(t, n);
    forall x, i | x in keys && x !in KeysOf(r) && 0 <= i < |r|
      ensures Occurrences(keys, x) <= r[i].count
    {
      assert x in KeysOf(t);
      var k :| 0 <= k < |t| && KeysOf(t)[k] == x;
      assert t[k] !in r by {
        forall q | 0 <= q < |r| ensures r[q] != t[k] {
          assert KeysOf(r)[q] == r[q].key;
        }
      }
      MostCommonTop(t, n, t[k]);
    }
  }

  /** The three sales of the worked example below. */
  function ExampleSales(): seq<SaleRec>
  {
    [SaleRec(1, "userX", "productA", 2, 10, 2),
     SaleRec(2, "userY", "productA", 1, 10, 2),
     SaleRec(3, "userX", "productB", 1, 5, 2)]
  }

  lemma ExampleSums()
    ensures Revenue(ExampleSales()) == 35 && ItemsSold(ExampleSales()) == 4
  {
    var sales := ExampleSales();
    assert sales[..2][..1] == sales[..1] && sales[..1][..0] == [];
    assert Revenue(sales[..1]) == 20 && ItemsSold(sales[..1]) == 2;
    assert Revenue(sales[..2]) == 30 && ItemsSold(sales[..2]) == 3;
  }

  lemma ExampleProducts()
    ensures Ranking(Products(ExampleSales()), TopCount)
            == [Entry("productA", 2), Entry("productB", 1)]
  {
    var a, b, c := Entry("productA", 1), Entry("productA", 2), Entry("productB", 1);
    var ps := Products(ExampleSales());
    assert ps == ["productA", "productA", "productB"];
    assert ps[..2] == ["productA", "productA"] && ps[..2][..1] == ["productA"];
    assert Tally(["productA"]) == [a] by { assert ["productA"][..0] == []; }
    assert Tally(ps[..2]) == [b] by { assert [a][1..] == []; }
    assert "productB" != "productA" by { assert "productB"[7] != "productA"[7]; }
    assert Bump([b], "productB") == [b] + Bump([], "productB") by { assert [b][1..] == []; }
    var t := [b, c];
    assert Tally(ps) == t;
    assert FirstMax(t) == 0;
    assert RemoveAt(t, 0) == [c];
    assert RemoveAt([c], 0) == [];
    assert MostCommon([c], 2) == [c];
  }

  lemma ExampleBuyerTally()
    ensures Tally(Buyers(ExampleSales())) == [Entry("userX", 2), Entry("userY", 1)]
  {
    var x, y := Entry("userX", 1), Entry("userY", 1);
    var bs := Buyers(ExampleSales());
    assert bs == ["userX", "userY", "userX"];
    assert bs[..2] == ["userX", "userY"] && bs[..2][..1] == ["userX"];
    assert Tally(["userX"]) == [x] by { assert ["userX"][..0] == []; }
    assert "userY" != "userX" by { assert "userY"[4] != "userX"[4]; }
    assert Tally(bs[..2]) == [x, y] by {
      assert Bump([x], "userY") == [x] + Bump([], "userY") by { assert [x][1..] == []; }
    }
    assert Bump([x, y], "userX") == [Entry("userX", 2), y] by { assert [x, y][1..] == [y]; }
  }

  lemma ExampleBuyers()
    ensures Ranking(Buyers(ExampleSales()), TopCount) == [Entry("userX", 2), Entry("userY", 1)]
  {
    var y := Entry("userY", 1);
    var t := [Entry("userX", 2), y];
    ExampleBuyerTally();
    assert FirstMax(t) == 0;
    assert RemoveAt(t, 0) == [y];
    assert RemoveAt([y], 0) == [];
    assert MostCommon([y], 2) == [y];
  }

  /** Three sales, two of product A (quantities 2 and 1, price 10) and one of product B
      (quantity 1, price 5), bought twice by X and once by Y: revenue 35, four items, and
      both rankings list the twice-named key before the once-named one. */
  lemma StatisticsExample()
    ensures Statistics(ExampleSales())
            == Some(Report(35, 4, [Entry("productA", 2), Entry("productB", 1)],
                           [Entry("userX", 2), Entry("userY", 1)]))
  {
    ExampleSums();
    ExampleProducts();
    ExampleBuyers();
  }
}
