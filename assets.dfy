/**
 * The per-provider asset table of `ProviderSection` (src/App.tsx:281,
 * 314-317, 327-328): a JavaScript `Map` from ticker to the latest asset
 * received for it, and the snapshot rendered from it, sorted by ticker.
 */
module Assets {
  import opened Wrappers
  import Lexicographic

  datatype Cost = Cost(low: real, high: real, currency: string)

  /** One inbound record (the `Asset` type); the ticker is its key. */
  datatype Asset = Asset(time: string, name: string, ticker: string, cost: Cost)

  /** Every entry is stored under its own ticker. */
  ghost predicate KeyedByTicker(m: map<string, Asset>) {
    forall t :: t in m ==> m[t].ticker == t
  }

  /**
   * `Map.prototype.set(asset.ticker, asset)` on the table's contents: the
   * latest value wins, no key is removed and at most one key is added.
   */
  function Upserted(m: map<string, Asset>, asset: Asset): (r: map<string, Asset>)
    ensures asset.ticker in r && r[asset.ticker] == asset
    ensures r.Keys == m.Keys + {asset.ticker}
    ensures forall t :: t in m && t != asset.ticker ==> r[t] == m[t]
    ensures |r| == if asset.ticker in m then |m| else |m| + 1
    ensures KeyedByTicker(m) ==> KeyedByTicker(r)
  {
    m[asset.ticker := asset]
  }

  /** Upserting the same asset twice leaves the table as upserting it once. */
  lemma UpsertIdempotent(m: map<string, Asset>, asset: Asset)
    ensures Upserted(Upserted(m, asset), asset) == Upserted(m, asset)
  {
  }

  /** The table after a stream of inbound assets, applied in arrival order. */
  function ApplyAll(m: map<string, Asset>, stream: seq<Asset>): (r: map<string, Asset>)
    ensures m.Keys <= r.Keys
    ensures forall i :: 0 <= i < |stream| ==> stream[i].ticker in r
    ensures KeyedByTicker(m) ==> KeyedByTicker(r)
    decreases |stream|
  {
    if stream == [] then m else ApplyAll(Upserted(m, stream[0]), stream[1..])
  }

  /** The last asset of the stream carrying `ticker`, if any. */
  function Latest(stream: seq<Asset>, ticker: string): (r: Option<Asset>)
    ensures r.None? <==> forall a :: a in stream ==> a.ticker != ticker
    ensures r.Some? ==> r.value.ticker == ticker
    ensures r.Some? ==> exists i :: 0 <= i < |stream| && stream[i] == r.value
                          && forall j :: i < j < |stream| ==> stream[j].ticker != ticker
  {
    if stream == [] then None
    else if stream[|stream| - 1].ticker == ticker then Some(stream[|stream| - 1])
    else
      var init := stream[..|stream| - 1];
      assert stream == init + [stream[|stream| - 1]];
      Latest(init, ticker)
  }

  lemma {:induction false} ApplyAllSnoc(m: map<string, Asset>, stream: seq<Asset>, asset: Asset)
    ensures ApplyAll(m, stream + [asset]) == Upserted(ApplyAll(m, stream), asset)
    decreases |stream|
  {
    if stream == [] {
      assert ([] + [asset])[1..] == [];
    } else {
      assert (stream + [asset])[1..] == stream[1..] + [asset];
      ApplyAllSnoc(Upserted(m, stream[0]), stream[1..], asset);
    }
  }

  /**
   * Key uniqueness with latest-value-wins over any stream: a ticker is in the
   * table exactly when it was there before or arrived in the stream, and it
   * holds the most recent asset that arrived for it.
   */
  lemma {:induction false} ApplyAllHoldsLatest(m: map<string, Asset>, stream: seq<Asset>, ticker: string)
    ensures ticker in ApplyAll(m, stream) <==> ticker in m || Latest(stream, ticker).Some?
    ensures Latest(stream, ticker).Some? ==> ApplyAll(m, stream)[ticker] == Latest(stream, ticker).value
    ensures Latest(stream, ticker).None? && ticker in m ==> ApplyAll(m, stream)[ticker] == m[ticker]
    decreases |stream|
  {
    if stream != [] {
      var init := stream[..|stream| - 1];
      var last := stream[|stream| - 1];
      assert stream == init + [last];
      ApplyAllSnoc(m, init, last);
      ApplyAllHoldsLatest(m, init, ticker);
    }
  }

  /** The table never holds more entries than it started with plus the tickers that arrived. */
  lemma {:induction false} ApplyAllSize(m: map<string, Asset>, stream: seq<Asset>)
    ensures |ApplyAll(m, stream)| <= |m| + |stream|
    decreases |stream|
  {
    if stream != [] {
      ApplyAllSize(Upserted(m, stream[0]), stream[1..]);
    }
  }

  /** Sorted by ticker, ties allowed. */
  predicate Sorted(s: seq<Asset>) {
    forall i, j :: 0 <= i < j < |s| ==> Lexicographic.LessOrEqual(s[i].ticker, s[j].ticker)
  }

  /** Sorted by ticker with no ticker twice: exactly one entry per ticker. */
  predicate StrictlySorted(s: seq<Asset>) {
    forall i, j :: 0 <= i < j < |s| ==> Lexicographic.Less(s[i].ticker, s[j].ticker)
  }

  predicate DistinctTickers(s: seq<Asset>) {
    forall i, j :: 0 <= i < j < |s| ==> s[i].ticker != s[j].ticker
  }

  /** Inserts `x` before the first entry whose ticker does not sort before it. */
  function Insert(x: Asset, s: seq<Asset>): (r: seq<Asset>)
    ensures multiset(r) == multiset(s) + multiset{x}
  {
    if s == [] || Lexicographic.LessOrEqual(x.ticker, s[0].ticker) then
      [x] + s
    else
      assert s == [s[0]] + s[1..];
      [s[0]] + Insert(x, s[1..])
  }

  lemma InsertedFrom(x: Asset, s: seq<Asset>, y: Asset)
    requires y in Insert(x, s)
    ensures y == x || y in s
  {
    assert y in multiset(Insert(x, s));
  }

  lemma {:induction false} InsertSorted(x: Asset, s: seq<Asset>)
    requires Sorted(s)
    ensures Sorted(Insert(x, s))
  {
    var r := Insert(x, s);
    if s == [] || Lexicographic.LessOrEqual(x.ticker, s[0].ticker) {
      forall i, j | 0 <= i < j < |r|
        ensures Lexicographic.LessOrEqual(r[i].ticker, r[j].ticker)
      {
        if i == 0 && j > 1 {
          Lexicographic.LessOrEqualTransitive(x.ticker, s[0].ticker, s[j - 1].ticker);
        }
      }
    } else {
      InsertSorted(x, s[1..]);
      Lexicographic.Total(x.ticker, s[0].ticker);
      var rest := Insert(x, s[1..]);
      assert r == [s[0]] + rest;
      forall j | 0 <= j < |rest| ensures Lexicographic.LessOrEqual(s[0].ticker, rest[j].ticker) {
        InsertedFrom(x, s[1..], rest[j]);
      }
    }
  }

  lemma {:induction false} InsertDistinct(x: Asset, s: seq<Asset>)
    requires DistinctTickers(s)
    requires forall y :: y in s ==> y.ticker != x.ticker
    ensures DistinctTickers(Insert(x, s))
  {
    if !(s == [] || Lexicographic.LessOrEqual(x.ticker, s[0].ticker)) {
      InsertDistinct(x, s[1..]);
      var rest := Insert(x, s[1..]);
      forall j | 0 <= j < |rest| ensures rest[j].ticker != s[0].ticker {
        InsertedFrom(x, s[1..], rest[j]);
      }
    }
  }

  /** Insertion sort by ticker: the model of `sort((a, b) => a.ticker.localeCompare(b.ticker))`. */
  function SortByTicker(s: seq<Asset>): (r: seq<Asset>)
    ensures multiset(r) == multiset(s)
  {
    if s == [] then []
    else
      assert s == [s[0]] + s[1..];
      Insert(s[0], SortByTicker(s[1..]))
  }

  /** The sort's result is ordered by ticker. */
  lemma {:induction false} SortByTickerSorted(s: seq<Asset>)
    ensures Sorted(SortByTicker(s))
  {
    if s != [] {
      SortByTickerSorted(s[1..]);
      InsertSorted(s[0], SortByTicker(s[1..]));
    }
  }

  /** Sorting input whose tickers are distinct keeps them distinct. */
  lemma {:induction false} SortByTickerDistinct(s: seq<Asset>)
    requires DistinctTickers(s)
    ensures DistinctTickers(SortByTicker(s))
  {
    if s != [] {
      var rest := SortByTicker(s[1..]);
      SortByTickerDistinct(s[1..]);
      forall y | y in rest ensures y.ticker != s[0].ticker {
        assert y in multiset(rest);
        assert y in s[1..];
      }
      InsertDistinct(s[0], rest);
    }
  }

  lemma StrictWhenDistinct(s: seq<Asset>)
    requires Sorted(s) && DistinctTickers(s)
    ensures StrictlySorted(s)
  {
  }

  /**
   * Two strictly sorted listings of the same assets are the same sequence:
   * the rendered order is fixed by the tickers alone.
   */
  lemma {:induction false} StrictlySortedUnique(a: seq<Asset>, b: seq<Asset>)
    requires StrictlySorted(a) && StrictlySorted(b)
    requires forall x :: x in a <==> x in b
    ensures a == b
  {
    if a != [] {
      assert a[0] in a;
    }
    if b != [] {
      assert b[0] in b;
    }
    if a != [] {
      if a[0] != b[0] {
        var i :| 0 <= i < |a| && a[i] == b[0];
        var j :| 0 <= j < |b| && b[j] == a[0];
        Lexicographic.Asymmetric(a[0].ticker, a[i].ticker);
      }
      forall x ensures x in a[1..] <==> x in b[1..] {
        if x in a[1..] {
          var i :| 1 <= i < |a| && a[i] == x;
          assert x in a;
          var j :| 0 <= j < |b| && b[j] == x;
          if j == 0 {
            Lexicographic.Irreflexive(x.ticker);
          }
        }
        if x in b[1..] {
          var j :| 1 <= j < |b| && b[j] == x;
          assert x in b;
          var i :| 0 <= i < |a| && a[i] == x;
          if i == 0 {
            Lexicographic.Irreflexive(x.ticker);
          }
        }
      }
      StrictlySortedUnique(a[1..], b[1..]);
      assert a == [a[0]] + a[1..] && b == [b[0]] + b[1..];
    }
  }

  ghost predicate Distinct(keys: seq<string>) {
    forall i, j :: 0 <= i < j < |keys| ==> keys[i] != keys[j]
  }

  /** The table's values listed in the order of `keys` (`Array.from(map.values())`). */
  function ValuesInOrder(m: map<string, Asset>, keys: seq<string>): (r: seq<Asset>)
    requires forall i :: 0 <= i < |keys| ==> keys[i] in m
    ensures |r| == |keys|
    ensures forall i :: 0 <= i < |keys| ==> r[i] == m[keys[i]]
  {
    if keys == [] then [] else [m[keys[0]]] + ValuesInOrder(m, keys[1..])
  }

  /**
   * `snapshot` lists the table `m`: sorted ascending by ticker with no ticker
   * twice, every entry is the table's value for its ticker, and every ticker
   * of the table appears.
   */
  ghost predicate Lists(snapshot: seq<Asset>, m: map<string, Asset>) {
    && StrictlySorted(snapshot)
    && (forall a :: a in snapshot ==> a.ticker in m && m[a.ticker] == a)
    && (forall t :: t in m ==> exists i :: 0 <= i < |snapshot| && snapshot[i].ticker == t)
  }

  /** A table has only one listing. */
  lemma ListingUnique(m: map<string, Asset>, s1: seq<Asset>, s2: seq<Asset>)
    requires Lists(s1, m) && Lists(s2, m)
    ensures s1 == s2
  {
    forall x ensures x in s1 <==> x in s2 {
      if x in s1 {
        var i :| 0 <= i < |s2| && s2[i].ticker == x.ticker;
      }
      if x in s2 {
        var i :| 0 <= i < |s1| && s1[i].ticker == x.ticker;
      }
    }
    StrictlySortedUnique(s1, s2);
  }

  lemma ValuesDistinct(m: map<string, Asset>, keys: seq<string>)
    requires KeyedByTicker(m) && Distinct(keys)
    requires forall i :: 0 <= i < |keys| ==> keys[i] in m
    ensures DistinctTickers(ValuesInOrder(m, keys))
  {
    var values := ValuesInOrder(m, keys);
    forall i, j | 0 <= i < j < |values| ensures values[i].ticker != values[j].ticker {
      assert values[i].ticker == keys[i] && values[j].ticker == keys[j];
    }
  }

  /** Every entry of the sorted values is the table's value for its ticker. */
  lemma SortedValuesFromTable(m: map<string, Asset>, keys: seq<string>, a: Asset)
    requires KeyedByTicker(m)
    requires forall i :: 0 <= i < |keys| ==> keys[i] in m
    requires a in SortByTicker(ValuesInOrder(m, keys))
    ensures a.ticker in m && m[a.ticker] == a
  {
    assert a in multiset(SortByTicker(ValuesInOrder(m, keys)));
    assert a in ValuesInOrder(m, keys);
  }

  /** Every ticker of the table appears among the sorted values. */
  lemma SortedValuesCover(m: map<string, Asset>, keys: seq<string>, t: string)
    requires KeyedByTicker(m)
    requires forall t :: t in m <==> t in keys
    requires t in m
    ensures exists i :: 0 <= i < |SortByTicker(ValuesInOrder(m, keys))| && SortByTicker(ValuesInOrder(m, keys))[i].ticker == t
  {
    var values := ValuesInOrder(m, keys);
    var k :| 0 <= k < |keys| && keys[k] == t;
    assert values[k] in multiset(SortByTicker(values));
    assert values[k] in SortByTicker(values);
  }

  /** Sorting the table's values, for any valid insertion order of its keys, lists the table. */
  lemma SnapshotContents(m: map<string, Asset>, keys: seq<string>)
    requires KeyedByTicker(m) && Distinct(keys)
    requires forall t :: t in m <==> t in keys
    ensures Lists(SortByTicker(ValuesInOrder(m, keys)), m)
  {
    var values := ValuesInOrder(m, keys);
    var snapshot := SortByTicker(values);
    ValuesDistinct(m, keys);
    SortByTickerSorted(values);
    SortByTickerDistinct(values);
    StrictWhenDistinct(snapshot);
    forall a | a in snapshot ensures a.ticker in m && m[a.ticker] == a {
      SortedValuesFromTable(m, keys, a);
    }
    forall t | t in m ensures exists i :: 0 <= i < |snapshot| && snapshot[i].ticker == t {
      SortedValuesCover(m, keys, t);
    }
  }

  /**
   * The JavaScript `Map` in a `useRef`: its entries, and its keys in
   * insertion order, which is the order `values()` iterates in.
   */
  class AssetStore {
    var assets: map<string, Asset>
    var order: seq<string>

    ghost predicate Valid()
      reads this
    {
      && KeyedByTicker(assets)
      && Distinct(order)
      && (forall t :: t in assets <==> t in order)
    }

    constructor ()
      ensures Valid() && assets == map[] && order == []
    {
      assets := map[];
      order := [];
    }

    /**
     * `assets.current.set(asset.ticker, asset)`: a new ticker goes to the end
     * of the iteration order, an existing one keeps its place.
     */
    method Upsert(asset: Asset)
      requires Valid()
      modifies this
      ensures Valid()
      ensures assets == Upserted(old(assets), asset)
      ensures order == if asset.ticker in old(assets) then old(order) else old(order) + [asset.ticker]
      ensures old(asset.ticker in assets && assets[asset.ticker] == asset) ==> assets == old(assets) && order == old(order)
    {
      if asset.ticker !in assets {
        order := order + [asset.ticker];
      }
      assets := assets[asset.ticker := asset];
    }

    /**
     * The render-time block: when the socket has delivered a message (the
     * library's `lastJsonMessage` is not null) it is stored. Rendering again
     * with the same last message changes nothing.
     */
    method Receive(lastJsonMessage: Option<Asset>)
      requires Valid()
      modifies this
      ensures Valid()
      ensures lastJsonMessage.None? ==> assets == old(assets) && order == old(order)
      ensures lastJsonMessage.Some? ==> assets == Upserted(old(assets), lastJsonMessage.value)
      ensures lastJsonMessage.Some? ==>
                order == if lastJsonMessage.value.ticker in old(assets) then old(order) else old(order) + [lastJsonMessage.value.ticker]
      ensures (lastJsonMessage.Some? && old(lastJsonMessage.value.ticker in assets && assets[lastJsonMessage.value.ticker] == lastJsonMessage.value))
                ==> assets == old(assets) && order == old(order)
    {
      if lastJsonMessage.Some? {
        Upsert(lastJsonMessage.value);
      }
    }

    /** `Array.from(assets.current.values())`. */
    function Values(): (values: seq<Asset>)
      reads this
      requires Valid()
      ensures |values| == |order|
      ensures forall i :: 0 <= i < |order| ==> values[i] == assets[order[i]]
      ensures DistinctTickers(values)
    {
      ValuesInOrder(assets, order)
    }

    /**
     * The rendered list: a permutation of the table's values, sorted
     * ascending by ticker, with exactly one entry for every ticker stored.
     */
    function SortedSnapshot(): (snapshot: seq<Asset>)
      reads this
      requires Valid()
      ensures multiset(snapshot) == multiset(Values())
      ensures StrictlySorted(snapshot)
      ensures forall a :: a in snapshot ==> a.ticker in assets && assets[a.ticker] == a
      ensures forall t :: t in assets ==> exists i :: 0 <= i < |snapshot| && snapshot[i].ticker == t
    {
      SnapshotContents(assets, order);
      SortByTicker(Values())
    }
  }

  /**
   * The snapshot does not depend on the order tickers first arrived in: any
   * two insertion orders of the same table sort to the same list.
   */
  lemma SnapshotIgnoresArrivalOrder(m: map<string, Asset>, keys1: seq<string>, keys2: seq<string>)
    requires KeyedByTicker(m)
    requires Distinct(keys1) && Distinct(keys2)
    requires forall t :: t in m <==> t in keys1
    requires forall t :: t in m <==> t in keys2
    ensures SortByTicker(ValuesInOrder(m, keys1)) == SortByTicker(ValuesInOrder(m, keys2))
  {
    SnapshotContents(m, keys1);
    SnapshotContents(m, keys2);
    ListingUnique(m, SortByTicker(ValuesInOrder(m, keys1)), SortByTicker(ValuesInOrder(m, keys2)));
  }
}
