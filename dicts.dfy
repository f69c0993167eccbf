/** Python dictionaries with string keys, as association lists in insertion order (the order a
    Python 3.7+ `dict` iterates in), and the `defaultdict(list)` grouping built on them. */
module Dicts {
  import opened Wrappers

  type Dict<V> = seq<(string, V)>

  function Keys<V>(d: Dict<V>): seq<string>
  {
    seq(|d|, i requires 0 <= i < |d| => d[i].0)
  }

  predicate DistinctKeys<V>(d: Dict<V>)
  {
    forall i, j :: 0 <= i < j < |d| ==> d[i].0 != d[j].0
  }

  /** Position of the first entry with key `k`. */
  function IndexOf<V>(d: Dict<V>, k: string): (i: nat)
    requires k in Keys(d)
    ensures i < |d| && d[i].0 == k
    ensures forall j :: 0 <= j < i ==> d[j].0 != k
  {
    if d[0].0 == k then 0
    else
      assert Keys(d) == [d[0].0] + Keys(d[1..]);
      1 + IndexOf(d[1..], k)
  }

  /** The first position holding `k` is determined by the keys before it. */
  lemma IndexOfAt<V>(d: Dict<V>, k: string, i: nat)
    requires i < |d| && d[i].0 == k && forall j :: 0 <= j < i ==> d[j].0 != k
    ensures k in Keys(d) && IndexOf(d, k) == i
  {
    assert Keys(d)[i] == k;
  }

  /** `d.get(k)`. */
  function Get<V>(d: Dict<V>, k: string): (r: Option<V>)
    ensures r.Some? <==> k in Keys(d)
  {
    if k in Keys(d) then Some(d[IndexOf(d, k)].1) else None
  }

  /** With distinct keys, the entry at position `i` is the one `Get` finds. */
  lemma GetAt<V>(d: Dict<V>, i: nat)
    requires DistinctKeys(d) && i < |d|
    ensures Get(d, d[i].0) == Some(d[i].1)
  {
    IndexOfAt(d, d[i].0, i);
  }

  /** `d[k] = v`: an existing key keeps its place and takes the new value, a new key goes last. */
  function Put<V>(d: Dict<V>, k: string, v: V): (r: Dict<V>)
    ensures Get(r, k) == Some(v)
    ensures forall k' :: k' != k ==> Get(r, k') == Get(d, k')
    ensures forall k' :: k' in Keys(r) <==> k' in Keys(d) || k' == k
    ensures k in Keys(d) ==>
      (|r| == |d| && Keys(r) == Keys(d) &&
       forall i :: 0 <= i < |d| && d[i].0 != k ==> r[i] == d[i])
    ensures k !in Keys(d) ==> r == d + [(k, v)]
    ensures DistinctKeys(d) ==> DistinctKeys(r)
  {
    if k in Keys(d) then
      var i := IndexOf(d, k);
      var r := d[i := (k, v)];
      assert Keys(r) == Keys(d);
      IndexOfAt(r, k, i);
      forall k' | k' != k && k' in Keys(d) ensures IndexOf(r, k') == IndexOf(d, k') {
        IndexOfAt(r, k', IndexOf(d, k'));
      }
      r
    else
      var r := d + [(k, v)];
      assert Keys(r) == Keys(d) + [k];
      assert forall j :: 0 <= j < |d| ==> r[j].0 == Keys(d)[j];
      IndexOfAt(r, k, |d|);
      forall k' | k' != k && k' in Keys(d) ensures IndexOf(r, k') == IndexOf(d, k') {
        IndexOfAt(r, k', IndexOf(d, k'));
      }
      r
  }

  /** `d.update(ps)`, or `dict(ps)` from an empty `d`: the pairs are stored one after another. */
  function PutAll<V>(d: Dict<V>, ps: Dict<V>): (r: Dict<V>)
    ensures DistinctKeys(d) ==> DistinctKeys(r)
    ensures forall k :: k in Keys(r) <==> k in Keys(d) || k in Keys(ps)
  {
    if ps == [] then d
    else
      var init := ps[..|ps| - 1];
      assert Keys(ps) == Keys(init) + [ps[|ps| - 1].0];
      Put(PutAll(d, init), ps[|ps| - 1].0, ps[|ps| - 1].1)
  }

  /** The last pair with a given key decides that key's value ("the later one wins"). */
  lemma {:induction false} PutAllLast<V>(d: Dict<V>, ps: Dict<V>, i: nat)
    requires i < |ps| && forall j :: i < j < |ps| ==> ps[j].0 != ps[i].0
    ensures Get(PutAll(d, ps), ps[i].0) == Some(ps[i].1)
  {
    if i < |ps| - 1 {
      var init := ps[..|ps| - 1];
      PutAllLast(d, init, i);
    }
  }

  /** A key no pair mentions keeps the value it had. */
  lemma {:induction false} PutAllMissing<V>(d: Dict<V>, ps: Dict<V>, k: string)
    requires k !in Keys(ps)
    ensures Get(PutAll(d, ps), k) == Get(d, k)
  {
    if ps != [] {
      var init := ps[..|ps| - 1];
      assert Keys(ps) == Keys(init) + [ps[|ps| - 1].0];
      PutAllMissing(d, init, k);
    }
  }

  /** Pairs whose keys are all new and distinct are simply appended. */
  lemma {:induction false} PutAllFresh<V>(d: Dict<V>, ps: Dict<V>)
    requires DistinctKeys(d + ps)
    ensures PutAll(d, ps) == d + ps
  {
    if ps != [] {
      var init := ps[..|ps| - 1];
      var last := ps[|ps| - 1];
      assert d + ps == (d + init) + [last];
      assert DistinctKeys(d + init) by {
        forall i, j | 0 <= i < j < |d + init| ensures (d + init)[i].0 != (d + init)[j].0 {
          assert (d + init)[i] == (d + ps)[i] && (d + init)[j] == (d + ps)[j];
        }
      }
      PutAllFresh(d, init);
      assert (d + ps)[|d + ps| - 1] == last;
      forall i | 0 <= i < |d + init| ensures Keys(d + init)[i] != last.0 {
        assert (d + ps)[i] == (d + init)[i];
        assert Keys(d + init)[i] == (d + ps)[i].0;
      }
    }
  }

  /** Pairs whose keys `d` does not have leave the entries of `d` where they were. */
  lemma {:induction false} PutAllKeepsPrefix<V>(d: Dict<V>, ps: Dict<V>)
    requires forall j :: 0 <= j < |ps| ==> ps[j].0 !in Keys(d)
    ensures |PutAll(d, ps)| >= |d| && PutAll(d, ps)[..|d|] == d
  {
    if ps != [] {
      var init := ps[..|ps| - 1];
      PutAllKeepsPrefix(d, init);
      var p := PutAll(d, init);
      var k := ps[|ps| - 1].0;
      var r := Put(p, k, ps[|ps| - 1].1);
      if k in Keys(p) {
        forall i | 0 <= i < |d| ensures r[i] == d[i] {
          assert p[i] == d[i];
          assert d[i].0 == Keys(d)[i];
        }
      } else {
        assert r[..|d|] == p[..|d|];
      }
    }
  }

  /** Storing under a key no entry before `n` has leaves those entries where they were. */
  lemma PutKeepsPrefix<V>(d: Dict<V>, k: string, v: V, n: nat)
    requires n <= |d| && forall j :: 0 <= j < n ==> d[j].0 != k
    ensures |Put(d, k, v)| >= n && Put(d, k, v)[..n] == d[..n]
  {
    var r := Put(d, k, v);
    if k in Keys(d) {
      assert forall j :: 0 <= j < n ==> r[j] == d[j];
    } else {
      assert r[..n] == (d + [(k, v)])[..n];
    }
  }

  // ---------------------------------------------------------------------------------------
  // defaultdict(list): grouping values by key in first-seen key order

  type Groups<V> = Dict<seq<V>>

  /** `dd[k].append(v)`. */
  function AddToGroup<V>(g: Groups<V>, k: string, v: V): (r: Groups<V>)
    ensures forall k' :: k' in Keys(r) <==> k' in Keys(g) || k' == k
    ensures k in Keys(g) ==> |r| == |g| && Keys(r) == Keys(g)
    ensures k in Keys(g) && DistinctKeys(g) ==>
      forall i :: 0 <= i < |g| ==> r[i].1 == (if g[i].0 == k then g[i].1 + [v] else g[i].1)
    ensures k !in Keys(g) ==> r == g + [(k, [v])]
    ensures DistinctKeys(g) ==> DistinctKeys(r)
    ensures TotalSize(r) == TotalSize(g) + 1
  {
    if k in Keys(g) then
      var i := IndexOf(g, k);
      var r := g[i := (k, g[i].1 + [v])];
      assert forall j :: 0 <= j < |r| ==> r[j].0 == g[j].0;
      assert Keys(r) == Keys(g);
      TotalSizeUpdate(g, i, (k, g[i].1 + [v]));
      r
    else
      var r := g + [(k, [v])];
      assert forall j :: 0 <= j < |g| ==> r[j].0 == Keys(g)[j];
      assert Keys(r) == Keys(g) + [k];
      TotalSizeAppend(g, (k, [v]));
      r
  }

  /** Number of values in all groups together. */
  function TotalSize<V>(g: Groups<V>): nat
  {
    if g == [] then 0 else |g[0].1| + TotalSize(g[1..])
  }

  lemma {:induction false} TotalSizeUpdate<V>(g: Groups<V>, i: nat, x: (string, seq<V>))
    requires i < |g|
    ensures TotalSize(g[i := x]) == TotalSize(g) - |g[i].1| + |x.1|
  {
    if i > 0 {
      assert g[i := x][1..] == g[1..][i - 1 := x];
      TotalSizeUpdate(g[1..], i - 1, x);
    }
  }

  lemma {:induction false} TotalSizeAppend<V>(g: Groups<V>, x: (string, seq<V>))
    ensures TotalSize(g + [x]) == TotalSize(g) + |x.1|
  {
    if g != [] {
      assert (g + [x])[1..] == g[1..] + [x];
      TotalSizeAppend(g[1..], x);
    }
  }

  /** The loop `for k, v in items: dd[k].append(v)` from an empty `defaultdict(list)`. */
  function Group<V>(items: Dict<V>): Groups<V>
  {
    if items == [] then []
    else
      var last := items[|items| - 1];
      AddToGroup(Group(items[..|items| - 1]), last.0, last.1)
  }

  /** The values paired with `k`, in the order of `items`. */
  function Select<V>(items: Dict<V>, k: string): seq<V>
  {
    if items == [] then []
    else
      var last := items[|items| - 1];
      Select(items[..|items| - 1], k) + (if last.0 == k then [last.1] else [])
  }

  /** The keys of `ks` with repetitions dropped, each where it first appears. */
  function FirstSeen(ks: seq<string>): seq<string>
  {
    if ks == [] then []
    else
      var prev := FirstSeen(ks[..|ks| - 1]);
      if ks[|ks| - 1] in prev then prev else prev + [ks[|ks| - 1]]
  }

  lemma {:induction false} SelectAbsent<V>(items: Dict<V>, k: string)
    requires k !in Keys(items)
    ensures Select(items, k) == []
  {
    if items != [] {
      var init := items[..|items| - 1];
      assert Keys(items) == Keys(init) + [items[|items| - 1].0];
      SelectAbsent(init, k);
    }
  }

  /** Grouping gives one group per distinct key. */
  lemma {:induction false} GroupKeys<V>(items: Dict<V>)
    ensures var g := Group(items);
      DistinctKeys(g) && forall k :: k in Keys(g) <==> k in Keys(items)
  {
    if items != [] {
      var init := items[..|items| - 1];
      GroupKeys(init);
      assert Keys(items) == Keys(init) + [items[|items| - 1].0];
    }
  }

  /** The groups come in the order in which their keys are first seen. */
  lemma {:induction false} GroupOrder<V>(items: Dict<V>)
    ensures Keys(Group(items)) == FirstSeen(Keys(items))
  {
    if items != [] {
      var init := items[..|items| - 1];
      var last := items[|items| - 1];
      GroupOrder(init);
      var g0 := Group(init);
      var ks := Keys(items);
      assert ks[|ks| - 1] == last.0;
      assert ks[..|ks| - 1] == Keys(init);
      if last.0 !in Keys(g0) {
        assert Keys(g0 + [(last.0, [last.1])]) == Keys(g0) + [last.0];
      }
    }
  }

  /** Each group holds exactly the values of its key, in their original order. */
  lemma {:induction false} GroupValues<V>(items: Dict<V>)
    ensures var g := Group(items);
      forall i :: 0 <= i < |g| ==> g[i].1 == Select(items, g[i].0) && g[i].1 != []
  {
    if items != [] {
      var init := items[..|items| - 1];
      var last := items[|items| - 1];
      GroupValues(init);
      GroupKeys(init);
      var g0 := Group(init);
      var g := AddToGroup(g0, last.0, last.1);
      if last.0 !in Keys(g0) {
        SelectAbsent(init, last.0);
        forall i | 0 <= i < |g| ensures g[i].1 == Select(items, g[i].0) && g[i].1 != [] {
          if i < |g0| { assert g[i] == g0[i]; }
        }
      }
    }
  }

  /** No value is lost or added by grouping. */
  lemma {:induction false} GroupTotal<V>(items: Dict<V>)
    ensures TotalSize(Group(items)) == |items|
  {
    if items != [] {
      GroupTotal(items[..|items| - 1]);
    }
  }

  /** A key paired with one value only selects that value. */
  lemma {:induction false} SelectOnly<V>(items: Dict<V>, i: nat)
    requires i < |items| && forall j :: 0 <= j < |items| && j != i ==> items[j].0 != items[i].0
    ensures Select(items, items[i].0) == [items[i].1]
  {
    var init := items[..|items| - 1];
    if i == |items| - 1 {
      assert forall j :: 0 <= j < |init| ==> Keys(init)[j] == items[j].0;
      SelectAbsent(init, items[i].0);
    } else {
      SelectOnly(init, i);
    }
  }
}
