/**
 * A `TreeMap<String, V>` as the sequence of its entries in iteration
 * order: keys strictly increasing under `String.compareTo`.
 */
module SortedMap {
  import opened Wrappers
  import opened Strings

  /** The iteration order of a `TreeMap`: each key strictly below the next one. */
  ghost predicate Sorted<V>(e: seq<(string, V)>) {
    |e| <= 1 || (LexLess(e[0].0, e[1].0) && Sorted(e[1..]))
  }

  function Keys<V>(e: seq<(string, V)>): set<string> {
    set i | 0 <= i < |e| :: e[i].0
  }

  lemma KeysCons<V>(x: (string, V), e: seq<(string, V)>)
    ensures Keys([x] + e) == {x.0} + Keys(e)
  {
    var c := [x] + e;
    forall k | k in Keys(c)
      ensures k in {x.0} + Keys(e)
    {
      var i :| 0 <= i < |c| && c[i].0 == k;
      if i > 0 {
        assert e[i - 1].0 == k;
      }
    }
    forall k | k in Keys(e)
      ensures k in Keys(c)
    {
      var i :| 0 <= i < |e| && e[i].0 == k;
      assert c[i + 1].0 == k;
    }
    assert c[0].0 == x.0;
  }

  /** `map.get(k)`: the value of the first entry with key `k`, or `null`. */
  function Get<V>(e: seq<(string, V)>, k: string): (r: Option<V>)
    ensures r.Some? <==> k in Keys(e)
    ensures r.Some? ==> exists i :: 0 <= i < |e| && e[i].0 == k && e[i].1 == r.value
  {
    if |e| == 0 then None
    else if e[0].0 == k then Some(e[0].1)
    else
      KeysCons(e[0], e[1..]);
      assert e == [e[0]] + e[1..];
      var r := Get(e[1..], k);
      assert r.Some? ==> exists i :: 0 <= i < |e| && e[i].0 == k && e[i].1 == r.value by {
        if r.Some? {
          var i :| 0 <= i < |e[1..]| && e[1..][i].0 == k && e[1..][i].1 == r.value;
          assert e[i + 1].0 == k;
        }
      }
      r
  }

  /** `map.put(k, v)`: replaces the value of `k`, or inserts `k` at its place in key order. */
  function Put<V>(e: seq<(string, V)>, k: string, v: V): (r: seq<(string, V)>)
    ensures Keys(r) == Keys(e) + {k}
    ensures Get(r, k) == Some(v)
    ensures forall k' :: k' != k ==> Get(r, k') == Get(e, k')
  {
    if |e| == 0 then
      KeysCons((k, v), e);
      assert [(k, v)] + e == [(k, v)];
      [(k, v)]
    else if e[0].0 == k then
      KeysCons(e[0], e[1..]);
      KeysCons((k, v), e[1..]);
      assert e == [e[0]] + e[1..];
      assert ([(k, v)] + e[1..])[1..] == e[1..];
      [(k, v)] + e[1..]
    else if LexLess(k, e[0].0) then
      KeysCons((k, v), e);
      assert ([(k, v)] + e)[1..] == e;
      [(k, v)] + e
    else
      var r := [e[0]] + Put(e[1..], k, v);
      KeysCons(e[0], e[1..]);
      KeysCons(e[0], Put(e[1..], k, v));
      assert e == [e[0]] + e[1..];
      assert r[1..] == Put(e[1..], k, v);
      r
  }

  /** In a sorted map, a key below the first key is absent. */
  lemma {:induction false} BelowFirstIsAbsent<V>(e: seq<(string, V)>, k: string)
    requires Sorted(e) && |e| > 0 && LexLess(k, e[0].0)
    ensures k !in Keys(e)
  {
    KeysCons(e[0], e[1..]);
    assert e == [e[0]] + e[1..];
    LexLessIrreflexive(k);
    if |e| > 1 {
      LexLessTransitive(k, e[0].0, e[1].0);
      BelowFirstIsAbsent(e[1..], k);
    }
  }

  /** Sorted maps have strictly ascending keys throughout, so no key occurs twice. */
  lemma {:induction false} SortedAscending<V>(e: seq<(string, V)>)
    requires Sorted(e)
    ensures forall i, j :: 0 <= i < j < |e| ==> LexLess(e[i].0, e[j].0)
  {
    if |e| > 1 {
      SortedAscending(e[1..]);
      forall i, j | 0 <= i < j < |e|
        ensures LexLess(e[i].0, e[j].0)
      {
        assert e[j] == e[1..][j - 1];
        if i == 0 && j > 1 {
          LexLessTransitive(e[0].0, e[1].0, e[j].0);
        } else if i > 0 {
          assert e[i] == e[1..][i - 1];
        }
      }
    }
  }

  /** The first entry after a `put` is the new key or the old first key, whichever sorts first. */
  lemma PutHead<V>(e: seq<(string, V)>, k: string, v: V)
    requires |e| > 0
    ensures Put(e, k, v)[0].0 == if k == e[0].0 || LexLess(k, e[0].0) then k else e[0].0
  {
  }

  /** `put` keeps the entries in key order. */
  lemma {:induction false} PutKeepsSorted<V>(e: seq<(string, V)>, k: string, v: V)
    requires Sorted(e)
    ensures Sorted(Put(e, k, v))
  {
    if |e| == 0 {
    } else if e[0].0 == k {
      assert Put(e, k, v)[1..] == e[1..];
    } else if LexLess(k, e[0].0) {
      assert Put(e, k, v)[1..] == e;
    } else {
      LexLessTotal(k, e[0].0);
      var rest := Put(e[1..], k, v);
      PutKeepsSorted(e[1..], k, v);
      assert Put(e, k, v)[1..] == rest;
      if |e| > 1 {
        PutHead(e[1..], k, v);
      }
    }
  }

  /** The sum of `f` over the values of the map. */
  function SumOf<V>(e: seq<(string, V)>, f: V -> int): int {
    if |e| == 0 then 0 else f(e[0].1) + SumOf(e[1..], f)
  }

  /** `put` changes the sum by the new value minus the value it replaces. */
  lemma {:induction false} PutSum<V>(e: seq<(string, V)>, k: string, v: V, f: V -> int)
    requires Sorted(e)
    ensures SumOf(Put(e, k, v), f) == SumOf(e, f) + f(v) - (if Get(e, k).Some? then f(Get(e, k).value) else 0)
  {
    if |e| == 0 {
    } else if e[0].0 == k {
      assert Put(e, k, v)[1..] == e[1..];
    } else if LexLess(k, e[0].0) {
      BelowFirstIsAbsent(e, k);
      assert Put(e, k, v)[1..] == e;
    } else {
      PutSum(e[1..], k, v, f);
      assert Put(e, k, v)[1..] == Put(e[1..], k, v);
    }
  }

  /** In a sorted map the entry at `p` is what `get` returns for its key. */
  lemma {:induction false} GetAt<V>(e: seq<(string, V)>, p: nat)
    requires Sorted(e) && p < |e|
    ensures Get(e, e[p].0) == Some(e[p].1)
  {
    var r := Get(e, e[p].0);
    var q :| 0 <= q < |e| && e[q].0 == e[p].0 && e[q].1 == r.value;
    SortedAscending(e);
    LexLessIrreflexive(e[p].0);
    if q != p {
      assert false;
    }
  }
}
