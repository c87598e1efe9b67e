/** Python's `collections.Counter` and `defaultdict(list)` as the tools use them: association
    lists whose keys are distinct and kept in first-seen order, which is the order
    `most_common` falls back on for equal counts. */
module Counter {
  import Ranking

  /** The keys of an association list, in insertion order. */
  function Keys<K, V>(c: seq<(K, V)>): (r: seq<K>)
    ensures |r| == |c| && forall i :: 0 <= i < |c| ==> r[i] == c[i].0
  {
    if c == [] then [] else [c[0].0] + Keys(c[1..])
  }

  /** No key occurs twice. */
  predicate DistinctKeys<K(==), V>(c: seq<(K, V)>)
  {
    forall i, j :: 0 <= i < j < |c| ==> c[i].0 != c[j].0
  }

  // ---------------------------------------------------------------------------------------------
  // Counters

  /** `counter[k]`: zero for a key never counted. */
  function Get<K(==)>(c: seq<(K, nat)>, k: K): nat
  {
    if c == [] then 0 else if c[0].0 == k then c[0].1 else Get(c[1..], k)
  }

  /** The sum of all counts. */
  function Total<K>(c: seq<(K, nat)>): nat
  {
    if c == [] then 0 else c[0].1 + Total(c[1..])
  }

  /** `counter[k] += 1`: one more for `k`, nothing else changes, a new key goes last. */
  function Bump<K(==,!new)>(c: seq<(K, nat)>, k: K): (r: seq<(K, nat)>)
    ensures Get(r, k) == Get(c, k) + 1
    ensures forall j :: j != k ==> Get(r, j) == Get(c, j)
    ensures Total(r) == Total(c) + 1
    ensures Keys(r) == if k in Keys(c) then Keys(c) else Keys(c) + [k]
  {
    if c == [] then [(k, 1)]
    else if c[0].0 == k then
      assert Keys([(k, c[0].1 + 1)] + c[1..]) == Keys(c) by {
        assert ([(k, c[0].1 + 1)] + c[1..])[1..] == c[1..];
      }
      [(k, c[0].1 + 1)] + c[1..]
    else
      var t := Bump(c[1..], k);
      assert ([c[0]] + t)[1..] == t;
      [c[0]] + t
  }

  /** `counter.most_common()`: by descending count, equal counts in first-seen order. */
  function MostCommon<K>(c: seq<(K, nat)>): seq<(K, nat)>
  {
    Ranking.SortDesc(c, (e: (K, nat)) => e.1)
  }

  /** The first `n` entries of `most_common()`: in descending count, drawn from the counter,
      all of it when it has at most `n` entries, and no entry left out counts more than one
      kept. */
  lemma TopCounts<K>(c: seq<(K, nat)>, n: nat)
    ensures var top := Ranking.Take(MostCommon(c), n);
      && (forall i, j :: 0 <= i < j < |top| ==> top[i].1 >= top[j].1)
      && multiset(top) <= multiset(c)
      && (|c| <= n ==> multiset(top) == multiset(c))
      && (forall x, i :: x in multiset(c) - multiset(top) && 0 <= i < |top| ==> x.1 <= top[i].1)
  {
    var key := (e: (K, nat)) => e.1;
    Ranking.TopN(c, key, n);
    var top := Ranking.Take(MostCommon(c), n);
    assert Ranking.Descending(top, key);
    forall i, j | 0 <= i < j < |top| ensures top[i].1 >= top[j].1 {
      assert key(top[i]) >= key(top[j]);
    }
    forall x, i | x in multiset(c) - multiset(top) && 0 <= i < |top| ensures x.1 <= top[i].1 {
      assert key(x) <= key(top[i]);
    }
  }

  /** Bumping keeps the keys distinct. */
  lemma BumpDistinct<K(!new)>(c: seq<(K, nat)>, k: K)
    requires DistinctKeys(c)
    ensures DistinctKeys(Bump(c, k))
  {
    var r := Bump(c, k);
    assert Keys(r) == if k in Keys(c) then Keys(c) else Keys(c) + [k];
    forall i, j | 0 <= i < j < |r| ensures r[i].0 != r[j].0 {
      assert r[i].0 == Keys(r)[i] && r[j].0 == Keys(r)[j];
      if k !in Keys(c) && j == |c| {
        assert Keys(r)[i] == Keys(c)[i];
      } else {
        assert Keys(r)[i] == c[i].0 && Keys(r)[j] == c[j].0;
      }
    }
  }

  /** With distinct keys, the count stored in an entry is the count of its key. */
  lemma {:induction false} EntryCount<K>(c: seq<(K, nat)>, j: nat)
    requires DistinctKeys(c) && j < |c|
    ensures Get(c, c[j].0) == c[j].1
  {
    if j > 0 {
      assert c[0].0 != c[j].0;
      assert c[1..][j - 1] == c[j];
      EntryCount(c[1..], j - 1);
    }
  }

  // ---------------------------------------------------------------------------------------------
  // Lists grouped by key

  /** `groups[k]`: the empty list for a key never seen. */
  function Group<K(==), V>(c: seq<(K, seq<V>)>, k: K): seq<V>
  {
    if c == [] then [] else if c[0].0 == k then c[0].1 else Group(c[1..], k)
  }

  /** The sum of the lengths of all lists. */
  function GroupedTotal<K, V>(c: seq<(K, seq<V>)>): nat
  {
    if c == [] then 0 else |c[0].1| + GroupedTotal(c[1..])
  }

  /** `groups[k].append(v)`: `v` goes last in the list of `k`, other lists do not change. */
  function Push<K(==,!new), V>(c: seq<(K, seq<V>)>, k: K, v: V): (r: seq<(K, seq<V>)>)
    ensures Group(r, k) == Group(c, k) + [v]
    ensures forall j :: j != k ==> Group(r, j) == Group(c, j)
    ensures GroupedTotal(r) == GroupedTotal(c) + 1
    ensures Keys(r) == if k in Keys(c) then Keys(c) else Keys(c) + [k]
  {
    if c == [] then [(k, [v])]
    else if c[0].0 == k then
      assert Keys([(k, c[0].1 + [v])] + c[1..]) == Keys(c) by {
        assert ([(k, c[0].1 + [v])] + c[1..])[1..] == c[1..];
      }
      [(k, c[0].1 + [v])] + c[1..]
    else
      var t := Push(c[1..], k, v);
      assert ([c[0]] + t)[1..] == t;
      [c[0]] + t
  }
}
