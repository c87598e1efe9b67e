/** Python's stable `sorted(xs, key=k, reverse=True)`, which the tools use for
    `Counter.most_common`, the conversation table and the best baud rate: a descending
    insertion sort that keeps equal keys in their original order. */
module Ranking {

  /** Puts `x` in front of the first element whose key is not above its own. */
  function Insert<T>(x: T, s: seq<T>, key: T -> int): (r: seq<T>)
    ensures |r| == |s| + 1
  {
    if s == [] || key(s[0]) <= key(x) then [x] + s
    else [s[0]] + Insert(x, s[1..], key)
  }

  function SortDesc<T>(s: seq<T>, key: T -> int): (r: seq<T>)
    ensures |r| == |s|
  {
    if s == [] then [] else Insert(s[0], SortDesc(s[1..], key), key)
  }

  /** Inserting adds exactly `x`. */
  lemma {:induction false} InsertPermutes<T>(x: T, s: seq<T>, key: T -> int)
    ensures multiset(Insert(x, s, key)) == multiset(s) + multiset{x}
  {
    if s != [] && key(s[0]) > key(x) {
      assert s == [s[0]] + s[1..];
      InsertPermutes(x, s[1..], key);
    }
  }

  /** The sort is a permutation of its input. */
  lemma {:induction false} SortPermutes<T>(s: seq<T>, key: T -> int)
    ensures multiset(SortDesc(s, key)) == multiset(s)
  {
    if s != [] {
      assert s == [s[0]] + s[1..];
      SortPermutes(s[1..], key);
      InsertPermutes(s[0], SortDesc(s[1..], key), key);
    }
  }

  ghost predicate Descending<T>(s: seq<T>, key: T -> int)
  {
    forall i, j :: 0 <= i < j < |s| ==> key(s[i]) >= key(s[j])
  }

  /** The elements of `s` whose key is `v`, in order. */
  function WithKey<T>(s: seq<T>, key: T -> int, v: int): seq<T>
  {
    if s == [] then [] else (if key(s[0]) == v then [s[0]] else []) + WithKey(s[1..], key, v)
  }

  function Take<T>(s: seq<T>, n: nat): (r: seq<T>)
    ensures |r| <= n && |r| <= |s| && r == s[..|r|]
    ensures |s| <= n ==> r == s
  {
    if |s| <= n then s else s[..n]
  }

  /** Inserting an element with key at most `b` among elements with keys at most `b`. */
  lemma {:induction false} InsertBounded<T>(x: T, s: seq<T>, key: T -> int, b: int)
    requires key(x) <= b && forall i :: 0 <= i < |s| ==> key(s[i]) <= b
    ensures forall i :: 0 <= i < |Insert(x, s, key)| ==> key(Insert(x, s, key)[i]) <= b
  {
    if s != [] && key(s[0]) > key(x) {
      var t := Insert(x, s[1..], key);
      assert forall i :: 0 <= i < |s[1..]| ==> key(s[1..][i]) <= b by {
        forall i | 0 <= i < |s[1..]| ensures key(s[1..][i]) <= b {
          assert s[1..][i] == s[i + 1];
        }
      }
      InsertBounded(x, s[1..], key, b);
      assert Insert(x, s, key) == [s[0]] + t;
    }
  }

  lemma {:induction false} InsertDescending<T>(x: T, s: seq<T>, key: T -> int)
    requires Descending(s, key)
    ensures Descending(Insert(x, s, key), key)
  {
    var r := Insert(x, s, key);
    if s == [] || key(s[0]) <= key(x) {
      assert r == [x] + s;
      forall i, j | 0 <= i < j < |r| ensures key(r[i]) >= key(r[j]) {
        if i == 0 {
          assert r[j] == s[j - 1];
          assert key(s[0]) >= key(s[j - 1]);
        } else {
          assert r[i] == s[i - 1] && r[j] == s[j - 1];
        }
      }
    } else {
      var tail := s[1..];
      var t := Insert(x, tail, key);
      assert Descending(tail, key) by {
        forall i, j | 0 <= i < j < |tail| ensures key(tail[i]) >= key(tail[j]) {
          assert tail[i] == s[i + 1] && tail[j] == s[j + 1];
        }
      }
      InsertDescending(x, tail, key);
      assert forall i :: 0 <= i < |tail| ==> key(tail[i]) <= key(s[0]) by {
        forall i | 0 <= i < |tail| ensures key(tail[i]) <= key(s[0]) {
          assert tail[i] == s[i + 1];
        }
      }
      InsertBounded(x, tail, key, key(s[0]));
      assert r == [s[0]] + t;
      forall i, j | 0 <= i < j < |r| ensures key(r[i]) >= key(r[j]) {
        if i == 0 {
          assert r[j] == t[j - 1];
        } else {
          assert r[i] == t[i - 1] && r[j] == t[j - 1];
        }
      }
    }
  }

  /** The result of the sort is in descending key order. */
  lemma {:induction false} SortDescending<T>(s: seq<T>, key: T -> int)
    ensures Descending(SortDesc(s, key), key)
  {
    if s != [] {
      SortDescending(s[1..], key);
      InsertDescending(s[0], SortDesc(s[1..], key), key);
    }
  }

  /** Inserting `x` passes only elements with a strictly larger key, so it lands in front of
      every element that shares its key. */
  lemma {:induction false} InsertWithKey<T>(x: T, s: seq<T>, key: T -> int, v: int)
    ensures WithKey(Insert(x, s, key), key, v)
         == (if key(x) == v then [x] else []) + WithKey(s, key, v)
  {
    var mine: seq<T> := if key(x) == v then [x] else [];
    if s == [] || key(s[0]) <= key(x) {
      var r := [x] + s;
      assert r[0] == x && r[1..] == s;
      assert WithKey(r, key, v) == mine + WithKey(s, key, v);
    } else {
      var t := Insert(x, s[1..], key);
      var r := [s[0]] + t;
      var first: seq<T> := if key(s[0]) == v then [s[0]] else [];
      assert r[0] == s[0] && r[1..] == t;
      assert WithKey(r, key, v) == first + WithKey(t, key, v);
      assert WithKey(s, key, v) == first + WithKey(s[1..], key, v);
      InsertWithKey(x, s[1..], key, v);
      if key(x) == v {
        assert first == [];
      } else {
        assert mine == [];
      }
    }
  }

  /** Stability: for every key value, the elements with that key keep their original order. */
  lemma {:induction false} SortStable<T>(s: seq<T>, key: T -> int, v: int)
    ensures WithKey(SortDesc(s, key), key, v) == WithKey(s, key, v)
  {
    if s != [] {
      SortStable(s[1..], key, v);
      InsertWithKey(s[0], SortDesc(s[1..], key), key, v);
    }
  }

  /** The first element of `s` that has key `v` heads `WithKey(s, key, v)`. */
  lemma {:induction false} WithKeyFirst<T>(s: seq<T>, key: T -> int, v: int, i: nat)
    requires i < |s| && key(s[i]) == v
    requires forall j :: 0 <= j < i ==> key(s[j]) != v
    ensures |WithKey(s, key, v)| > 0 && WithKey(s, key, v)[0] == s[i]
  {
    if i > 0 {
      WithKeyFirst(s[1..], key, v, i - 1);
    }
  }

  /** The head of the sorted sequence is a maximal element, and the first one of maximal key
      in the original order: stable descending sort picks the earliest of the best. */
  lemma {:induction false} SortHead<T>(s: seq<T>, key: T -> int) returns (i: nat)
    requires |s| > 0
    ensures i < |s| && SortDesc(s, key)[0] == s[i]
    ensures forall j :: 0 <= j < |s| ==> key(s[j]) <= key(s[i])
    ensures forall j :: 0 <= j < i ==> key(s[j]) < key(s[i])
  {
    var r := SortDesc(s, key);
    SortDescending(s, key);
    SortPermutes(s, key);
    forall j | 0 <= j < |s| ensures key(s[j]) <= key(r[0]) {
      assert s[j] in multiset(r);
      var m :| 0 <= m < |r| && r[m] == s[j];
    }
    var v := key(r[0]);
    assert r[0] in multiset(s);
    var k :| 0 <= k < |s| && s[k] == r[0];
    i := 0;
    while key(s[i]) != v
      invariant i <= k && forall j :: 0 <= j < i ==> key(s[j]) != v
      decreases k - i
    {
      i := i + 1;
    }
    WithKeyFirst(s, key, v, i);
    WithKeyFirst(r, key, v, 0);
    SortStable(s, key, v);
  }

  /** Splitting a descending sequence in two: the front stays descending and every element of
      the back ranks at most as high as every element of the front. */
  lemma DescendingSplit<T>(t: seq<T>, r: seq<T>, cut: seq<T>, key: T -> int)
    requires Descending(t, key) && t == r + cut
    ensures Descending(r, key)
    ensures forall x, i :: x in multiset(cut) && 0 <= i < |r| ==> key(x) <= key(r[i])
  {
    assert forall i :: 0 <= i < |r| ==> r[i] == t[i];
    forall x, i | x in multiset(cut) && 0 <= i < |r| ensures key(x) <= key(r[i]) {
      var j :| 0 <= j < |cut| && cut[j] == x;
      assert t[|r| + j] == x;
    }
  }

  /** `sorted(s, key=key, reverse=True)[:n]`: at most `n` elements of `s`, in descending key
      order, none of them outranked by an element that was cut off; all of `s` when it has at
      most `n` elements. */
  lemma TopN<T>(s: seq<T>, key: T -> int, n: nat)
    ensures var r := Take(SortDesc(s, key), n);
      && |r| == (if |s| <= n then |s| else n)
      && Descending(r, key)
      && multiset(r) <= multiset(s)
      && (|s| <= n ==> multiset(r) == multiset(s))
      && forall x, i :: x in multiset(s) - multiset(r) && 0 <= i < |r| ==> key(x) <= key(r[i])
  {
    var t := SortDesc(s, key);
    var r := Take(t, n);
    SortDescending(s, key);
    SortPermutes(s, key);
    var cut := t[|r|..];
    assert t == r + cut;
    assert multiset(s) - multiset(r) == multiset(cut);
    DescendingSplit(t, r, cut, key);
  }
}
