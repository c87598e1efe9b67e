/** List comprehensions with a condition (`[x for x in xs if f(x)]`), defined from the back so
    that a loop appending to a result keeps `result == Filter(xs[..i], f)`. */
module Selection {

  function Filter<T>(s: seq<T>, f: T -> bool): (r: seq<T>)
    ensures |r| <= |s|
    ensures forall i :: 0 <= i < |r| ==> f(r[i])
  {
    if s == [] then []
    else Filter(s[..|s| - 1], f) + (if f(s[|s| - 1]) then [s[|s| - 1]] else [])
  }

  ghost predicate Increasing(idx: seq<nat>)
  {
    forall i, j :: 0 <= i < j < |idx| ==> idx[i] < idx[j]
  }

  /** The filter is the subsequence of `s` at the qualifying positions: it picks the
      elements at increasing positions `idx`, and a position is picked exactly when its
      element qualifies. */
  lemma {:induction false} FilterIndices<T>(s: seq<T>, f: T -> bool) returns (idx: seq<nat>)
    ensures |idx| == |Filter(s, f)| && Increasing(idx)
    ensures forall i :: 0 <= i < |idx| ==> idx[i] < |s| && s[idx[i]] == Filter(s, f)[i]
    ensures forall j :: 0 <= j < |s| ==> (f(s[j]) <==> j in idx)
    decreases |s|
  {
    if s == [] {
      idx := [];
    } else {
      var s', y := s[..|s| - 1], s[|s| - 1];
      var idx' := FilterIndices(s', f);
      var r', r := Filter(s', f), Filter(s, f);
      assert forall j :: 0 <= j < |s'| ==> s'[j] == s[j];
      if f(y) {
        idx := idx' + [|s'|];
        assert r == r' + [y];
        forall i | 0 <= i < |idx| ensures idx[i] < |s| && s[idx[i]] == r[i] {
          if i < |idx'| {
            assert idx[i] == idx'[i] && r[i] == r'[i];
          }
        }
      } else {
        idx := idx';
        assert r == r';
      }
    }
  }

  /** Adding one element at the end adds it to the result when it qualifies. */
  lemma FilterSnoc<T>(s: seq<T>, x: T, f: T -> bool)
    ensures Filter(s + [x], f) == Filter(s, f) + (if f(x) then [x] else [])
  {
    assert (s + [x])[..|s|] == s;
  }

  /** The filter distributes over concatenation, so it keeps the original order. */
  lemma {:induction false} FilterConcat<T>(a: seq<T>, b: seq<T>, f: T -> bool)
    ensures Filter(a + b, f) == Filter(a, f) + Filter(b, f)
    decreases |b|
  {
    if b == [] {
      assert a + b == a;
    } else {
      var b', x := b[..|b| - 1], b[|b| - 1];
      assert b == b' + [x];
      assert a + b == (a + b') + [x];
      FilterSnoc(a + b', x, f);
      FilterConcat(a, b', f);
      FilterSnoc(b', x, f);
    }
  }

  /** Every qualifying element is kept as often as it occurs, and nothing else is kept. */
  lemma {:induction false} FilterMultiset<T>(s: seq<T>, f: T -> bool, x: T)
    ensures multiset(Filter(s, f))[x] == if f(x) then multiset(s)[x] else 0
    decreases |s|
  {
    if s != [] {
      var s', y := s[..|s| - 1], s[|s| - 1];
      assert s == s' + [y];
      FilterMultiset(s', f, x);
    }
  }

  /** Everything kept comes from the input. */
  lemma FilterMembers<T>(s: seq<T>, f: T -> bool)
    ensures forall i :: 0 <= i < |Filter(s, f)| ==> Filter(s, f)[i] in s
  {
    forall i | 0 <= i < |Filter(s, f)| ensures Filter(s, f)[i] in s {
      var x := Filter(s, f)[i];
      FilterMultiset(s, f, x);
      assert x in multiset(Filter(s, f));
    }
  }

  lemma FilterCounts<T>(s: seq<T>, f: T -> bool)
    ensures forall x :: multiset(Filter(s, f))[x] == if f(x) then multiset(s)[x] else 0
  {
    forall x ensures multiset(Filter(s, f))[x] == if f(x) then multiset(s)[x] else 0 {
      FilterMultiset(s, f, x);
    }
  }
}
