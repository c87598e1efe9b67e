/** Physical-layer analysis of a sampled waveform: threshold crossings become rising and
    falling edges, the gaps between edges become pulse widths with their statistics, and the
    shortest pulse decides between EnviraCOM (120 baud, about 8.33 ms per bit), RS-485 (the
    nearest of five standard rates) and unknown. Times are seconds; widths in the analysis are
    milliseconds. */
module SignalAnalysis {
  import opened Wrappers

  /** A `(time, value)` sample. */
  type Sample = (real, real)

  datatype EdgeKind = Rising | Falling

  datatype Edge = Edge(time: real, kind: EdgeKind)

  /** The logic level of a sample: high when above the threshold. */
  predicate High(s: Sample, threshold: real)
  {
    s.1 > threshold
  }

  function KindOf(high: bool): EdgeKind
  {
    if high then Rising else Falling
  }

  // ---------------------------------------------------------------------------------------------
  // Edges

  /** The edges among the first `k` samples: one at every sample whose level differs from
      the sample before it, rising to a high level and falling to a low one. */
  function ChangePoints(samples: seq<Sample>, threshold: real, k: nat): seq<Edge>
    requires k <= |samples|
  {
    if k <= 1 then []
    else
      var s := samples[k - 1];
      ChangePoints(samples, threshold, k - 1)
        + if High(s, threshold) != High(samples[k - 2], threshold)
          then [Edge(s.0, KindOf(High(s, threshold)))] else []
  }

  /** `find_edges`: a scan that remembers the last level seen. An empty sample list is not
      accepted (`samples[0]` raises). */
  method FindEdges(samples: seq<Sample>, threshold: real) returns (edges: seq<Edge>)
    requires |samples| > 0
    ensures edges == ChangePoints(samples, threshold, |samples|)
  {
    edges := [];
    var prevState := samples[0].1 > threshold;
    var i := 1;
    while i < |samples|
      invariant 1 <= i <= |samples|
      invariant prevState == High(samples[i - 1], threshold)
      invariant edges == ChangePoints(samples, threshold, i)
    {
      var (time, value) := samples[i];
      var state := value > threshold;
      if state != prevState {
        var edgeType := if state then Rising else Falling;
        edges := edges + [Edge(time, edgeType)];
        prevState := state;
      }
      i := i + 1;
    }
  }

  /** Edges alternate; the last edge rises or falls to the level of the last sample, and
      without edges every sample has the first sample's level. */
  lemma {:induction false} EdgeLevels(samples: seq<Sample>, threshold: real, k: nat)
    requires 1 <= k <= |samples|
    ensures var e := ChangePoints(samples, threshold, k);
      && (forall i :: 0 <= i < |e| - 1 ==> e[i].kind != e[i + 1].kind)
      && (e != [] ==> e[|e| - 1].kind == KindOf(High(samples[k - 1], threshold)))
      && (e == [] ==> High(samples[k - 1], threshold) == High(samples[0], threshold))
      && (e != [] ==> e[0].kind == KindOf(!High(samples[0], threshold)))
  {
    if k > 1 {
      EdgeLevels(samples, threshold, k - 1);
      var e' := ChangePoints(samples, threshold, k - 1);
      var e := ChangePoints(samples, threshold, k);
      if High(samples[k - 1], threshold) != High(samples[k - 2], threshold) {
        assert e == e' + [Edge(samples[k - 1].0, KindOf(High(samples[k - 1], threshold)))];
        forall i | 0 <= i < |e| - 1 ensures e[i].kind != e[i + 1].kind {
          if i < |e'| - 1 {
            assert e[i] == e'[i] && e[i + 1] == e'[i + 1];
          }
        }
      } else {
        assert e == e';
      }
    }
  }

  /** The edges of `find_edges` alternate, and the first one leaves the first sample's level. */
  lemma EdgesAlternate(samples: seq<Sample>, threshold: real)
    requires |samples| > 0
    ensures var e := ChangePoints(samples, threshold, |samples|);
      && (forall i :: 0 <= i < |e| - 1 ==> e[i].kind != e[i + 1].kind)
      && (e != [] ==> e[0].kind == if High(samples[0], threshold) then Falling else Rising)
  {
    EdgeLevels(samples, threshold, |samples|);
  }

  /** Sample `j` follows a sample of the other level, and `edge` is the edge it makes. */
  predicate EdgeAt(samples: seq<Sample>, threshold: real, j: int, edge: Edge)
  {
    1 <= j < |samples| && High(samples[j], threshold) != High(samples[j - 1], threshold) &&
    edge == Edge(samples[j].0, KindOf(High(samples[j], threshold)))
  }

  /** `src` lists, in increasing order, the samples among the first `k` that the edges
      `ChangePoints(samples, threshold, k)` come from, one per edge, and every level change
      among them. */
  ghost predicate EdgeSources(samples: seq<Sample>, threshold: real, k: nat, src: seq<int>)
    requires k <= |samples|
  {
    && |src| == |ChangePoints(samples, threshold, k)|
    && (forall i :: 0 <= i < |src| ==>
         src[i] < k && EdgeAt(samples, threshold, src[i], ChangePoints(samples, threshold, k)[i]))
    && (forall i, i' :: 0 <= i < i' < |src| ==> src[i] < src[i'])
    && (forall j :: 1 <= j < k && High(samples[j], threshold) != High(samples[j - 1], threshold) ==>
         j in src)
  }

  /** Sources for one more sample: the old ones, and the new sample when it changes level. */
  lemma EdgeSourcesStep(samples: seq<Sample>, threshold: real, k: nat, src': seq<int>)
    returns (src: seq<int>)
    requires 1 < k <= |samples| && EdgeSources(samples, threshold, k - 1, src')
    ensures EdgeSources(samples, threshold, k, src)
  {
    if High(samples[k - 1], threshold) != High(samples[k - 2], threshold) {
      EdgeSourcesChange(samples, threshold, k, src');
      src := src' + [k - 1];
    } else {
      assert ChangePoints(samples, threshold, k) == ChangePoints(samples, threshold, k - 1);
      src := src';
    }
  }

  /** A sample that changes level adds itself as the source of the new edge. */
  lemma EdgeSourcesChange(samples: seq<Sample>, threshold: real, k: nat, src': seq<int>)
    requires 1 < k <= |samples| && EdgeSources(samples, threshold, k - 1, src')
    requires High(samples[k - 1], threshold) != High(samples[k - 2], threshold)
    ensures EdgeSources(samples, threshold, k, src' + [k - 1])
  {
    var e' := ChangePoints(samples, threshold, k - 1);
    var e := ChangePoints(samples, threshold, k);
    var s := samples[k - 1];
    var src := src' + [k - 1];
    assert e == e' + [Edge(s.0, KindOf(High(s, threshold)))];
    assert EdgeAt(samples, threshold, k - 1, e[|e'|]);
    forall i | 0 <= i < |src'| ensures e[i] == e'[i] && src[i] == src'[i] {
    }
  }

  /** The edges correspond one to one, in order, to the samples whose level differs from the
      one before: edge `i` comes from sample `src[i]`, the sources increase, and every level
      change among the first `k` samples is a source. */
  lemma {:induction false} EdgeTimes(samples: seq<Sample>, threshold: real, k: nat)
    returns (src: seq<int>)
    requires k <= |samples|
    ensures |src| == |ChangePoints(samples, threshold, k)|
    ensures forall i :: 0 <= i < |src| ==>
      src[i] < k && EdgeAt(samples, threshold, src[i], ChangePoints(samples, threshold, k)[i])
    ensures forall i, i' :: 0 <= i < i' < |src| ==> src[i] < src[i']
    ensures forall j :: 1 <= j < k && High(samples[j], threshold) != High(samples[j - 1], threshold) ==>
      j in src
  {
    if k <= 1 {
      src := [];
    } else {
      var src' := EdgeTimes(samples, threshold, k - 1);
      assert EdgeSources(samples, threshold, k - 1, src');
      src := EdgeSourcesStep(samples, threshold, k, src');
    }
  }

  // ---------------------------------------------------------------------------------------------
  // Sorting and statistics on reals

  function InsertAsc(x: real, s: seq<real>): (r: seq<real>)
    ensures |r| == |s| + 1
  {
    if s == [] || x <= s[0] then [x] + s else [s[0]] + InsertAsc(x, s[1..])
  }

  /** Python's `sorted` on a list of floats. */
  function SortAsc(s: seq<real>): (r: seq<real>)
    ensures |r| == |s|
  {
    if s == [] then [] else InsertAsc(s[0], SortAsc(s[1..]))
  }

  lemma {:induction false} InsertAscPermutes(x: real, s: seq<real>)
    ensures multiset(InsertAsc(x, s)) == multiset(s) + multiset{x}
  {
    if s != [] && x > s[0] {
      InsertAscPermutes(x, s[1..]);
      assert s == [s[0]] + s[1..];
    }
  }

  /** Sorting keeps every width, as often as it occurs. */
  lemma {:induction false} SortAscPermutes(s: seq<real>)
    ensures multiset(SortAsc(s)) == multiset(s)
  {
    if s != [] {
      SortAscPermutes(s[1..]);
      InsertAscPermutes(s[0], SortAsc(s[1..]));
      assert s == [s[0]] + s[1..];
    }
  }

  ghost predicate Ascending(s: seq<real>)
  {
    forall i, j :: 0 <= i < j < |s| ==> s[i] <= s[j]
  }

  lemma {:induction false} InsertAscAbove(x: real, s: seq<real>, lo: real)
    requires lo <= x && forall i :: 0 <= i < |s| ==> lo <= s[i]
    ensures forall k :: 0 <= k < |InsertAsc(x, s)| ==> lo <= InsertAsc(x, s)[k]
  {
    if s != [] && x > s[0] {
      InsertAscAbove(x, s[1..], lo);
      var t := InsertAsc(x, s[1..]);
      assert InsertAsc(x, s) == [s[0]] + t;
      forall k | 0 <= k < |t| + 1 ensures lo <= ([s[0]] + t)[k] {
        if k > 0 {
          assert ([s[0]] + t)[k] == t[k - 1];
        } else {
          assert ([s[0]] + t)[k] == s[0];
        }
      }
    }
  }

  lemma {:induction false} InsertAscending(x: real, s: seq<real>)
    requires Ascending(s)
    ensures Ascending(InsertAsc(x, s))
  {
    var r := InsertAsc(x, s);
    if s == [] || x <= s[0] {
      assert r == [x] + s;
      forall i, j | 0 <= i < j < |r| ensures r[i] <= r[j] {
        if i == 0 {
          assert r[j] == s[j - 1];
          assert s[0] <= s[j - 1];
        } else {
          assert r[i] == s[i - 1] && r[j] == s[j - 1];
        }
      }
    } else {
      var tail := s[1..];
      var t := InsertAsc(x, tail);
      assert Ascending(tail) by {
        forall i, j | 0 <= i < j < |tail| ensures tail[i] <= tail[j] {
          assert tail[i] == s[i + 1] && tail[j] == s[j + 1];
        }
      }
      InsertAscending(x, tail);
      assert forall i :: 0 <= i < |tail| ==> s[0] <= tail[i] by {
        forall i | 0 <= i < |tail| ensures s[0] <= tail[i] {
          assert tail[i] == s[i + 1];
        }
      }
      InsertAscAbove(x, tail, s[0]);
      assert r == [s[0]] + t;
      forall i, j | 0 <= i < j < |r| ensures r[i] <= r[j] {
        if i == 0 {
          assert r[j] == t[j - 1];
        } else {
          assert r[i] == t[i - 1] && r[j] == t[j - 1];
        }
      }
    }
  }

  lemma {:induction false} SortAscending(s: seq<real>)
    ensures Ascending(SortAsc(s))
  {
    if s != [] {
      SortAscending(s[1..]);
      InsertAscending(s[0], SortAsc(s[1..]));
    }
  }

  function Sum(s: seq<real>): real
  {
    if s == [] then 0.0 else Sum(s[..|s| - 1]) + s[|s| - 1]
  }

  lemma {:induction false} SumBounds(s: seq<real>, lo: real, hi: real)
    requires forall i :: 0 <= i < |s| ==> lo <= s[i] <= hi
    ensures (|s| as real) * lo <= Sum(s) <= (|s| as real) * hi
    decreases |s|
  {
    if s != [] {
      SumBounds(s[..|s| - 1], lo, hi);
    }
  }

  /** `statistics.median`: the middle element, or the average of the two middle ones. */
  function Median(sorted: seq<real>): real
    requires |sorted| > 0
  {
    var n := |sorted|;
    if n % 2 == 1 then sorted[n / 2] else (sorted[n / 2 - 1] + sorted[n / 2]) / 2.0
  }

  // ---------------------------------------------------------------------------------------------
  // Pulse widths

  datatype PulseAnalysis =
    | NotEnoughEdges
    | Pulses(pulseCount: nat, minWidthMs: real, maxWidthMs: real, meanWidthMs: real,
             medianWidthMs: real, estimatedBaud: real, widths: seq<real>)

  /** The time from each edge to the next. */
  function Widths(edges: seq<Edge>): (w: seq<real>)
    ensures |w| == if |edges| < 2 then 0 else |edges| - 1
    ensures forall i :: 0 <= i < |w| ==> w[i] == edges[i + 1].time - edges[i].time
  {
    if |edges| < 2 then []
    else
      var n := |edges|;
      Widths(edges[..n - 1]) + [edges[n - 1].time - edges[n - 2].time]
  }

  lemma WidthsStep(edges: seq<Edge>, i: nat)
    requires i + 1 < |edges|
    ensures Widths(edges[..i + 2]) == Widths(edges[..i + 1]) + [edges[i + 1].time - edges[i].time]
  {
    assert edges[..i + 2][..i + 1] == edges[..i + 1];
  }

  /** The summary `analyze_pulse_widths` builds from the widths with `sorted`,
      `statistics.mean` and `statistics.median`, in milliseconds. */
  function Statistics(widths: seq<real>): PulseAnalysis
    requires |widths| > 0
  {
    var sorted := SortAsc(widths);
    var minW, maxW := sorted[0], sorted[|sorted| - 1];
    Pulses(|widths|, minW * 1000.0, maxW * 1000.0, Sum(widths) / (|widths| as real) * 1000.0,
           Median(sorted) * 1000.0, if minW > 0.0 then 1.0 / minW else 0.0, widths)
  }

  /** What `analyze_pulse_widths` returns. */
  function PulseAnalysisOf(edges: seq<Edge>): PulseAnalysis
  {
    if |edges| < 2 then NotEnoughEdges else Statistics(Widths(edges))
  }

  /** `analyze_pulse_widths`. With two or more edges there is always a width, so its "No
      pulse widths calculated" branch cannot be taken. */
  method AnalyzePulseWidths(edges: seq<Edge>) returns (a: PulseAnalysis)
    ensures a == PulseAnalysisOf(edges)
  {
    if |edges| < 2 {
      return NotEnoughEdges;
    }
    var widths: seq<real> := [];
    var i := 0;
    while i < |edges| - 1
      invariant 0 <= i <= |edges| - 1
      invariant widths == Widths(edges[..i + 1])
    {
      WidthsStep(edges, i);
      var width := edges[i + 1].time - edges[i].time;
      widths := widths + [width];
      i := i + 1;
    }
    assert edges[..i + 1] == edges;
    a := Statistics(widths);
  }

  /** The ends of the sorted widths bound every width and are widths themselves. */
  lemma SortedEnds(widths: seq<real>)
    requires |widths| > 0
    ensures var sorted := SortAsc(widths);
      && (forall i :: 0 <= i < |widths| ==> sorted[0] <= widths[i] <= sorted[|sorted| - 1])
      && sorted[0] in widths && sorted[|sorted| - 1] in widths
  {
    var sorted := SortAsc(widths);
    SortAscending(widths);
    SortAscPermutes(widths);
    forall i | 0 <= i < |widths| ensures sorted[0] <= widths[i] <= sorted[|sorted| - 1] {
      assert widths[i] in multiset(sorted);
      var j :| 0 <= j < |sorted| && sorted[j] == widths[i];
    }
    assert sorted[0] in multiset(widths);
    assert sorted[|sorted| - 1] in multiset(widths);
  }

  lemma MedianBetween(sorted: seq<real>)
    requires |sorted| > 0 && Ascending(sorted)
    ensures sorted[0] <= Median(sorted) <= sorted[|sorted| - 1]
  {
  }

  /** Sorted widths: the first and last are a minimum and a maximum among the widths, and
      the mean and the median lie between them. */
  lemma WidthStatistics(widths: seq<real>)
    requires |widths| > 0
    ensures var sorted := SortAsc(widths);
      var minW, maxW := sorted[0], sorted[|sorted| - 1];
      && (forall i :: 0 <= i < |widths| ==> minW <= widths[i] <= maxW)
      && minW in widths && maxW in widths
      && minW <= Median(sorted) <= maxW
      && minW <= Sum(widths) / (|widths| as real) <= maxW
  {
    var sorted := SortAsc(widths);
    SortedEnds(widths);
    SortAscending(widths);
    MedianBetween(sorted);
    MeanBounds(widths, sorted[0], sorted[|sorted| - 1]);
  }

  /** The statistics mean what their names say: the minimum and maximum are widths bounding
      all others, the mean and median lie between them, and the baud estimate is the
      inverse of the shortest pulse. */
  lemma StatisticsMeaning(widths: seq<real>)
    requires |widths| > 0
    ensures var a := Statistics(widths);
      && a.Pulses? && a.pulseCount == |a.widths| && a.widths == widths
      && (forall i :: 0 <= i < |widths| ==> a.minWidthMs <= widths[i] * 1000.0 <= a.maxWidthMs)
      && (exists i :: 0 <= i < |widths| && a.minWidthMs == widths[i] * 1000.0)
      && (exists i :: 0 <= i < |widths| && a.maxWidthMs == widths[i] * 1000.0)
      && a.minWidthMs <= a.medianWidthMs <= a.maxWidthMs
      && a.minWidthMs <= a.meanWidthMs <= a.maxWidthMs
      && a.estimatedBaud == if a.minWidthMs > 0.0 then 1000.0 / a.minWidthMs else 0.0
  {
    var a := Statistics(widths);
    WidthStatistics(widths);
    var sorted := SortAsc(widths);
    var minW, maxW := sorted[0], sorted[|sorted| - 1];
    assert a.minWidthMs == minW * 1000.0 && a.maxWidthMs == maxW * 1000.0;
    assert a.medianWidthMs == Median(sorted) * 1000.0;
    assert a.meanWidthMs == Sum(widths) / (|widths| as real) * 1000.0;
    assert a.estimatedBaud == if minW > 0.0 then 1.0 / minW else 0.0;
    var lo :| 0 <= lo < |widths| && widths[lo] == minW;
    var hi :| 0 <= hi < |widths| && widths[hi] == maxW;
    if minW > 0.0 {
      assert 1000.0 / (minW * 1000.0) == 1.0 / minW;
    }
  }

  /** With fewer than two edges there is nothing to measure; otherwise there is one width per
      pair of consecutive edges, and the statistics are those of `StatisticsMeaning`. */
  lemma PulseStatistics(edges: seq<Edge>)
    ensures PulseAnalysisOf(edges).NotEnoughEdges? <==> |edges| < 2
    ensures var a := PulseAnalysisOf(edges);
      a.Pulses? ==>
        && a.pulseCount == |edges| - 1 == |a.widths|
        && a == Statistics(a.widths)
        && (forall i :: 0 <= i < |a.widths| ==> a.widths[i] == edges[i + 1].time - edges[i].time)
  {
    if |edges| >= 2 {
      StatisticsMeaning(Widths(edges));
    }
  }

  lemma MeanBounds(s: seq<real>, lo: real, hi: real)
    requires |s| > 0
    requires forall i :: 0 <= i < |s| ==> lo <= s[i] <= hi
    ensures lo <= Sum(s) / (|s| as real) <= hi
  {
    SumBounds(s, lo, hi);
    MeanBetween(Sum(s), |s| as real, lo, hi);
  }

  lemma MeanBetween(sum: real, m: real, lo: real, hi: real)
    requires m > 0.0 && m * lo <= sum <= m * hi
    ensures lo <= sum / m <= hi
  {
    assert sum / m * m == sum;
  }

  // ---------------------------------------------------------------------------------------------
  // Classification

  datatype Layer = Unknown | EnviraCOM | RS485

  datatype Classification = Classification(layer: Layer, confidence: nat, estimatedBaud: Option<int>)

  /** The RS-485 candidates with their bit periods in milliseconds, in table order. */
  const Rs485Rates: seq<(int, real)> :=
    [(9600, 0.104), (19200, 0.052), (38400, 0.026), (57600, 0.017), (115200, 0.0087)]

  function Abs(x: real): real
  {
    if x < 0.0 then -x else x
  }

  /** The table entry whose period is nearest to `widthMs`, the first one on ties: its rate,
      and its position in the table. */
  method NearestRate(widthMs: real) returns (best: int, index: nat)
    ensures index < |Rs485Rates| && best == Rs485Rates[index].0
    ensures forall j :: 0 <= j < |Rs485Rates| ==>
      Abs(widthMs - Rs485Rates[index].1) <= Abs(widthMs - Rs485Rates[j].1)
    ensures forall j :: 0 <= j < index ==>
      Abs(widthMs - Rs485Rates[index].1) < Abs(widthMs - Rs485Rates[j].1)
  {
    var (rate0, period0) := Rs485Rates[0];
    best, index := rate0, 0;
    var bestDiff := Abs(widthMs - period0);
    var k := 1;
    while k < |Rs485Rates|
      invariant 1 <= k <= |Rs485Rates| && index < k
      invariant best == Rs485Rates[index].0 && bestDiff == Abs(widthMs - Rs485Rates[index].1)
      invariant forall j :: 0 <= j < k ==> bestDiff <= Abs(widthMs - Rs485Rates[j].1)
      invariant forall j :: 0 <= j < index ==> bestDiff < Abs(widthMs - Rs485Rates[j].1)
    {
      var (rate, period) := Rs485Rates[k];
      var diff := Abs(widthMs - period);
      if diff < bestDiff {
        best, index, bestDiff := rate, k, diff;
      }
      k := k + 1;
    }
  }

  /** `int(x)` for a non-negative float. */
  function Truncate(x: real): int
  {
    if x >= 0.0 then x.Floor else -((-x).Floor)
  }

  /** `classify_physical_layer`, with the nearest-rate search done by `NearestRate`. */
  method ClassifyPhysicalLayer(a: PulseAnalysis) returns (c: Classification)
    ensures a.NotEnoughEdges? ==> c == Classification(Unknown, 0, None)
    ensures a.Pulses? && 6.0 < a.minWidthMs < 12.0 ==> c == Classification(EnviraCOM, 90, Some(120))
    ensures a.Pulses? && !(6.0 < a.minWidthMs < 12.0) && a.minWidthMs < 1.0 ==>
      c.layer == RS485 && c.confidence == 80 && c.estimatedBaud.Some? &&
      exists i :: 0 <= i < |Rs485Rates| && c.estimatedBaud.value == Rs485Rates[i].0 &&
        (forall j :: 0 <= j < |Rs485Rates| ==>
           Abs(a.minWidthMs - Rs485Rates[i].1) <= Abs(a.minWidthMs - Rs485Rates[j].1)) &&
        (forall j :: 0 <= j < i ==>
           Abs(a.minWidthMs - Rs485Rates[i].1) < Abs(a.minWidthMs - Rs485Rates[j].1))
    ensures a.Pulses? && !(6.0 < a.minWidthMs < 12.0) && a.minWidthMs >= 1.0 ==>
      c == Classification(Unknown, 30, Some(Truncate(a.estimatedBaud)))
    ensures c.confidence in {0, 30, 80, 90}
  {
    if a.NotEnoughEdges? {
      return Classification(Unknown, 0, None);
    }
    var minWidth := a.minWidthMs;
    if 6.0 < minWidth < 12.0 {
      return Classification(EnviraCOM, 90, Some(120));
    }
    if minWidth < 1.0 {
      var best, index := NearestRate(minWidth);
      return Classification(RS485, 80, Some(best));
    }
    return Classification(Unknown, 30, Some(Truncate(a.estimatedBaud)));
  }

  // ---------------------------------------------------------------------------------------------
  // AC synchronisation

  /** The guard of `check_ac_synchronization`: edges are found at the fixed threshold 0.5,
      whatever threshold the caller used elsewhere, and fewer than 10 of them mean "not
      synchronized". `Some(edges)` hands the edges on to the phase test. */
  method AcSynchronizationEdges(samples: seq<Sample>) returns (r: Option<seq<Edge>>)
    requires |samples| > 0
    ensures r.None? <==> |ChangePoints(samples, 0.5, |samples|)| < 10
    ensures r.Some? ==> r.value == ChangePoints(samples, 0.5, |samples|)
  {
    var edges := FindEdges(samples, 0.5);
    if |edges| < 10 {
      return None;
    }
    return Some(edges);
  }
}
