/** Baud-rate detection: a sample read at each candidate rate is scored by how much it looks
    like framed traffic (little 0x00/0xFF noise, some printable bytes, a repeated window of a
    plausible packet size), the catalogue is probed in order until a good score, and the
    best-scoring rate is reported. */
module BaudRate {
  import opened Wrappers
  import opened ByteSeq
  import opened Selection
  import Ranking

  const CommonBaudRates: seq<nat> := [9600, 19200, 38400, 57600, 115200, 4800, 2400, 1200]

  /** The window lengths searched for a repeat ("common packet sizes"). */
  const PatternLengths: seq<nat> := [10, 12, 14, 16]

  const GoodScore: int := 80
  const LowConfidence: int := 50

  // ---------------------------------------------------------------------------------------------
  // Byte statistics

  predicate PrintableByte(b: Byte)
  {
    32 <= b < 127
  }

  /** `sum(1 for b in data if 32 <= b < 127)`. */
  function PrintableCount(data: seq<Byte>): nat
  {
    |Filter(data, PrintableByte)|
  }

  /** `data.count(0x00) + data.count(0xFF)`. */
  function NoiseCount(data: seq<Byte>): nat
  {
    multiset(data)[0] + multiset(data)[255]
  }

  /** Both counts are at most the length, so both ratios lie in [0, 1]. */
  lemma {:induction false} CountsBounded(data: seq<Byte>)
    ensures PrintableCount(data) <= |data|
    ensures NoiseCount(data) <= |data|
    decreases |data|
  {
    if data != [] {
      var d', b := data[..|data| - 1], data[|data| - 1];
      assert data == d' + [b];
      CountsBounded(d');
    }
  }

  /** `noise_ratio > 0.3`, exactly on the counts. */
  predicate Noisy(noise: nat, n: nat)
  {
    10 * noise > 3 * n
  }

  /** `0.05 < printable_ratio < 0.5`, exactly on the counts. */
  predicate SomeAscii(printable: nat, n: nat)
  {
    n < 20 * printable && 2 * printable < n
  }

  // ---------------------------------------------------------------------------------------------
  // Repeated windows

  /** The `len` bytes at `i` are repeated right after themselves. */
  predicate RepeatsAt(data: seq<Byte>, len: nat, i: int)
  {
    0 <= i && i + 2 * len <= |data| && data[i..i + len] == data[i + len..i + 2 * len]
  }

  /** What `has_patterns` finds: for one of the window lengths, a repeat at an offset in
      `range(len(data) - 2 * len)`. That range stops one short of the last offset at which
      the two windows fit. */
  ghost predicate HasRepeat(data: seq<Byte>)
  {
    exists j, i :: 0 <= j < |PatternLengths| && 0 <= i < |data| - 2 * PatternLengths[j] &&
      RepeatsAt(data, PatternLengths[j], i)
  }

  /** The nested search of `analyze_data_quality`, leaving the inner loop at the first hit. */
  method HasPatterns(data: seq<Byte>) returns (found: bool)
    ensures found <==> HasRepeat(data)
  {
    found := false;
    var k := 0;
    while k < |PatternLengths|
      invariant 0 <= k <= |PatternLengths|
      invariant found <==>
        exists j, i :: 0 <= j < k && 0 <= i < |data| - 2 * PatternLengths[j] &&
                       RepeatsAt(data, PatternLengths[j], i)
    {
      var len := PatternLengths[k];
      var i := 0;
      while i < |data| - 2 * len
        invariant 0 <= i
        invariant found <==>
          (exists j, i' :: 0 <= j < k && 0 <= i' < |data| - 2 * PatternLengths[j] &&
             RepeatsAt(data, PatternLengths[j], i')) ||
          (exists i' :: 0 <= i' < i && RepeatsAt(data, len, i'))
      {
        if data[i..i + len] == data[i + len..i + len * 2] {
          assert RepeatsAt(data, len, i);
          found := true;
          break;
        }
        i := i + 1;
      }
      k := k + 1;
    }
  }

  // ---------------------------------------------------------------------------------------------
  // Score and reason

  datatype Cause = HighNoise | RepeatingPatterns | SomeAsciiText

  /** The verdict of `analyze_data_quality`: scored data, or nothing received. */
  datatype Quality =
    | NoData
    | Assessed(length: nat, printable: nat, noise: nat, hasPatterns: bool, score: int,
               causes: seq<Cause>)

  function Score(q: Quality): int
  {
    if q.NoData? then 0 else q.score
  }

  function Clamp(x: int): (r: int)
    ensures 0 <= r <= 100
    ensures 0 <= x <= 100 ==> r == x
  {
    if x < 0 then 0 else if x > 100 then 100 else x
  }

  /** The triggered conditions, in the order the reason lists them. */
  function Causes(noisy: bool, patterns: bool, ascii: bool): (r: seq<Cause>)
    ensures HighNoise in r <==> noisy
    ensures RepeatingPatterns in r <==> patterns
    ensures SomeAsciiText in r <==> ascii
    ensures forall i, j :: 0 <= i < j < |r| ==> CauseRank(r[i]) < CauseRank(r[j])
  {
    (if noisy then [HighNoise] else []) + (if patterns then [RepeatingPatterns] else [])
      + (if ascii then [SomeAsciiText] else [])
  }

  function CauseRank(c: Cause): nat
  {
    match c
    case HighNoise => 0
    case RepeatingPatterns => 1
    case SomeAsciiText => 2
  }

  /** The assessment `analyze_data_quality` returns. */
  ghost function QualityOf(data: seq<Byte>): Quality
  {
    if data == [] then NoData
    else
      var n, printable, noise := |data|, PrintableCount(data), NoiseCount(data);
      var noisy, ascii, patterns := Noisy(noise, n), SomeAscii(printable, n), HasRepeat(data);
      var raw := 50 - (if noisy then 30 else 0) + (if ascii then 20 else 0)
                    + (if patterns then 30 else 0);
      Assessed(n, printable, noise, patterns, Clamp(raw), Causes(noisy, patterns, ascii))
  }

  /** `analyze_data_quality`: the score is built up step by step from 50, then clamped. */
  method AnalyzeDataQuality(data: seq<Byte>) returns (q: Quality)
    ensures q == QualityOf(data)
  {
    if |data| == 0 {
      return NoData;
    }
    var printable := PrintableCount(data);
    var noise := NoiseCount(data);
    var n := |data|;
    var patterns := HasPatterns(data);
    var score := 50;
    if 10 * noise > 3 * n {
      score := score - 30;
    }
    if n < 20 * printable && 2 * printable < n {
      score := score + 20;
    }
    if patterns {
      score := score + 30;
    }
    var causes: seq<Cause> := [];
    if 10 * noise > 3 * n {
      causes := causes + [HighNoise];
    }
    if patterns {
      causes := causes + [RepeatingPatterns];
    }
    if n < 20 * printable && 2 * printable < n {
      causes := causes + [SomeAsciiText];
    }
    q := Assessed(n, printable, noise, patterns, Clamp(score), causes);
  }

  /** Empty data scores 0; other data scores one of six values, all in [0, 100]. */
  lemma ScoreValues(data: seq<Byte>)
    ensures data == [] ==> Score(QualityOf(data)) == 0
    ensures data != [] ==> Score(QualityOf(data)) in {20, 40, 50, 70, 80, 100}
    ensures 0 <= Score(QualityOf(data)) <= 100
  {
  }

  /** A good score needs a repeated window and little noise, and they suffice. */
  lemma GoodScoreMeans(data: seq<Byte>)
    requires data != []
    ensures Score(QualityOf(data)) >= GoodScore
        <==> HasRepeat(data) && !Noisy(NoiseCount(data), |data|)
  {
  }

  // ---------------------------------------------------------------------------------------------
  // Reason text

  /** Python's `f"{k / n:.0%}"`, on the exact ratio, with ties to even. */
  function Percent(k: nat, n: nat): string
    requires n > 0
  {
    var q, r := (100 * k) / n, (100 * k) % n;
    var rounded := if 2 * r > n || (2 * r == n && q % 2 == 1) then q + 1 else q;
    Decimal(rounded) + "%"
  }

  function CauseText(c: Cause, n: nat, printable: nat, noise: nat): (t: string)
    requires n > 0
    ensures |t| > 0 && t[0] != 'I' && t[0] != 'N' && ',' !in t
  {
    match c
    case HighNoise => "High noise (" + Percent(noise, n) + " 0x00/0xFF)"
    case RepeatingPatterns => "Repeating patterns found"
    case SomeAsciiText => "Some ASCII (" + Percent(printable, n) + ")"
  }

  function CauseTexts(cs: seq<Cause>, n: nat, printable: nat, noise: nat): (r: seq<string>)
    requires n > 0
    ensures |r| == |cs|
    ensures forall i :: 0 <= i < |cs| ==> r[i] == CauseText(cs[i], n, printable, noise)
  {
    if cs == [] then [] else [CauseText(cs[0], n, printable, noise)] + CauseTexts(cs[1..], n, printable, noise)
  }

  /** The `reason` string: "No data received" for an empty sample and for no other; for an
      assessed sample, "Inconclusive" exactly when no condition triggered; otherwise it begins with the first condition's text, and splitting it at the
      commas gives back every condition's text in order, each after the first with the space
      of the ", " separator in front. */
  function Reason(q: Quality): (r: string)
    ensures q.NoData? <==> r == "No data received"
    ensures q.Assessed? && q.length > 0 ==> (r == "Inconclusive" <==> q.causes == [])
    ensures q.Assessed? && q.length > 0 && q.causes != [] ==>
      && CauseText(q.causes[0], q.length, q.printable, q.noise) <= r
      && Split(r, ',') ==
           [CauseText(q.causes[0], q.length, q.printable, q.noise)] +
           Prefixed(" ", CauseTexts(q.causes[1..], q.length, q.printable, q.noise))
  {
    if q.NoData? then "No data received"
    else if q.length == 0 then "Inconclusive"
    else if q.causes == [] then "Inconclusive"
    else
      var texts := CauseTexts(q.causes, q.length, q.printable, q.noise);
      ReasonSplits(texts);
      Join(texts, ", ")
  }

  /** The pieces of a joined list of condition texts. */
  lemma ReasonSplits(texts: seq<string>)
    requires |texts| >= 1
    requires forall i :: 0 <= i < |texts| ==> |texts[i]| > 0 && texts[i][0] != 'I' && texts[i][0] != 'N' && ',' !in texts[i]
    ensures var r := Join(texts, ", ");
      && texts[0] <= r
      && r != "Inconclusive"
      && r != "No data received"
      && Split(r, ',') == [texts[0]] + Prefixed(" ", texts[1..])
  {
    assert ", " == [','] + " ";
    SplitSpaced(texts, ',', " ");
    JoinStarts(texts, ", ");
  }

  /** An empty sample is reported as "No data received", and only an empty one; for a real
      sample the reason names exactly the triggered conditions, in order. */
  lemma ReasonMeaning(data: seq<Byte>)
    ensures Reason(QualityOf(data)) == "No data received" <==> data == []
    ensures data != [] ==> var q := QualityOf(data);
      && (Reason(q) == "Inconclusive" <==> q.causes == [])
      && (q.causes != [] ==>
           Split(Reason(q), ',') ==
             [CauseText(q.causes[0], |data|, q.printable, q.noise)] +
             Prefixed(" ", CauseTexts(q.causes[1..], |data|, q.printable, q.noise)))
  {
  }

  // ---------------------------------------------------------------------------------------------
  // Probing the catalogue

  datatype ProbeResult = ProbeResult(baud: nat, bytes: nat, data: seq<Byte>, quality: Quality)

  // The probe loop is stated for any assessment `assess` of a sample; `main` uses
  // `QualityOf`, which `AnalyzeDataQuality` computes.

  /** A sample that makes `main` stop probing. */
  ghost predicate GoodSample(data: seq<Byte>, assess: seq<Byte> -> Quality)
  {
    data != [] && Score(assess(data)) >= GoodScore
  }

  /** The results kept after probing the first `k` rates: one per rate that returned data. */
  ghost function Kept(samples: seq<seq<Byte>>, k: nat, assess: seq<Byte> -> Quality)
    : seq<ProbeResult>
    requires k <= |samples| <= |CommonBaudRates|
  {
    if k == 0 then []
    else
      var data := samples[k - 1];
      Kept(samples, k - 1, assess)
        + if data != [] then [ProbeResult(CommonBaudRates[k - 1], |data|, data, assess(data))]
          else []
  }

  /** How many rates are probed from the `k`-th on: all of them with `try_all`, else up to
      and including the first good one, or all of them when none is good. */
  ghost function Probed(samples: seq<seq<Byte>>, tryAll: bool, k: nat,
                        assess: seq<Byte> -> Quality): (r: nat)
    requires k <= |samples| == |CommonBaudRates|
    ensures k <= r <= |samples|
    decreases |samples| - k
  {
    if tryAll || k == |samples| then |samples|
    else if GoodSample(samples[k], assess) then k + 1
    else Probed(samples, tryAll, k + 1, assess)
  }

  /** With `try_all` every rate is probed; without it, no rate before the last one probed is
      good, and probing ends before the end of the catalogue only on a good rate. */
  lemma {:induction false} ProbedStops(samples: seq<seq<Byte>>, tryAll: bool, k: nat,
                                       assess: seq<Byte> -> Quality)
    requires k <= |samples| == |CommonBaudRates|
    ensures var r := Probed(samples, tryAll, k, assess);
      && (tryAll ==> r == |samples|)
      && (!tryAll ==> forall j :: k <= j < r - 1 ==> !GoodSample(samples[j], assess))
      && (!tryAll && r < |samples| ==> k < r && GoodSample(samples[r - 1], assess))
    decreases |samples| - k
  {
    if !tryAll && k < |samples| && !GoodSample(samples[k], assess) {
      ProbedStops(samples, tryAll, k + 1, assess);
    }
  }

  /** The probe loop of `main`. `samples[k]` is what reading at `CommonBaudRates[k]`
      returns; the reading itself is not part of this model. */
  method Probe(samples: seq<seq<Byte>>, tryAll: bool) returns (results: seq<ProbeResult>)
    requires |samples| == |CommonBaudRates|
    ensures results == Kept(samples, Probed(samples, tryAll, 0, QualityOf), QualityOf)
  {
    results := [];
    var k := 0;
    ghost var assess := QualityOf;
    while k < |CommonBaudRates|
      invariant 0 <= k <= |samples|
      invariant results == Kept(samples, k, assess)
      invariant Probed(samples, tryAll, 0, assess) == Probed(samples, tryAll, k, assess)
    {
      var data := samples[k];
      ghost var kept := Kept(samples, k + 1, assess);
      assert kept == results + if data != [] then [ProbeResult(CommonBaudRates[k], |data|, data, assess(data))] else [];
      if |data| > 0 {
        var analysis := AnalyzeDataQuality(data);
        assert analysis == assess(data);
        results := results + [ProbeResult(CommonBaudRates[k], |data|, data, analysis)];
        if Score(analysis) >= GoodScore && !tryAll {
          assert Probed(samples, tryAll, k, assess) == k + 1;
          k := k + 1;
          break;
        }
      }
      assert Probed(samples, tryAll, k, assess) == Probed(samples, tryAll, k + 1, assess);
      k := k + 1;
    }
  }

  /** The position of a rate in the catalogue. */
  function RateIndex(baud: nat): nat
  {
    if baud == 9600 then 0 else if baud == 19200 then 1 else if baud == 38400 then 2
    else if baud == 57600 then 3 else if baud == 115200 then 4 else if baud == 4800 then 5
    else if baud == 2400 then 6 else 7
  }

  lemma RateIndexOf(k: nat)
    requires k < |CommonBaudRates|
    ensures RateIndex(CommonBaudRates[k]) == k
  {
  }

  /** What probing keeps: only rates that returned data, in catalogue order, each with the
      assessment of its own sample; with data at every rate, one result per rate. */
  lemma {:induction false} KeptResults(samples: seq<seq<Byte>>, k: nat,
                                       assess: seq<Byte> -> Quality)
    requires k <= |samples| <= |CommonBaudRates|
    ensures var r := Kept(samples, k, assess);
      forall i :: 0 <= i < |r| ==>
        var j := RateIndex(r[i].baud);
        j < k && r[i].baud == CommonBaudRates[j] && r[i].data == samples[j] &&
        r[i].bytes == |r[i].data| > 0 && r[i].quality == assess(r[i].data)
    ensures var r := Kept(samples, k, assess);
      forall i, i' :: 0 <= i < i' < |r| ==> RateIndex(r[i].baud) < RateIndex(r[i'].baud)
    ensures (forall j :: 0 <= j < k ==> samples[j] != []) ==> |Kept(samples, k, assess)| == k
  {
    if k > 0 {
      KeptResults(samples, k - 1, assess);
      RateIndexOf(k - 1);
    }
  }

  /** Some result is for rate `baud`. */
  ghost predicate HasResultFor(r: seq<ProbeResult>, baud: nat)
  {
    exists i :: 0 <= i < |r| && r[i].baud == baud
  }

  /** Every rate among the first `k` that returned data has a result. */
  lemma {:induction false} KeptEveryRate(samples: seq<seq<Byte>>, k: nat,
                                         assess: seq<Byte> -> Quality)
    requires k <= |samples| <= |CommonBaudRates|
    ensures forall j :: 0 <= j < k && samples[j] != [] ==>
      HasResultFor(Kept(samples, k, assess), CommonBaudRates[j])
  {
    if k > 0 {
      KeptEveryRate(samples, k - 1, assess);
      var r0 := Kept(samples, k - 1, assess);
      var r := Kept(samples, k, assess);
      var data := samples[k - 1];
      assert r == r0 + if data != [] then [ProbeResult(CommonBaudRates[k - 1], |data|, data, assess(data))]
                       else [];
      forall j | 0 <= j < k && samples[j] != [] ensures HasResultFor(r, CommonBaudRates[j]) {
        if j == k - 1 {
          assert r[|r0|].baud == CommonBaudRates[j];
        } else {
          assert HasResultFor(r0, CommonBaudRates[j]);
          var i :| 0 <= i < |r0| && r0[i].baud == CommonBaudRates[j];
          assert r[i] == r0[i];
        }
      }
    }
  }

  /** Without `try_all`, only the last result can be good: probing stops at the first one. */
  lemma {:induction false} StopsAtFirstGood(samples: seq<seq<Byte>>, k: nat,
                                            assess: seq<Byte> -> Quality)
    requires k <= |samples| == |CommonBaudRates|
    requires forall j :: 0 <= j < k ==> !GoodSample(samples[j], assess)
    ensures var r := Kept(samples, Probed(samples, false, k, assess), assess);
      forall i :: 0 <= i < |r| - 1 ==> Score(r[i].quality) < GoodScore
    decreases |samples| - k
  {
    if k < |samples| && !GoodSample(samples[k], assess) {
      assert Probed(samples, false, k, assess) == Probed(samples, false, k + 1, assess);
      StopsAtFirstGood(samples, k + 1, assess);
      var m := Probed(samples, false, k + 1, assess);
      assert forall i :: 0 <= i < |Kept(samples, m, assess)| - 1 ==>
        Score(Kept(samples, m, assess)[i].quality) < GoodScore;
    } else if k < |samples| {
      NoGoodBefore(samples, k, assess);
    } else {
      KeptResults(samples, k, assess);
      var r := Kept(samples, k, assess);
      forall i | 0 <= i < |r| ensures Score(r[i].quality) < GoodScore {
        assert !GoodSample(samples[RateIndex(r[i].baud)], assess);
      }
    }
  }

  /** No result among the first `k` rates is good, so after one more only the last can be. */
  lemma {:induction false} NoGoodBefore(samples: seq<seq<Byte>>, k: nat,
                                        assess: seq<Byte> -> Quality)
    requires k < |samples| <= |CommonBaudRates|
    requires forall j :: 0 <= j < k ==> !GoodSample(samples[j], assess)
    ensures var r := Kept(samples, k + 1, assess);
      forall i :: 0 <= i < |r| - 1 ==> Score(r[i].quality) < GoodScore
  {
    KeptResults(samples, k, assess);
    var r0 := Kept(samples, k, assess);
    var r := Kept(samples, k + 1, assess);
    assert r[..|r0|] == r0;
    forall i | 0 <= i < |r| - 1 ensures Score(r[i].quality) < GoodScore {
      assert r[i] == r0[i];
      assert !GoodSample(samples[RateIndex(r0[i].baud)], assess);
    }
  }

  // ---------------------------------------------------------------------------------------------
  // Best match

  function ResultScore(r: ProbeResult): int
  {
    Score(r.quality)
  }

  /** The summary: the best result (first after a stable sort by descending score) and
      whether its score is low enough for a warning; nothing without results. */
  function Best(results: seq<ProbeResult>): (r: Option<(ProbeResult, bool)>)
    ensures r.None? <==> results == []
    ensures r.Some? ==> r.value.0 in results
  {
    if results == [] then None
    else
      var sorted := Ranking.SortDesc(results, ResultScore);
      Ranking.SortPermutes(results, ResultScore);
      assert sorted[0] in multiset(results);
      Some((sorted[0], ResultScore(sorted[0]) < LowConfidence))
  }

  /** The best match scores at least as much as every result and more than every result
      probed before it. */
  lemma BestIsEarliestMaximum(results: seq<ProbeResult>)
    ensures Best(results).None? <==> results == []
    ensures results != [] ==>
      exists i :: 0 <= i < |results| && Best(results).value.0 == results[i] &&
        (forall j :: 0 <= j < |results| ==> ResultScore(results[j]) <= ResultScore(results[i])) &&
        (forall j :: 0 <= j < i ==> ResultScore(results[j]) < ResultScore(results[i])) &&
        (Best(results).value.1 <==> ResultScore(results[i]) < LowConfidence)
  {
    if results != [] {
      var i := Ranking.SortHead(results, ResultScore);
    }
  }
}
