/** The replay tool: a capture file is loaded as `(timestamp, data)` pairs, and one packet or
    a range of packets is written back to the bus, waiting between packets as long as they
    were apart when captured. What reaches the bus and the clock is recorded as a trace of
    actions; the serial port itself is reduced to a "connected" flag. */
module Replay {
  import opened Wrappers
  import opened ByteSeq
  import opened CaptureFormat
  import opened Selection

  /** A loaded packet: its timestamp (the unpacked double) and its bytes. */
  type Loaded = (real, seq<Byte>)

  datatype Action = Sleep(seconds: real) | Write(data: seq<Byte>)

  /** The records of a capture file as `load_capture` stores them. */
  function Unpack(recs: seq<Record>, unpackTime: Stamp -> real): (ps: seq<Loaded>)
    ensures |ps| == |recs|
    ensures forall i :: 0 <= i < |recs| ==> ps[i] == (unpackTime(recs[i].stamp), recs[i].data)
  {
    if recs == [] then []
    else
      var n := |recs|;
      Unpack(recs[..n - 1], unpackTime) + [(unpackTime(recs[n - 1].stamp), recs[n - 1].data)]
  }

  lemma UnpackSnoc(recs: seq<Record>, r: Record, unpackTime: Stamp -> real)
    ensures Unpack(recs + [r], unpackTime) == Unpack(recs, unpackTime) + [(unpackTime(r.stamp), r.data)]
  {
    assert (recs + [r])[..|recs|] == recs;
  }

  /** Capture and replay agree on the file: loading the bytes the capture tool writes for some
      frames gives back those frames, in order, with their timestamps. */
  lemma LoadsWhatWasCaptured(frames: seq<Record>, unpackTime: Stamp -> real)
    requires Encodable(frames)
    ensures var ps := Unpack(ParseRecords(Serialize(frames)), unpackTime);
      |ps| == |frames| &&
      forall i :: 0 <= i < |frames| ==> ps[i] == (unpackTime(frames[i].stamp), frames[i].data)
  {
    ParseSerialize(frames);
  }

  // ---------------------------------------------------------------------------------------------
  // What a replay does

  /** `replay_single`: one write when the index is valid and the port is open. */
  function SingleActions(packets: seq<Loaded>, index: int, connected: bool): (r: seq<Action>)
    ensures |r| <= 1
    ensures r != [] <==> 0 <= index < |packets| && connected
    ensures r != [] ==> r == [Write(packets[index].1)]
  {
    if 0 <= index < |packets| && connected then [Write(packets[index].1)] else []
  }

  /** The time between packet `i` and the one before it. */
  function Gap(packets: seq<Loaded>, i: int): real
    requires 0 < i < |packets|
  {
    packets[i].0 - packets[i - 1].0
  }

  /** The actions for packet `i` of a sequence starting at `start`: a wait when timing is
      preserved, this is not the first packet and the gap is positive; then the write if the
      port is open. */
  function PacketActions(packets: seq<Loaded>, start: int, i: int, preserve: bool, connected: bool): seq<Action>
    requires 0 <= start <= i < |packets|
  {
    (if preserve && i > start && Gap(packets, i) > 0.0 then [Sleep(Gap(packets, i))] else [])
      + (if connected then [Write(packets[i].1)] else [])
  }

  /** The actions for packets `start` up to but not including `k`. */
  function Steps(packets: seq<Loaded>, start: int, k: int, preserve: bool, connected: bool): seq<Action>
    requires 0 <= start && k <= |packets|
    decreases k
  {
    if k <= start then []
    else Steps(packets, start, k - 1, preserve, connected) + PacketActions(packets, start, k - 1, preserve, connected)
  }

  /** `replay_sequence` as intended: nothing for a range reaching outside the capture, and
      otherwise the actions of `range(start, end)`, which is empty when `start >= end`. */
  function ReplayPlan(packets: seq<Loaded>, start: int, end: int, preserve: bool, connected: bool)
    : (plan: seq<Action>)
    ensures start < 0 || end > |packets| || end <= start ==> plan == []
  {
    if start < 0 || end > |packets| then [] else Steps(packets, start, end, preserve, connected)
  }

  /** `replay_sequence` as written: with a valid-looking range whose start is at or past the
      last packet (say an empty capture and the default range 0 to 0), reading the first
      timestamp indexes out of the list, which raises `IndexError` (`None` here). */
  function ReplaySequenceAsWritten(packets: seq<Loaded>, start: int, end: int, preserve: bool, connected: bool)
    : Option<seq<Action>>
  {
    if start < 0 || end > |packets| then Some([])
    else if start >= |packets| then None
    else Some(Steps(packets, start, end, preserve, connected))
  }

  /** Replaying an empty capture over its whole (empty) range raises, where nothing should
      happen. */
  lemma EmptyCaptureReplayRaises()
    ensures ReplaySequenceAsWritten([], 0, 0, true, true) == None
    ensures ReplayPlan([], 0, 0, true, true) == []
  {
  }

  /** The code raises exactly on ranges inside the capture that start at or past its end (all
      of them empty), and otherwise does what the intended plan says. */
  lemma AsWrittenAgrees(packets: seq<Loaded>, start: int, end: int, preserve: bool, connected: bool)
    ensures ReplaySequenceAsWritten(packets, start, end, preserve, connected).None? <==>
      0 <= start && end <= |packets| && start >= |packets|
    ensures ReplaySequenceAsWritten(packets, start, end, preserve, connected).None? ==>
      end <= start && ReplayPlan(packets, start, end, preserve, connected) == []
    ensures ReplaySequenceAsWritten(packets, start, end, preserve, connected).Some? ==>
      ReplaySequenceAsWritten(packets, start, end, preserve, connected).value ==
        ReplayPlan(packets, start, end, preserve, connected)
  {
  }

  /** The data of the writes among some actions, in order. */
  function Writes(actions: seq<Action>): seq<seq<Byte>>
  {
    if actions == [] then []
    else
      var n := |actions|;
      Writes(actions[..n - 1]) + (if actions[n - 1].Write? then [actions[n - 1].data] else [])
  }

  /** The total waiting time of some actions. */
  function TotalSleep(actions: seq<Action>): real
  {
    if actions == [] then 0.0
    else
      var n := |actions|;
      TotalSleep(actions[..n - 1]) + (if actions[n - 1].Sleep? then actions[n - 1].seconds else 0.0)
  }

  lemma {:induction false} WritesConcat(a: seq<Action>, b: seq<Action>)
    ensures Writes(a + b) == Writes(a) + Writes(b)
    decreases |b|
  {
    if b == [] {
      assert a + b == a;
    } else {
      var b' := b[..|b| - 1];
      assert (a + b)[..|a + b| - 1] == a + b';
      WritesConcat(a, b');
    }
  }

  lemma {:induction false} TotalSleepConcat(a: seq<Action>, b: seq<Action>)
    ensures TotalSleep(a + b) == TotalSleep(a) + TotalSleep(b)
    decreases |b|
  {
    if b == [] {
      assert a + b == a;
    } else {
      var b' := b[..|b| - 1];
      assert (a + b)[..|a + b| - 1] == a + b';
      TotalSleepConcat(a, b');
    }
  }

  lemma PacketWrites(packets: seq<Loaded>, start: int, i: int, preserve: bool, connected: bool)
    requires 0 <= start <= i < |packets|
    ensures Writes(PacketActions(packets, start, i, preserve, connected)) ==
      if connected then [packets[i].1] else []
  {
    var w: seq<Action> := if connected then [Write(packets[i].1)] else [];
    var z: seq<Action> := if preserve && i > start && Gap(packets, i) > 0.0 then [Sleep(Gap(packets, i))] else [];
    WritesConcat(z, w);
    assert Writes(z) == [] by {
      if z != [] {
        assert z[..0] == [];
      }
    }
    if connected {
      assert w[..0] == [];
    }
  }

  /** The data of packets `start` to `start + |w| - 1`, in order. */
  predicate WritesFrom(w: seq<seq<Byte>>, packets: seq<Loaded>, start: int)
  {
    forall j :: 0 <= j < |w| ==> 0 <= start + j < |packets| && w[j] == packets[start + j].1
  }

  /** Appending the data of packet `k - 1` to the data of packets `start` to `k - 2`. */
  lemma AppendWrite(wb: seq<seq<Byte>>, w: seq<seq<Byte>>, packets: seq<Loaded>, start: int, k: int)
    requires 0 <= start < k <= |packets| && |wb| == k - 1 - start && WritesFrom(wb, packets, start)
    requires w == wb + [packets[k - 1].1]
    ensures WritesFrom(w, packets, start)
  {
  }

  /** The writes for packet `k - 1` come after those for the packets before it. */
  lemma StepsWritesStep(before: seq<Action>, act: seq<Action>, packets: seq<Loaded>, start: int, k: int,
                        preserve: bool, connected: bool)
    requires 0 <= start < k <= |packets|
    requires act == PacketActions(packets, start, k - 1, preserve, connected)
    requires |Writes(before)| == (if connected then k - 1 - start else 0)
    requires WritesFrom(Writes(before), packets, start)
    ensures |Writes(before + act)| == (if connected then k - start else 0)
    ensures WritesFrom(Writes(before + act), packets, start)
  {
    WritesConcat(before, act);
    PacketWrites(packets, start, k - 1, preserve, connected);
    var wb := Writes(before);
    var w := Writes(before + act);
    if connected {
      assert w == wb + [packets[k - 1].1];
      AppendWrite(wb, w, packets, start, k);
    } else {
      assert w == wb;
    }
  }

  /** The writes of `Steps`: the data of packets `start` to `k - 1`, in index order, when the
      port is open. */
  lemma {:induction false} StepsWrites(packets: seq<Loaded>, start: int, k: int, preserve: bool, connected: bool)
    requires 0 <= start && k <= |packets|
    ensures |Writes(Steps(packets, start, k, preserve, connected))| ==
      (if connected && start < k then k - start else 0)
    ensures WritesFrom(Writes(Steps(packets, start, k, preserve, connected)), packets, start)
    decreases k
  {
    if k > start {
      StepsWrites(packets, start, k - 1, preserve, connected);
      var before := Steps(packets, start, k - 1, preserve, connected);
      var act := PacketActions(packets, start, k - 1, preserve, connected);
      assert Steps(packets, start, k, preserve, connected) == before + act;
      StepsWritesStep(before, act, packets, start, k, preserve, connected);
    } else {
      assert Steps(packets, start, k, preserve, connected) == [];
    }
  }

  /** The bus sees exactly the packets `start` to `end - 1`, in order, when the range is
      valid and the port is open, and nothing otherwise. */
  lemma ReplayWrites(packets: seq<Loaded>, start: int, end: int, preserve: bool, connected: bool)
    ensures var w := Writes(ReplayPlan(packets, start, end, preserve, connected));
      && |w| == (if connected && 0 <= start < end <= |packets| then end - start else 0)
      && forall j :: 0 <= j < |w| ==> w[j] == packets[start + j].1
  {
    if !(start < 0 || end > |packets|) {
      StepsWrites(packets, start, end, preserve, connected);
    }
  }

  /** Every wait is positive, and there are waits only when timing is preserved. */
  predicate WaitsPositive(s: seq<Action>, preserve: bool)
  {
    forall m :: 0 <= m < |s| && s[m].Sleep? ==> preserve && s[m].seconds > 0.0
  }

  /** Every wait is directly followed by a write. */
  predicate WaitsThenWrite(s: seq<Action>)
  {
    forall m :: 0 <= m < |s| && s[m].Sleep? ==> m + 1 < |s| && s[m + 1].Write?
  }

  /** Every wait in `Steps` is positive and only happens when timing is preserved; with the
      port open, a write directly follows each wait and the first action is a write. */
  lemma {:induction false} StepsWaits(packets: seq<Loaded>, start: int, k: int, preserve: bool, connected: bool)
    requires 0 <= start && k <= |packets|
    ensures WaitsPositive(Steps(packets, start, k, preserve, connected), preserve)
    ensures connected ==> WaitsThenWrite(Steps(packets, start, k, preserve, connected))
    ensures connected ==> (Steps(packets, start, k, preserve, connected) == [] <==> k <= start)
    ensures connected && Steps(packets, start, k, preserve, connected) != [] ==>
      Steps(packets, start, k, preserve, connected)[0].Write?
    decreases k
  {
    if k > start {
      StepsWaits(packets, start, k - 1, preserve, connected);
      var before := Steps(packets, start, k - 1, preserve, connected);
      var step := PacketActions(packets, start, k - 1, preserve, connected);
      var s := before + step;
      assert s == Steps(packets, start, k, preserve, connected);
      if k - 1 == start {
        assert before == [] by {
          assert Steps(packets, start, k - 1, preserve, connected) == [];
        }
        assert s == step;
      }
      forall m | 0 <= m < |s| && s[m].Sleep? ensures preserve && s[m].seconds > 0.0 {
        if m >= |before| {
          assert s[m] == step[m - |before|];
        } else {
          assert s[m] == before[m];
        }
      }
      if connected {
        forall m | 0 <= m < |s| && s[m].Sleep? ensures m + 1 < |s| && s[m + 1].Write? {
          if m >= |before| {
            assert s[m] == step[m - |before|];
            assert s[m + 1] == step[m + 1 - |before|];
          } else {
            assert s[m] == before[m];
            assert s[m + 1] == before[m + 1];
          }
        }
        if before != [] {
          assert s[0] == before[0];
        } else {
          assert s == step;
          assert step[0].Write?;
        }
      }
    } else {
      assert Steps(packets, start, k, preserve, connected) == [];
    }
  }

  /** Waits are positive and happen only when timing is preserved; with the port open, the
      first action is a write (no wait before the first packet) and every wait is directly
      followed by a write. */
  lemma ReplayWaits(packets: seq<Loaded>, start: int, end: int, preserve: bool, connected: bool)
    ensures WaitsPositive(ReplayPlan(packets, start, end, preserve, connected), preserve)
    ensures connected ==> WaitsThenWrite(ReplayPlan(packets, start, end, preserve, connected))
    ensures connected && ReplayPlan(packets, start, end, preserve, connected) != [] ==>
      ReplayPlan(packets, start, end, preserve, connected)[0].Write?
  {
    if !(start < 0 || end > |packets|) {
      StepsWaits(packets, start, end, preserve, connected);
    }
  }

  /** The lengths of the waits among some actions, in order. */
  function Delays(actions: seq<Action>): seq<real>
  {
    if actions == [] then []
    else
      var n := |actions|;
      Delays(actions[..n - 1]) + (if actions[n - 1].Sleep? then [actions[n - 1].seconds] else [])
  }

  lemma {:induction false} DelaysConcat(a: seq<Action>, b: seq<Action>)
    ensures Delays(a + b) == Delays(a) + Delays(b)
    decreases |b|
  {
    if b == [] {
      assert a + b == a;
    } else {
      var b' := b[..|b| - 1];
      assert (a + b)[..|a + b| - 1] == a + b';
      DelaysConcat(a, b');
    }
  }

  /** The gaps between neighbouring packets of the range `start` to `end - 1`: entry `j` is
      the gap before packet `start + 1 + j`. */
  function Gaps(packets: seq<Loaded>, start: int, end: int): seq<real>
  {
    if start < 0 || end > |packets| || end <= start + 1 then []
    else seq(end - start - 1, j requires 0 <= j < end - start - 1 => Gap(packets, start + 1 + j))
  }

  predicate Positive(x: real)
  {
    x > 0.0
  }

  /** The waits for packet `i` when timing is preserved: its gap, when that is positive and
      `i` is not the first packet of the range. */
  lemma PacketDelays(packets: seq<Loaded>, start: int, i: int, connected: bool)
    requires 0 <= start <= i < |packets|
    ensures Delays(PacketActions(packets, start, i, true, connected)) ==
      if i > start && Gap(packets, i) > 0.0 then [Gap(packets, i)] else []
  {
    var w: seq<Action> := if connected then [Write(packets[i].1)] else [];
    var z: seq<Action> := if i > start && Gap(packets, i) > 0.0 then [Sleep(Gap(packets, i))] else [];
    DelaysConcat(z, w);
    if z != [] {
      assert z[..0] == [];
    }
    if connected {
      assert w[..0] == [];
    }
  }

  /** One more packet adds the gap before it to the gaps of the range. */
  lemma GapsSnoc(packets: seq<Loaded>, start: int, k: int)
    requires 0 <= start && start + 1 < k <= |packets|
    ensures Gaps(packets, start, k) == Gaps(packets, start, k - 1) + [Gap(packets, k - 1)]
  {
    var a := Gaps(packets, start, k);
    var b := Gaps(packets, start, k - 1) + [Gap(packets, k - 1)];
    assert |a| == |b|;
    forall j | 0 <= j < |a| ensures a[j] == b[j] {
      if j < |a| - 1 {
        assert b[j] == Gaps(packets, start, k - 1)[j];
      }
    }
  }

  /** The positive gaps up to packet `k` are those up to packet `k - 1`, then the gap
      before packet `k - 1` when that is positive and `k - 1` is past the start. */
  lemma PositiveGapsStep(packets: seq<Loaded>, start: int, k: int)
    requires 0 <= start < k <= |packets|
    ensures Filter(Gaps(packets, start, k), Positive) ==
      Filter(Gaps(packets, start, k - 1), Positive) +
        (if k - 1 > start && Gap(packets, k - 1) > 0.0 then [Gap(packets, k - 1)] else [])
  {
    if k - 1 > start {
      GapsSnoc(packets, start, k);
      FilterSnoc(Gaps(packets, start, k - 1), Gap(packets, k - 1), Positive);
    } else {
      assert Gaps(packets, start, k) == [] && Gaps(packets, start, k - 1) == [];
    }
  }

  /** With timing preserved, the waits of the first packets of the range up to `k`, in order,
      are the positive gaps before packets `start + 1` to `k - 1`. */
  ghost predicate DelaysAreGaps(packets: seq<Loaded>, start: int, k: int, connected: bool)
    requires 0 <= start && k <= |packets|
  {
    Delays(Steps(packets, start, k, true, connected)) == Filter(Gaps(packets, start, k), Positive)
  }

  /** The waits for packet `k - 1` come after those for the packets before it. */
  lemma StepsDelaysStep(packets: seq<Loaded>, start: int, k: int, connected: bool)
    requires 0 <= start < k <= |packets| && DelaysAreGaps(packets, start, k - 1, connected)
    ensures DelaysAreGaps(packets, start, k, connected)
  {
    var before := Steps(packets, start, k - 1, true, connected);
    var step := PacketActions(packets, start, k - 1, true, connected);
    assert Steps(packets, start, k, true, connected) == before + step;
    DelaysConcat(before, step);
    PacketDelays(packets, start, k - 1, connected);
    PositiveGapsStep(packets, start, k);
  }

  /** Every prefix of the range waits its positive gaps, in order. */
  lemma {:induction false} StepsDelays(packets: seq<Loaded>, start: int, k: int, connected: bool)
    requires 0 <= start && k <= |packets|
    ensures DelaysAreGaps(packets, start, k, connected)
    decreases k
  {
    if k > start {
      StepsDelays(packets, start, k - 1, connected);
      StepsDelaysStep(packets, start, k, connected);
    } else {
      NoSteps(packets, start, k, true, connected);
    }
  }

  /** The empty range has no actions and no gaps. */
  lemma NoSteps(packets: seq<Loaded>, start: int, k: int, preserve: bool, connected: bool)
    requires 0 <= start && k <= |packets| && k <= start
    ensures Steps(packets, start, k, preserve, connected) == [] && Gaps(packets, start, k) == []
  {
  }

  /** With timing preserved, the replay waits, in order, exactly the positive gaps between
      neighbouring packets of the range: before packet `i` (`start < i < end`) it waits
      `Gap(packets, i)` when that is positive, and otherwise not at all. */
  lemma ReplayDelays(packets: seq<Loaded>, start: int, end: int, connected: bool)
    ensures Delays(ReplayPlan(packets, start, end, true, connected)) == Filter(Gaps(packets, start, end), Positive)
  {
    if !(start < 0 || end > |packets|) {
      StepsDelays(packets, start, end, connected);
    }
  }

  /** Timestamps that never go backwards between `start` and `k`. */
  predicate InOrder(packets: seq<Loaded>, start: int, k: int)
    requires 0 <= start && k <= |packets|
  {
    forall i :: start < i < k ==> packets[i - 1].0 <= packets[i].0
  }

  lemma PacketSleep(packets: seq<Loaded>, start: int, i: int, preserve: bool, connected: bool)
    requires 0 <= start < i < |packets| && preserve && packets[i - 1].0 <= packets[i].0
    ensures TotalSleep(PacketActions(packets, start, i, preserve, connected)) == Gap(packets, i)
  {
    var w: seq<Action> := if connected then [Write(packets[i].1)] else [];
    var z: seq<Action> := if Gap(packets, i) > 0.0 then [Sleep(Gap(packets, i))] else [];
    TotalSleepConcat(z, w);
    if z != [] {
      assert z[..0] == [];
    }
    if connected {
      assert w[..0] == [];
    }
  }

  lemma PacketSleepFirst(packets: seq<Loaded>, start: int, preserve: bool, connected: bool)
    requires 0 <= start < |packets|
    ensures TotalSleep(PacketActions(packets, start, start, preserve, connected)) == 0.0
  {
    var w: seq<Action> := if connected then [Write(packets[start].1)] else [];
    assert PacketActions(packets, start, start, preserve, connected) == [] + w;
    if connected {
      assert w[..0] == [];
    }
  }

  /** With timing preserved and timestamps in order, the replay waits in all exactly as long
      as the packets took to arrive: from the first timestamp to the last. */
  lemma {:induction false} StepsKeepTiming(packets: seq<Loaded>, start: int, k: int, preserve: bool, connected: bool)
    requires 0 <= start < k <= |packets| && preserve && InOrder(packets, start, k)
    ensures TotalSleep(Steps(packets, start, k, preserve, connected)) == packets[k - 1].0 - packets[start].0
    decreases k
  {
    LastStep(packets, start, k, preserve, connected);
    if k - 1 > start {
      assert InOrder(packets, start, k - 1);
      StepsKeepTiming(packets, start, k - 1, preserve, connected);
    }
  }

  /** The waits up to packet `k` are those up to packet `k - 1` plus the one for packet
      `k - 1`, which is exactly its gap when timing is kept. */
  lemma LastStep(packets: seq<Loaded>, start: int, k: int, preserve: bool, connected: bool)
    requires 0 <= start < k <= |packets| && preserve && InOrder(packets, start, k)
    ensures k - 1 == start ==> TotalSleep(Steps(packets, start, k, preserve, connected)) == 0.0
    ensures k - 1 > start ==>
      TotalSleep(Steps(packets, start, k, preserve, connected))
        == TotalSleep(Steps(packets, start, k - 1, preserve, connected)) + (packets[k - 1].0 - packets[k - 2].0)
  {
    var before := Steps(packets, start, k - 1, preserve, connected);
    var step := PacketActions(packets, start, k - 1, preserve, connected);
    assert Steps(packets, start, k, preserve, connected) == before + step;
    TotalSleepConcat(before, step);
    if k - 1 == start {
      PacketSleepFirst(packets, start, preserve, connected);
    } else {
      assert packets[k - 2].0 <= packets[k - 1].0;
      PacketSleep(packets, start, k - 1, preserve, connected);
    }
  }

  lemma ReplayKeepsTiming(packets: seq<Loaded>, start: int, end: int, connected: bool)
    requires 0 <= start < end <= |packets| && InOrder(packets, start, end)
    ensures TotalSleep(ReplayPlan(packets, start, end, true, connected)) == packets[end - 1].0 - packets[start].0
  {
    StepsKeepTiming(packets, start, end, true, connected);
  }

  lemma NoTimingNoWaits(packets: seq<Loaded>, start: int, end: int, connected: bool)
    ensures TotalSleep(ReplayPlan(packets, start, end, false, connected)) == 0.0
  {
    ReplayWaits(packets, start, end, false, connected);
    NoSleeps(ReplayPlan(packets, start, end, false, connected));
  }

  lemma {:induction false} NoSleeps(s: seq<Action>)
    requires forall m :: 0 <= m < |s| ==> !s[m].Sleep?
    ensures TotalSleep(s) == 0.0
    decreases |s|
  {
    if s != [] {
      NoSleeps(s[..|s| - 1]);
    }
  }

  // ---------------------------------------------------------------------------------------------
  // The replayer object

  class PacketReplayer {
    var baudRate: int
    var packets: seq<Loaded>
    var connected: bool
    /** Everything sent to the bus and every wait, in order. */
    var trace: seq<Action>

    constructor(baudRate: int)
      ensures this.baudRate == baudRate && packets == [] && !connected && trace == []
    {
      this.baudRate := baudRate;
      packets, connected, trace := [], false, [];
    }

    /** `load_capture`: any earlier packets are dropped, then each complete record becomes a
        `(timestamp, data)` pair, in file order. */
    method LoadCapture(file: seq<Byte>, unpackTime: Stamp -> real)
      modifies this
      ensures packets == Unpack(ParseRecords(file), unpackTime)
      ensures connected == old(connected) && trace == old(trace) && baudRate == old(baudRate)
    {
      packets := [];
      var recs := ReadRecords(file);
      var i := 0;
      while i < |recs|
        invariant 0 <= i <= |recs|
        invariant packets == Unpack(recs[..i], unpackTime)
        invariant connected == old(connected) && trace == old(trace) && baudRate == old(baudRate)
      {
        var timestamp := unpackTime(recs[i].stamp);
        UnpackSnoc(recs[..i], recs[i], unpackTime);
        assert recs[..i + 1] == recs[..i] + [recs[i]];
        packets := packets + [(timestamp, recs[i].data)];
        i := i + 1;
      }
      assert recs[..i] == recs;
    }

    /** `connect`, when the port opens. */
    method Connect()
      modifies this
      ensures connected && packets == old(packets) && trace == old(trace) && baudRate == old(baudRate)
    {
      connected := true;
    }

    method Disconnect()
      modifies this
      ensures !connected && packets == old(packets) && trace == old(trace) && baudRate == old(baudRate)
    {
      connected := false;
    }

    /** `replay_single`. */
    method ReplaySingle(index: int)
      modifies this
      ensures trace == old(trace) + SingleActions(packets, index, connected)
      ensures packets == old(packets) && connected == old(connected) && baudRate == old(baudRate)
    {
      if !(0 <= index < |packets|) {
        assert SingleActions(packets, index, connected) == [];
        assert trace + [] == trace;
        return;
      }
      var (_, data) := packets[index];
      if connected {
        trace := trace + [Write(data)];
      } else {
        assert trace + [] == trace;
      }
    }

    /** `replay_sequence`, without the stray read of the first timestamp (see
        `ReplaySequenceAsWritten`). */
    method ReplaySequence(start: int, end: int, preserveTiming: bool)
      modifies this
      ensures trace == old(trace) + ReplayPlan(packets, start, end, preserveTiming, connected)
      ensures packets == old(packets) && connected == old(connected) && baudRate == old(baudRate)
    {
      if start < 0 || end > |packets| {
        assert trace + [] == trace;
        return;
      }
      if end <= start {
        assert Steps(packets, start, end, preserveTiming, connected) == [];
        assert trace + [] == trace;
        return;
      }
      var i := start;
      while i < end
        invariant packets == old(packets) && connected == old(connected) && baudRate == old(baudRate)
        invariant 0 <= start <= i <= end <= |packets|
        invariant trace == old(trace) + Steps(packets, start, i, preserveTiming, connected)
      {
        ghost var t0 := trace;
        var (timestamp, data) := packets[i];
        var acts: seq<Action> := [];
        if preserveTiming && i > start {
          var prevTimestamp := packets[i - 1].0;
          var delay := timestamp - prevTimestamp;
          if delay > 0.0 {
            acts := acts + [Sleep(delay)];
          }
        }
        if connected {
          acts := acts + [Write(data)];
        }
        assert acts == PacketActions(packets, start, i, preserveTiming, connected);
        trace := trace + acts;
        Associate(old(trace), Steps(packets, start, i, preserveTiming, connected), acts);
        i := i + 1;
      }
    }
  }
}
