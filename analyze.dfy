/** The capture analyzer: loads a capture file into decoded packets, counts how often each
    address and message type occurs among the well-formed packets, groups them into
    (source, destination) conversations, counts 4-byte payload prefixes and filters by
    address. Counters and groups are association lists in first-seen key order. */
module TrafficAnalysis {
  import opened Wrappers
  import opened ByteSeq
  import opened PacketCodec
  import opened CaptureFormat
  import opened Counter
  import opened Selection
  import Ranking

  type Conversation = ((U16, U16), seq<Packet>)

  /** A packet without `parse_error`; only these are counted by `analyze`. */
  predicate Parsed(p: Packet)
  {
    p.parseError.None?
  }

  function ParsedPackets(ps: seq<Packet>): seq<Packet>
  {
    Filter(ps, Parsed)
  }

  function SentBy(a: int): Packet -> bool
  {
    p => Parsed(p) && p.srcAddr == a
  }

  function SentTo(a: int): Packet -> bool
  {
    p => Parsed(p) && p.destAddr == a
  }

  function OfType(t: int): Packet -> bool
  {
    p => Parsed(p) && p.msgType == t
  }

  function Between(s: int, d: int): Packet -> bool
  {
    p => Parsed(p) && p.srcAddr == s && p.destAddr == d
  }

  function Involves(a: int): Packet -> bool
  {
    p => Parsed(p) && (p.srcAddr == a || p.destAddr == a)
  }

  function StartsWith(prefix: seq<Byte>): Packet -> bool
  {
    (p: Packet) => |p.payload| >= 4 && p.payload[..4] == prefix
  }

  // ---------------------------------------------------------------------------------------------
  // Loading

  /** The packets `load_capture` builds from the records of a file, one per record, in order;
      the 8 timestamp bytes are read as a float by `unpackTime`. */
  function DecodeAll(recs: seq<Record>, unpackTime: Stamp -> real): (ps: seq<Packet>)
    ensures |ps| == |recs|
    ensures forall i :: 0 <= i < |recs| ==>
      ps[i] == FromBytes(recs[i].data, unpackTime(recs[i].stamp))
  {
    if recs == [] then []
    else
      var last := recs[|recs| - 1];
      DecodeAll(recs[..|recs| - 1], unpackTime) + [FromBytes(last.data, unpackTime(last.stamp))]
  }

  lemma DecodeAllSnoc(recs: seq<Record>, r: Record, unpackTime: Stamp -> real)
    ensures DecodeAll(recs + [r], unpackTime)
         == DecodeAll(recs, unpackTime) + [FromBytes(r.data, unpackTime(r.stamp))]
  {
    assert (recs + [r])[..|recs|] == recs;
  }

  /** One more record decoded, after packets loaded earlier. */
  lemma DecodeStep(earlier: seq<Packet>, recs: seq<Record>, i: nat, unpackTime: Stamp -> real)
    requires i < |recs|
    ensures earlier + DecodeAll(recs[..i + 1], unpackTime)
         == (earlier + DecodeAll(recs[..i], unpackTime)) + [FromBytes(recs[i].data, unpackTime(recs[i].stamp))]
  {
    assert recs[..i + 1] == recs[..i] + [recs[i]];
    DecodeAllSnoc(recs[..i], recs[i], unpackTime);
  }

  // ---------------------------------------------------------------------------------------------
  // What `analyze` computes, packet by packet

  function AddressCounts(ps: seq<Packet>): seq<(U16, nat)>
  {
    if ps == [] then []
    else
      var c, p := AddressCounts(ps[..|ps| - 1]), ps[|ps| - 1];
      if Parsed(p) then Bump(Bump(c, p.srcAddr), p.destAddr) else c
  }

  function TypeCounts(ps: seq<Packet>): seq<(Byte, nat)>
  {
    if ps == [] then []
    else
      var c, p := TypeCounts(ps[..|ps| - 1]), ps[|ps| - 1];
      if Parsed(p) then Bump(c, p.msgType) else c
  }

  function Conversations(ps: seq<Packet>): seq<Conversation>
  {
    if ps == [] then []
    else
      var c, p := Conversations(ps[..|ps| - 1]), ps[|ps| - 1];
      if Parsed(p) then Push(c, (p.srcAddr, p.destAddr), p) else c
  }

  /** The prefix counter of `find_patterns`, which looks at every packet, including those with
      a `parse_error`. */
  function PrefixCounts(ps: seq<Packet>): seq<(seq<Byte>, nat)>
  {
    if ps == [] then []
    else
      var c, p := PrefixCounts(ps[..|ps| - 1]), ps[|ps| - 1];
      if |p.payload| >= 4 then Bump(c, p.payload[..4]) else c
  }

  lemma InitOfSnoc<T>(s: seq<T>, x: T)
    ensures (s + [x])[..|s|] == s && (s + [x])[|s|] == x
  {
  }

  /** One more packet changes the three summaries only when it parsed. */
  lemma AnalyzeStep(ps: seq<Packet>, i: int)
    requires 0 <= i < |ps|
    ensures Parsed(ps[i]) ==> AddressCounts(ps[..i + 1]) == Bump(Bump(AddressCounts(ps[..i]), ps[i].srcAddr), ps[i].destAddr)
    ensures Parsed(ps[i]) ==> TypeCounts(ps[..i + 1]) == Bump(TypeCounts(ps[..i]), ps[i].msgType)
    ensures Parsed(ps[i]) ==> Conversations(ps[..i + 1]) == Push(Conversations(ps[..i]), (ps[i].srcAddr, ps[i].destAddr), ps[i])
    ensures !Parsed(ps[i]) ==> AddressCounts(ps[..i + 1]) == AddressCounts(ps[..i])
    ensures !Parsed(ps[i]) ==> TypeCounts(ps[..i + 1]) == TypeCounts(ps[..i])
    ensures !Parsed(ps[i]) ==> Conversations(ps[..i + 1]) == Conversations(ps[..i])
  {
    InitOfSnoc(ps[..i], ps[i]);
    assert ps[..i + 1] == ps[..i] + [ps[i]];
  }

  /** The count of an address is the number of good packets it sent plus the number it
      received, so a packet addressed to its own sender counts twice for it. */
  lemma {:induction false} AddressCount(ps: seq<Packet>, a: U16)
    ensures Get(AddressCounts(ps), a) == |Filter(ps, SentBy(a))| + |Filter(ps, SentTo(a))|
    decreases |ps|
  {
    if ps != [] {
      var ps', p := ps[..|ps| - 1], ps[|ps| - 1];
      assert ps == ps' + [p];
      AddressCount(ps', a);
      FilterSnoc(ps', p, SentBy(a));
      FilterSnoc(ps', p, SentTo(a));
    }
  }

  /** Every good packet adds one to its source and one to its destination. */
  lemma {:induction false} AddressTotal(ps: seq<Packet>)
    ensures Total(AddressCounts(ps)) == 2 * |ParsedPackets(ps)|
    decreases |ps|
  {
    if ps != [] {
      var ps', p := ps[..|ps| - 1], ps[|ps| - 1];
      assert ps == ps' + [p];
      AddressTotal(ps');
      FilterSnoc(ps', p, Parsed);
    }
  }

  /** A good packet whose source is its destination adds 2 to that one address. */
  lemma SelfAddressed(ps: seq<Packet>, p: Packet)
    requires Parsed(p) && p.srcAddr == p.destAddr
    ensures Get(AddressCounts(ps + [p]), p.srcAddr) == Get(AddressCounts(ps), p.srcAddr) + 2
  {
    InitOfSnoc(ps, p);
  }

  lemma {:induction false} TypeCount(ps: seq<Packet>, t: Byte)
    ensures Get(TypeCounts(ps), t) == |Filter(ps, OfType(t))|
    decreases |ps|
  {
    if ps != [] {
      var ps', p := ps[..|ps| - 1], ps[|ps| - 1];
      assert ps == ps' + [p];
      TypeCount(ps', t);
      FilterSnoc(ps', p, OfType(t));
    }
  }

  lemma {:induction false} TypeTotal(ps: seq<Packet>)
    ensures Total(TypeCounts(ps)) == |ParsedPackets(ps)|
    decreases |ps|
  {
    if ps != [] {
      var ps', p := ps[..|ps| - 1], ps[|ps| - 1];
      assert ps == ps' + [p];
      TypeTotal(ps');
      FilterSnoc(ps', p, Parsed);
    }
  }

  /** The conversation `(s, d)` holds exactly the good packets from `s` to `d`, in capture
      order. */
  lemma {:induction false} ConversationContents(ps: seq<Packet>, s: U16, d: U16)
    ensures Group(Conversations(ps), (s, d)) == Filter(ps, Between(s, d))
    decreases |ps|
  {
    if ps != [] {
      var ps', p := ps[..|ps| - 1], ps[|ps| - 1];
      assert ps == ps' + [p];
      ConversationContents(ps', s, d);
      FilterSnoc(ps', p, Between(s, d));
    }
  }

  lemma {:induction false} ConversationTotal(ps: seq<Packet>)
    ensures GroupedTotal(Conversations(ps)) == |ParsedPackets(ps)|
    decreases |ps|
  {
    if ps != [] {
      var ps', p := ps[..|ps| - 1], ps[|ps| - 1];
      assert ps == ps' + [p];
      ConversationTotal(ps');
      FilterSnoc(ps', p, Parsed);
    }
  }

  // Packets with a `parse_error` touch no counter and no conversation: each fold over all
  // packets equals the fold over the good ones.

  lemma {:induction false} AddressCountsParsed(ps: seq<Packet>)
    ensures AddressCounts(ps) == AddressCounts(ParsedPackets(ps))
    decreases |ps|
  {
    if ps != [] {
      var ps', p := ps[..|ps| - 1], ps[|ps| - 1];
      assert ps == ps' + [p];
      AddressCountsParsed(ps');
      FilterSnoc(ps', p, Parsed);
      AnalysisSnoc(ps', p);
      if Parsed(p) {
        assert ParsedPackets(ps) == ParsedPackets(ps') + [p];
        AnalysisSnoc(ParsedPackets(ps'), p);
      } else {
        assert ParsedPackets(ps) == ParsedPackets(ps');
      }
    }
  }

  lemma {:induction false} TypeCountsParsed(ps: seq<Packet>)
    ensures TypeCounts(ps) == TypeCounts(ParsedPackets(ps))
    decreases |ps|
  {
    if ps != [] {
      var ps', p := ps[..|ps| - 1], ps[|ps| - 1];
      assert ps == ps' + [p];
      TypeCountsParsed(ps');
      FilterSnoc(ps', p, Parsed);
      AnalysisSnoc(ps', p);
      if Parsed(p) {
        assert ParsedPackets(ps) == ParsedPackets(ps') + [p];
        AnalysisSnoc(ParsedPackets(ps'), p);
      } else {
        assert ParsedPackets(ps) == ParsedPackets(ps');
      }
    }
  }

  lemma {:induction false} ConversationsParsed(ps: seq<Packet>)
    ensures Conversations(ps) == Conversations(ParsedPackets(ps))
    decreases |ps|
  {
    if ps != [] {
      var ps', p := ps[..|ps| - 1], ps[|ps| - 1];
      assert ps == ps' + [p];
      ConversationsParsed(ps');
      FilterSnoc(ps', p, Parsed);
      AnalysisSnoc(ps', p);
      if Parsed(p) {
        assert ParsedPackets(ps) == ParsedPackets(ps') + [p];
        AnalysisSnoc(ParsedPackets(ps'), p);
      } else {
        assert ParsedPackets(ps) == ParsedPackets(ps');
      }
    }
  }

  /** One more packet at the end is one more step of each fold. */
  lemma AnalysisSnoc(ps: seq<Packet>, p: Packet)
    ensures AddressCounts(ps + [p])
         == if Parsed(p) then Bump(Bump(AddressCounts(ps), p.srcAddr), p.destAddr)
            else AddressCounts(ps)
    ensures TypeCounts(ps + [p]) == if Parsed(p) then Bump(TypeCounts(ps), p.msgType) else TypeCounts(ps)
    ensures Conversations(ps + [p])
         == if Parsed(p) then Push(Conversations(ps), (p.srcAddr, p.destAddr), p)
            else Conversations(ps)
  {
    InitOfSnoc(ps, p);
  }

  lemma {:induction false} PrefixCount(ps: seq<Packet>, prefix: seq<Byte>)
    ensures Get(PrefixCounts(ps), prefix) == |Filter(ps, StartsWith(prefix))|
    decreases |ps|
  {
    if ps != [] {
      var ps', p := ps[..|ps| - 1], ps[|ps| - 1];
      assert ps == ps' + [p];
      PrefixCount(ps', prefix);
      FilterSnoc(ps', p, StartsWith(prefix));
    }
  }

  /** Every counted prefix is 4 bytes long and counted once. */
  lemma {:induction false} PrefixKeys(ps: seq<Packet>)
    ensures DistinctKeys(PrefixCounts(ps))
    ensures forall i :: 0 <= i < |PrefixCounts(ps)| ==> |PrefixCounts(ps)[i].0| == 4
    decreases |ps|
  {
    if ps != [] {
      var ps', p := ps[..|ps| - 1], ps[|ps| - 1];
      PrefixKeys(ps');
      var c := PrefixCounts(ps');
      if |p.payload| >= 4 {
        BumpDistinct(c, p.payload[..4]);
        var r := Bump(c, p.payload[..4]);
        assert Keys(r) == if p.payload[..4] in Keys(c) then Keys(c) else Keys(c) + [p.payload[..4]];
        forall i | 0 <= i < |r| ensures |r[i].0| == 4 {
          assert r[i].0 == Keys(r)[i];
          if i < |c| {
            assert Keys(r)[i] == Keys(c)[i];
          }
        }
      }
    }
  }

  // ---------------------------------------------------------------------------------------------
  // Reports

  predicate AtLeast(min: int, e: (seq<Byte>, nat))
  {
    e.1 >= min
  }

  function CountAtLeast(min: int): ((seq<Byte>, nat)) -> bool
  {
    e => AtLeast(min, e)
  }

  /** The rows of the prefix table: the 20 most common prefixes (ties in first-seen order),
      of which those seen at least `min` times. */
  function PatternRows(ps: seq<Packet>, min: int): (rows: seq<(seq<Byte>, nat)>)
    ensures |rows| <= 20
  {
    Filter(Ranking.Take(MostCommon(PrefixCounts(ps)), 20), CountAtLeast(min))
  }

  /** Keeping the entries counted at least `min` times out of a ranking `top` of `c` keeps
      the ranking's order, drops no entry from the ranking in favour of a smaller one, and,
      when the ranking holds all of `c`, keeps every such entry of `c`. */
  lemma KeepAtLeast(c: seq<(seq<Byte>, nat)>, top: seq<(seq<Byte>, nat)>, min: int, all: bool)
    requires forall i, j :: 0 <= i < j < |top| ==> top[i].1 >= top[j].1
    requires multiset(top) <= multiset(c)
    requires all ==> multiset(top) == multiset(c)
    requires forall x, i :: x in multiset(c) - multiset(top) && 0 <= i < |top| ==> x.1 <= top[i].1
    ensures var rows := Filter(top, CountAtLeast(min));
      && (forall i, j :: 0 <= i < j < |rows| ==> rows[i].1 >= rows[j].1)
      && (forall e, i :: e in c && e !in rows && e.1 >= min && 0 <= i < |rows| ==> e.1 <= rows[i].1)
      && (all ==> forall e :: e in c && e.1 >= min ==> e in rows)
  {
    var rows := Filter(top, CountAtLeast(min));
    FilterCounts(top, CountAtLeast(min));
    var idx := FilterIndices(top, CountAtLeast(min));
    forall i, j | 0 <= i < j < |rows| ensures rows[i].1 >= rows[j].1 {
      assert rows[i] == top[idx[i]] && rows[j] == top[idx[j]];
    }
    forall e: (seq<Byte>, nat), i | e in c && e !in rows && e.1 >= min && 0 <= i < |rows|
      ensures e.1 <= rows[i].1
    {
      assert CountAtLeast(min)(e);
      assert multiset(rows)[e] == 0;
      assert e in multiset(c) - multiset(top);
      assert rows[i] == top[idx[i]];
    }
    if all {
      forall e: (seq<Byte>, nat) | e in c && e.1 >= min ensures e in rows {
        assert CountAtLeast(min)(e);
        assert multiset(top)[e] > 0;
        assert multiset(rows)[e] > 0;
      }
    }
  }

  /** Each row is a 4-byte prefix with the number of packets whose payload starts with it. */
  lemma PatternRowsCount(ps: seq<Packet>, min: int)
    ensures var rows := PatternRows(ps, min);
      && |rows| <= 20
      && forall i :: 0 <= i < |rows| ==>
           && |rows[i].0| == 4
           && rows[i].1 >= min
           && rows[i].1 == |Filter(ps, StartsWith(rows[i].0))|
  {
    var c := PrefixCounts(ps);
    var top := Ranking.Take(MostCommon(c), 20);
    var rows := PatternRows(ps, min);
    PrefixKeys(ps);
    Ranking.TopN(c, (e: (seq<Byte>, nat)) => e.1, 20);
    FilterMembers(top, CountAtLeast(min));
    forall i | 0 <= i < |rows|
      ensures |rows[i].0| == 4 && rows[i].1 == |Filter(ps, StartsWith(rows[i].0))|
    {
      assert rows[i] in top;
      assert rows[i] in multiset(top);
      assert rows[i] in multiset(c);
      var j :| 0 <= j < |c| && c[j] == rows[i];
      EntryCount(c, j);
      PrefixCount(ps, rows[i].0);
    }
  }

  /** The rows come in descending order of count, no prefix seen at least `min` times is
      left out in favour of a less common one, and with at most 20 distinct prefixes every
      prefix seen at least `min` times is a row. */
  lemma PatternRowsRanked(ps: seq<Packet>, min: int)
    ensures var rows := PatternRows(ps, min);
      && (forall i, j :: 0 <= i < j < |rows| ==> rows[i].1 >= rows[j].1)
      && (forall e, i :: e in PrefixCounts(ps) && e !in rows && e.1 >= min && 0 <= i < |rows| ==>
           e.1 <= rows[i].1)
      && (|PrefixCounts(ps)| <= 20 ==>
           forall e :: e in PrefixCounts(ps) && e.1 >= min ==> e in rows)
  {
    var c := PrefixCounts(ps);
    var top := Ranking.Take(MostCommon(c), 20);
    TopCounts(c, 20);
    KeepAtLeast(c, top, min, |c| <= 20);
  }

  /** At most 20 rows, each a 4-byte prefix with the number of packets whose payload starts
      with it, that number at least `min`, in descending order of count. No prefix seen at
      least `min` times is left out in favour of a less common one, and with at most 20
      distinct prefixes every prefix seen at least `min` times is shown. */
  lemma PatternRowsMeaning(ps: seq<Packet>, min: int)
    ensures var rows := PatternRows(ps, min);
      && |rows| <= 20
      && (forall i :: 0 <= i < |rows| ==>
           && |rows[i].0| == 4
           && rows[i].1 >= min
           && rows[i].1 == |Filter(ps, StartsWith(rows[i].0))|)
      && (forall i, j :: 0 <= i < j < |rows| ==> rows[i].1 >= rows[j].1)
      && (forall e, i :: e in PrefixCounts(ps) && e !in rows && e.1 >= min && 0 <= i < |rows| ==>
           e.1 <= rows[i].1)
      && (|PrefixCounts(ps)| <= 20 ==>
           forall e :: e in PrefixCounts(ps) && e.1 >= min ==> e in rows)
  {
    PatternRowsCount(ps, min);
    PatternRowsRanked(ps, min);
  }

  function ConversationSize(e: Conversation): int
  {
    |e.1|
  }

  /** The conversation table: by descending packet count, ties in first-seen order, at most
      20 rows. */
  function ConversationRanking(convs: seq<Conversation>): (r: seq<Conversation>)
    ensures |r| == if |convs| <= 20 then |convs| else 20
  {
    Ranking.Take(Ranking.SortDesc(convs, ConversationSize), 20)
  }

  /** The shown conversations are at most 20 of the recorded ones, in descending order of
      size, and no conversation left out is larger than any shown; with 20 or fewer, all are
      shown. */
  lemma ConversationRankingMeaning(convs: seq<Conversation>)
    ensures var r := ConversationRanking(convs);
      && |r| == (if |convs| <= 20 then |convs| else 20)
      && (forall i, j :: 0 <= i < j < |r| ==> ConversationSize(r[i]) >= ConversationSize(r[j]))
      && multiset(r) <= multiset(convs)
      && (|convs| <= 20 ==> multiset(r) == multiset(convs))
      && forall e, i :: e in multiset(convs) - multiset(r) && 0 <= i < |r| ==>
           ConversationSize(e) <= ConversationSize(r[i])
  {
    Ranking.TopN(convs, ConversationSize, 20);
  }

  /** The device-type notes column, keyed by address. */
  function GuessDeviceType(addr: int): (r: string)
    ensures r != "" <==> addr in {0x1F1F, 0x2001, 0x4001, 0x5001}
  {
    var guesses := map[
      0x1F1F := "Broadcast?",
      0x2001 := "Thermostat?",
      0x4001 := "Air Handler?",
      0x5001 := "Outdoor Unit?"];
    if addr in guesses then guesses[addr] else ""
  }

  class CaptureAnalyzer {
    var packets: seq<Packet>
    var addresses: seq<(U16, nat)>
    var messageTypes: seq<(Byte, nat)>
    var conversations: seq<Conversation>

    constructor()
      ensures packets == [] && addresses == [] && messageTypes == [] && conversations == []
    {
      packets, addresses, messageTypes, conversations := [], [], [], [];
    }

    /** Appends the packets decoded from every complete record of `file`; packets loaded
        earlier stay. */
    method LoadCapture(file: seq<Byte>, unpackTime: Stamp -> real)
      modifies this
      ensures packets == old(packets) + DecodeAll(ParseRecords(file), unpackTime)
      ensures addresses == old(addresses) && messageTypes == old(messageTypes)
      ensures conversations == old(conversations)
    {
      var recs := ReadRecords(file);
      var i := 0;
      while i < |recs|
        invariant 0 <= i <= |recs|
        invariant packets == old(packets) + DecodeAll(recs[..i], unpackTime)
        invariant addresses == old(addresses) && messageTypes == old(messageTypes)
        invariant conversations == old(conversations)
      {
        var p := FromBytes(recs[i].data, unpackTime(recs[i].stamp));
        DecodeStep(old(packets), recs, i, unpackTime);
        packets := packets + [p];
        i := i + 1;
      }
      assert recs[..i] == recs;
    }

    /** Recomputes every counter and conversation from the loaded packets alone; the previous
        results are cleared first, so analysing twice gives the same state. */
    method Analyze()
      modifies this
      ensures packets == old(packets)
      ensures addresses == AddressCounts(packets)
      ensures messageTypes == TypeCounts(packets)
      ensures conversations == Conversations(packets)
    {
      addresses, messageTypes, conversations := [], [], [];
      var i := 0;
      while i < |packets|
        invariant 0 <= i <= |packets| && packets == old(packets)
        invariant addresses == AddressCounts(packets[..i])
        invariant messageTypes == TypeCounts(packets[..i])
        invariant conversations == Conversations(packets[..i])
      {
        var p := packets[i];
        AnalyzeStep(packets, i);
        if p.parseError.None? {
          addresses := Bump(addresses, p.srcAddr);
          addresses := Bump(addresses, p.destAddr);
          messageTypes := Bump(messageTypes, p.msgType);
          conversations := Push(conversations, (p.srcAddr, p.destAddr), p);
        }
        i := i + 1;
      }
      assert packets[..i] == packets;
    }

    /** The prefix table of `find_patterns`. */
    method FindPatterns(minOccurrences: int) returns (rows: seq<(seq<Byte>, nat)>)
      ensures rows == PatternRows(packets, minOccurrences)
      ensures |rows| <= 20
      ensures forall i :: 0 <= i < |rows| ==>
        |rows[i].0| == 4 && rows[i].1 >= minOccurrences &&
        rows[i].1 == |Filter(packets, StartsWith(rows[i].0))|
      ensures forall i, j :: 0 <= i < j < |rows| ==> rows[i].1 >= rows[j].1
      ensures forall e, i ::
        e in PrefixCounts(packets) && e !in rows && e.1 >= minOccurrences && 0 <= i < |rows| ==>
        e.1 <= rows[i].1
      ensures |PrefixCounts(packets)| <= 20 ==>
        forall e :: e in PrefixCounts(packets) && e.1 >= minOccurrences ==> e in rows
    {
      var prefixes: seq<(seq<Byte>, nat)> := [];
      var i := 0;
      while i < |packets|
        invariant 0 <= i <= |packets|
        invariant prefixes == PrefixCounts(packets[..i])
      {
        var p := packets[i];
        InitOfSnoc(packets[..i], p);
        assert packets[..i + 1] == packets[..i] + [p];
        if |p.payload| > 0 && |p.payload| >= 4 {
          prefixes := Bump(prefixes, p.payload[..4]);
        }
        i := i + 1;
      }
      assert packets[..i] == packets;
      var top := Ranking.Take(MostCommon(prefixes), 20);
      rows := [];
      var j := 0;
      while j < |top|
        invariant 0 <= j <= |top|
        invariant rows == Filter(top[..j], CountAtLeast(minOccurrences))
      {
        InitOfSnoc(top[..j], top[j]);
        assert top[..j + 1] == top[..j] + [top[j]];
        if top[j].1 >= minOccurrences {
          rows := rows + [top[j]];
        }
        j := j + 1;
      }
      assert top[..j] == top;
      PatternRowsMeaning(packets, minOccurrences);
    }

    /** The good packets that involve `a` as source or destination, in capture order: each
        such packet as often as it was loaded, and no other. */
    function FilterByAddress(a: int): (r: seq<Packet>)
      reads this
      ensures forall p :: multiset(r)[p] ==
                          if Parsed(p) && (p.srcAddr == a || p.destAddr == a)
                          then multiset(packets)[p] else 0
    {
      FilterCounts(packets, Involves(a));
      Filter(packets, Involves(a))
    }

    /** The selection keeps capture order: it is the loaded packets at increasing positions
        `idx`, and a position is picked exactly when its packet is good and involves `a`. */
    lemma FilterByAddressInOrder(a: int) returns (idx: seq<nat>)
      ensures |idx| == |FilterByAddress(a)| && Increasing(idx)
      ensures forall i :: 0 <= i < |idx| ==>
        idx[i] < |packets| && packets[idx[i]] == FilterByAddress(a)[i]
      ensures forall j :: 0 <= j < |packets| ==>
        (Parsed(packets[j]) && (packets[j].srcAddr == a || packets[j].destAddr == a) <==> j in idx)
    {
      idx := FilterIndices(packets, Involves(a));
    }

    /** `show_packet`: only an index of a loaded packet selects one. */
    function ShowPacket(index: int): (r: Option<Packet>)
      reads this
      ensures r.Some? <==> 0 <= index < |packets|
      ensures r.Some? ==> r.value == packets[index]
    {
      if 0 <= index < |packets| then Some(packets[index]) else None
    }
  }
}
