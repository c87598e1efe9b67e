/** The live capture tool: bytes read from the serial port are gathered in a buffer, and a
    poll that finds nothing waiting after more than 50 ms of silence turns the buffer into one
    frame, written to the capture file as a record. Polls are abstract events carrying the
    bytes read (empty when none were waiting) and the clock reading of that poll; the
    8-byte timestamp written with a frame is `packTime` of that reading. */
module Capture {
  import opened ByteSeq
  import opened CaptureFormat
  import PacketCodec

  /** A gap longer than this (seconds) ends a frame. */
  const PacketTimeout: real := 0.05

  /** `struct.pack("<I", ...)` refuses lengths from here on. */
  const MaxFrameLength: nat := 0x1_0000_0000

  datatype PollEvent = PollEvent(read: seq<Byte>, now: real)

  /** What one pass of the capture loop reads and writes: the byte buffer, the time data was
      last seen, the two counters, the frames written so far, and whether the loop goes on. */
  datatype CaptureState = CaptureState(
    buffer: seq<Byte>,
    lastDataTime: real,
    packetsCaptured: nat,
    bytesCaptured: nat,
    frames: seq<Record>,
    running: bool)

  /** The state `start` enters its loop with. */
  function Initial(now: real): CaptureState
  {
    CaptureState([], now, 0, 0, [], true)
  }

  /** One poll of the loop in `start`. Data read extends the buffer and restarts the gap
      timer; otherwise a non-empty buffer after a long enough gap becomes a frame. A frame
      too long for its 4-byte length field makes `_write_packet` raise, which ends the loop
      with nothing written and the counters unchanged. */
  function Step(st: CaptureState, ev: PollEvent, packTime: real -> Stamp): (r: CaptureState)
    ensures !st.running ==> r == st
    ensures r.running ==> st.running
    ensures st.frames <= r.frames && |r.frames| <= |st.frames| + 1
  {
    if !st.running then st
    else if ev.read != [] then st.(buffer := st.buffer + ev.read, lastDataTime := ev.now)
    else if st.buffer != [] && ev.now - st.lastDataTime > PacketTimeout then
      if |st.buffer| >= MaxFrameLength then st.(running := false)
      else Emitted(st, packTime(ev.now))
    else st
  }

  /** The state after a sequence of polls. */
  function Run(st: CaptureState, events: seq<PollEvent>, packTime: real -> Stamp): (r: CaptureState)
    ensures !st.running ==> r == st
    ensures r.running ==> st.running
    ensures st.frames <= r.frames && |r.frames| <= |st.frames| + |events|
    decreases |events|
  {
    if events == [] then st
    else Step(Run(st, events[..|events| - 1], packTime), events[|events| - 1], packTime)
  }

  /** The data of the frames, one after another. */
  function Flatten(frames: seq<Record>): seq<Byte>
  {
    if frames == [] then [] else Flatten(frames[..|frames| - 1]) + frames[|frames| - 1].data
  }

  /** Every byte the polls read, in order. */
  function Reads(events: seq<PollEvent>): seq<Byte>
  {
    if events == [] then [] else Reads(events[..|events| - 1]) + events[|events| - 1].read
  }

  /** Bytes held by the capture: those written in frames, then those still buffered. */
  function Held(st: CaptureState): seq<Byte>
  {
    Flatten(st.frames) + st.buffer
  }

  /** The counters agree with the frames, no frame is empty, and every frame fits its length
      field. */
  predicate Consistent(st: CaptureState)
  {
    && st.packetsCaptured == |st.frames|
    && st.bytesCaptured == |Flatten(st.frames)|
    && Encodable(st.frames)
    && forall i :: 0 <= i < |st.frames| ==> |st.frames[i].data| > 0
  }

  lemma FlattenSnoc(frames: seq<Record>, r: Record)
    ensures Flatten(frames + [r]) == Flatten(frames) + r.data
  {
    assert (frames + [r])[..|frames|] == frames;
  }

  lemma ReadsSnoc(events: seq<PollEvent>, ev: PollEvent)
    ensures Reads(events + [ev]) == Reads(events) + ev.read
  {
    assert (events + [ev])[..|events|] == events;
  }

  /** A poll that reads data never emits a frame (the boundary test is the `elif` branch): it
      only appends to the buffer and restarts the gap timer. */
  lemma ReadNeverEmits(st: CaptureState, ev: PollEvent, packTime: real -> Stamp)
    requires st.running && ev.read != []
    ensures var s := Step(st, ev, packTime);
      && s.frames == st.frames && s.buffer == st.buffer + ev.read && s.lastDataTime == ev.now
      && s.packetsCaptured == st.packetsCaptured && s.bytesCaptured == st.bytesCaptured
      && s.running
  {
  }

  /** A frame is emitted exactly when a running poll reads nothing, the buffer holds data and
      more than 50 ms have passed since data was last seen (and the frame fits its length
      field); it is the whole buffer, stamped with the poll's time, and the buffer is then
      empty. */
  lemma EmitsOnGap(st: CaptureState, ev: PollEvent, packTime: real -> Stamp)
    ensures var s := Step(st, ev, packTime);
      (s.frames != st.frames) <==>
        (st.running && ev.read == [] && st.buffer != [] &&
         ev.now - st.lastDataTime > PacketTimeout && |st.buffer| < MaxFrameLength)
    ensures var s := Step(st, ev, packTime);
      s.frames != st.frames ==>
        s.frames == st.frames + [Record(packTime(ev.now), st.buffer)] && s.buffer == []
  {
    var s := Step(st, ev, packTime);
    if st.running && ev.read == [] && st.buffer != [] &&
       ev.now - st.lastDataTime > PacketTimeout && |st.buffer| < MaxFrameLength {
      assert |s.frames| == |st.frames| + 1;
    }
  }

  /** The state after the buffer is written as a frame stamped `stamp`. */
  function Emitted(st: CaptureState, stamp: Stamp): CaptureState
  {
    st.(frames := st.frames + [Record(stamp, st.buffer)],
        packetsCaptured := st.packetsCaptured + 1,
        bytesCaptured := st.bytesCaptured + |st.buffer|,
        buffer := [])
  }

  lemma EmittedConsistent(st: CaptureState, stamp: Stamp)
    requires Consistent(st) && st.buffer != [] && |st.buffer| < MaxFrameLength
    ensures Consistent(Emitted(st, stamp))
  {
    var s := Emitted(st, stamp);
    FlattenSnoc(st.frames, Record(stamp, st.buffer));
    forall i | 0 <= i < |s.frames| ensures |s.frames[i].data| > 0 && |s.frames[i].data| < MaxFrameLength {
      if i < |st.frames| {
        assert s.frames[i] == st.frames[i];
      }
    }
  }

  lemma StepEmits(st: CaptureState, ev: PollEvent, packTime: real -> Stamp)
    requires st.running && ev.read == [] && st.buffer != []
    requires ev.now - st.lastDataTime > PacketTimeout && |st.buffer| < MaxFrameLength
    ensures Step(st, ev, packTime) == Emitted(st, packTime(ev.now))
  {
  }

  /** One poll keeps the counters in step with the frames and never writes an empty frame. */
  lemma StepConsistent(st: CaptureState, ev: PollEvent, packTime: real -> Stamp)
    requires Consistent(st)
    ensures Consistent(Step(st, ev, packTime))
  {
    var s := Step(st, ev, packTime);
    if s.frames != st.frames {
      EmitsOnGap(st, ev, packTime);
      EmittedConsistent(st, packTime(ev.now));
    }
  }

  /** One poll adds what it read to the bytes held, while running; a stopped loop reads
      nothing. */
  lemma StepHeld(st: CaptureState, ev: PollEvent, packTime: real -> Stamp)
    ensures Held(Step(st, ev, packTime)) == Held(st) + (if st.running then ev.read else [])
  {
    var s := Step(st, ev, packTime);
    if s.frames != st.frames {
      EmitsOnGap(st, ev, packTime);
      FlattenSnoc(st.frames, Record(packTime(ev.now), st.buffer));
      assert Held(s) == Flatten(st.frames) + st.buffer + [];
    } else if st.running && ev.read != [] {
      assert Held(s) == Flatten(st.frames) + (st.buffer + ev.read);
    } else {
      assert s.buffer == st.buffer;
    }
  }

  lemma {:induction false} RunConsistent(st: CaptureState, events: seq<PollEvent>, packTime: real -> Stamp)
    requires Consistent(st)
    ensures Consistent(Run(st, events, packTime))
    decreases |events|
  {
    if events != [] {
      RunConsistent(st, events[..|events| - 1], packTime);
      StepConsistent(Run(st, events[..|events| - 1], packTime), events[|events| - 1], packTime);
    }
  }

  lemma PrefixExtend<T>(a: seq<T>, b: seq<T>, c: seq<T>)
    requires a <= b
    ensures a <= b + c
  {
    assert (b + c)[..|b|] == b;
  }

  /** Segmentation loses and reorders nothing: the frames written, followed by the buffer,
      are every byte read while the loop ran, in order. Once the loop has stopped they are a
      prefix of all bytes offered. */
  lemma {:induction false} RunHeld(st: CaptureState, events: seq<PollEvent>, packTime: real -> Stamp)
    ensures var r := Run(st, events, packTime);
      && Held(r) <= Held(st) + Reads(events)
      && (r.running ==> Held(r) == Held(st) + Reads(events))
    decreases |events|
  {
    if events == [] {
      assert Held(st) + [] == Held(st);
    } else {
      var es, ev := events[..|events| - 1], events[|events| - 1];
      assert events == es + [ev];
      RunHeld(st, es, packTime);
      ReadsSnoc(es, ev);
      var s := Run(st, es, packTime);
      StepHeld(s, ev, packTime);
      if s.running {
        Associate(Held(st), Reads(es), ev.read);
      } else {
        PrefixExtend(Held(s), Held(st) + Reads(es), ev.read);
        Associate(Held(st), Reads(es), ev.read);
      }
    }
  }

  /** From the loop's initial state: the counters count the frames and their bytes, no frame
      is empty, and the frames then the buffer are all bytes read while capturing. */
  lemma CaptureRun(now: real, events: seq<PollEvent>, packTime: real -> Stamp)
    ensures var r := Run(Initial(now), events, packTime);
      && r.packetsCaptured == |r.frames| && r.bytesCaptured == |Flatten(r.frames)|
      && (forall i :: 0 <= i < |r.frames| ==> |r.frames[i].data| > 0)
      && Flatten(r.frames) + r.buffer <= Reads(events)
      && (r.running ==> Flatten(r.frames) + r.buffer == Reads(events))
  {
    RunConsistent(Initial(now), events, packTime);
    RunHeld(Initial(now), events, packTime);
    assert Held(Initial(now)) == [];
  }

  // ---------------------------------------------------------------------------------------------
  // Display and configuration

  /** `_print_packet`'s truncation: kept when at most 80 characters, otherwise the first 77
      followed by "...". */
  function TruncateForDisplay(hex: string): (r: string)
    ensures |r| <= 80
    ensures |hex| <= 80 ==> r == hex
    ensures |hex| > 80 ==> |r| == 80 && r[..77] == hex[..77] && r[77..] == "..."
  {
    if |hex| > 80 then hex[..77] + "..." else hex
  }

  /** The hex dump `_print_packet` shows: spaced pairs, truncated. */
  function DisplayHex(data: seq<Byte>): string
  {
    TruncateForDisplay(Join(PacketCodec.HexPairs(data), " "))
  }

  /** Up to 27 bytes (80 characters of spaced pairs) are shown whole; longer frames are cut
      to exactly 80 characters ending in "...". */
  lemma DisplayHexShownWhole(data: seq<Byte>)
    ensures |data| <= 27 ==> DisplayHex(data) == Join(PacketCodec.HexPairs(data), " ")
    ensures |data| > 27 ==> |DisplayHex(data)| == 80 && DisplayHex(data)[77..] == "..."
  {
    if |data| > 0 {
      JoinLength(PacketCodec.HexPairs(data), " ", 2);
    }
  }

  /** `str.upper` on one character, for the ASCII letters. */
  function UpperAscii(c: char): char
  {
    if 'a' <= c <= 'z' then (c as int - 32) as char else c
  }

  /** The parity setting: the upper-cased first letter, or 'N' when none is given. */
  function NormaliseParity(parity: string): (r: char)
    ensures parity == [] ==> r == 'N'
    ensures parity != [] && 'a' <= parity[0] <= 'z' ==> r as int == parity[0] as int - 32
    ensures parity != [] && !('a' <= parity[0] <= 'z') ==> r == parity[0]
    ensures !('a' <= r <= 'z')
  {
    if parity == [] then 'N' else UpperAscii(parity[0])
  }

  /** The command line's three choices map to pyserial's three parity letters. */
  lemma ParityChoices()
    ensures NormaliseParity("none") == 'N'
    ensures NormaliseParity("even") == 'E'
    ensures NormaliseParity("odd") == 'O'
  {
  }

  // ---------------------------------------------------------------------------------------------
  // The capture object

  class BusCapture {
    var baudRate: int
    var dataBits: int
    var parity: char
    var stopBits: int

    var running: bool
    var startTime: real
    var packetsCaptured: nat
    var bytesCaptured: nat
    /** The local `buffer` and `last_data_time` of `start`. */
    var buffer: seq<Byte>
    var lastDataTime: real
    /** The bytes written to the capture file. */
    var file: seq<Byte>
    /** The records those bytes encode. */
    ghost var frames: seq<Record>

    ghost function State(): CaptureState
      reads this
    {
      CaptureState(buffer, lastDataTime, packetsCaptured, bytesCaptured, frames, running)
    }

    ghost predicate Valid()
      reads this
    {
      Consistent(State()) && file == Serialize(frames)
    }

    constructor(baudRate: int, dataBits: int, parity: string, stopBits: int)
      ensures this.baudRate == baudRate && this.dataBits == dataBits && this.stopBits == stopBits
      ensures this.parity == NormaliseParity(parity)
      ensures !running && packetsCaptured == 0 && bytesCaptured == 0
      ensures buffer == [] && file == [] && frames == []
      ensures Valid()
    {
      this.baudRate, this.dataBits, this.stopBits := baudRate, dataBits, stopBits;
      this.parity := NormaliseParity(parity);
      running, packetsCaptured, bytesCaptured := false, 0, 0;
      startTime, lastDataTime := 0.0, 0.0;
      buffer, file, frames := [], [], [];
    }

    /** `_write_packet`: timestamp bytes, little-endian length, data, appended to the file. */
    method WritePacket(stamp: Stamp, data: seq<Byte>)
      requires |data| < MaxFrameLength && Encodable(frames) && file == Serialize(frames)
      modifies this
      ensures file == old(file) + EncodeRecord(Record(stamp, data))
      ensures frames == old(frames) + [Record(stamp, data)]
      ensures Encodable(frames) && file == Serialize(frames)
      ensures buffer == old(buffer) && lastDataTime == old(lastDataTime) && running == old(running)
      ensures packetsCaptured == old(packetsCaptured) && bytesCaptured == old(bytesCaptured)
      ensures startTime == old(startTime) && parity == old(parity)
      ensures baudRate == old(baudRate) && dataBits == old(dataBits) && stopBits == old(stopBits)
    {
      var lenBytes := EncodeLittleEndian32(|data|);
      file := file + (stamp + lenBytes + data);
      SerializeAppend(frames, Record(stamp, data));
      frames := frames + [Record(stamp, data)];
    }

    /** The boundary branch of the loop: the buffer becomes a frame, is written and counted,
        and is cleared. */
    method EmitFrame(stamp: Stamp)
      requires Valid() && buffer != [] && |buffer| < MaxFrameLength
      modifies this
      ensures Valid() && State() == Emitted(old(State()), stamp)
      ensures startTime == old(startTime) && parity == old(parity)
      ensures baudRate == old(baudRate) && dataBits == old(dataBits) && stopBits == old(stopBits)
    {
      ghost var next := Emitted(State(), stamp);
      EmittedConsistent(State(), stamp);
      var packetData := buffer;
      WritePacket(stamp, packetData);
      packetsCaptured := packetsCaptured + 1;
      bytesCaptured := bytesCaptured + |packetData|;
      buffer := [];
      assert State() == next;
    }

    /** One pass of the loop in `start`. */
    method Poll(ev: PollEvent, packTime: real -> Stamp)
      requires Valid()
      modifies this
      ensures Valid() && State() == Step(old(State()), ev, packTime)
      ensures startTime == old(startTime) && parity == old(parity)
      ensures baudRate == old(baudRate) && dataBits == old(dataBits) && stopBits == old(stopBits)
    {
      if !running {
        return;
      }
      if ev.read != [] {
        buffer := buffer + ev.read;
        lastDataTime := ev.now;
      } else if buffer != [] && ev.now - lastDataTime > PacketTimeout {
        var timestamp := packTime(ev.now);
        if |buffer| >= MaxFrameLength {
          running := false;
          return;
        }
        StepEmits(State(), ev, packTime);
        EmitFrame(timestamp);
      }
    }

    /** `start`: reset the counters, open a new (empty) capture file, then poll until the
        loop stops or the polls run out, and finally `stop`. The capture file then reads back
        as exactly the frames written; anything still buffered is not written. */
    method Start(now: real, events: seq<PollEvent>, packTime: real -> Stamp)
      modifies this
      ensures State() == Run(Initial(now), events, packTime).(running := false)
      ensures Valid() && startTime == now
      ensures ParseRecords(file) == frames
      ensures Flatten(frames) + buffer <= Reads(events)
      ensures parity == old(parity)
      ensures baudRate == old(baudRate) && dataBits == old(dataBits) && stopBits == old(stopBits)
    {
      running := true;
      startTime := now;
      packetsCaptured, bytesCaptured := 0, 0;
      file, frames := [], [];
      buffer := [];
      lastDataTime := now;
      var i := 0;
      while i < |events| && running
        invariant 0 <= i <= |events|
        invariant Valid() && startTime == now
        invariant State() == Run(Initial(now), events[..i], packTime)
        invariant parity == old(parity)
        invariant baudRate == old(baudRate) && dataBits == old(dataBits) && stopBits == old(stopBits)
      {
        RunSnoc(Initial(now), events, i, packTime);
        Poll(events[i], packTime);
        i := i + 1;
      }
      StoppedStays(Initial(now), events, i, packTime);
      assert events[..|events|] == events;
      CaptureRun(now, events, packTime);
      ParseSerialize(frames);
      Stop();
    }

    /** `stop`: the loop flag is cleared; counters, file and buffer are left as they are. */
    method Stop()
      modifies this
      ensures State() == old(State()).(running := false)
      ensures file == old(file) && startTime == old(startTime) && parity == old(parity)
      ensures baudRate == old(baudRate) && dataBits == old(dataBits) && stopBits == old(stopBits)
    {
      running := false;
    }
  }

  /** One more poll is one more step. */
  lemma RunSnoc(st: CaptureState, events: seq<PollEvent>, i: nat, packTime: real -> Stamp)
    requires i < |events|
    ensures Run(st, events[..i + 1], packTime) == Step(Run(st, events[..i], packTime), events[i], packTime)
  {
    assert events[..i + 1][..i] == events[..i];
  }

  /** A stopped loop ignores every later poll. */
  lemma {:induction false} StoppedStays(st: CaptureState, events: seq<PollEvent>, i: nat, packTime: real -> Stamp)
    requires i <= |events|
    requires i == |events| || !Run(st, events[..i], packTime).running
    ensures Run(st, events, packTime) == Run(st, events[..i], packTime)
    decreases |events|
  {
    if i < |events| {
      var es := events[..|events| - 1];
      assert es[..i] == events[..i];
      StoppedStays(st, es, i, packTime);
    } else {
      assert events[..i] == events;
    }
  }
}
