/** The capture file: a bare sequence of records `[8-byte timestamp][4-byte little-endian
    length][data]`, with no count, trailer or file checksum. The timestamp is a little-endian
    IEEE-754 double; its 8 bytes are carried here as an opaque `Stamp`. */
module CaptureFormat {
  import opened ByteSeq

  const StampSize: nat := 8
  const RecordHeaderSize: nat := 12

  type Stamp = s: seq<Byte> | |s| == StampSize witness [0, 0, 0, 0, 0, 0, 0, 0]

  datatype Record = Record(stamp: Stamp, data: seq<Byte>)

  /** `struct.unpack("<I", b)`. */
  function LittleEndian32(b: seq<Byte>): U32
    requires |b| == 4
  {
    (b[0] as int) + 0x100 * (b[1] as int) + 0x1_0000 * (b[2] as int) + 0x100_0000 * (b[3] as int)
  }

  /** `struct.pack("<I", n)`. */
  function EncodeLittleEndian32(n: U32): (r: seq<Byte>)
    ensures |r| == 4 && LittleEndian32(r) == n
  {
    var b0, q0 := n % 0x100, n / 0x100;
    var b1, q1 := q0 % 0x100, q0 / 0x100;
    var b2, b3 := q1 % 0x100, q1 / 0x100;
    assert n == b0 + 0x100 * (b1 + 0x100 * (b2 + 0x100 * b3));
    [b0, b1, b2, b3]
  }

  /** Four bytes are the encoding of the number they read as. */
  lemma DecodeEncode32(b: seq<Byte>)
    requires |b| == 4
    ensures EncodeLittleEndian32(LittleEndian32(b)) == b
  {
    var b0, b1, b2, b3 := b[0] as int, b[1] as int, b[2] as int, b[3] as int;
    var q1 := b2 + 0x100 * b3;
    var q0 := b1 + 0x100 * q1;
    var n := b0 + 0x100 * q0;
    assert n == LittleEndian32(b);
    assert n % 0x100 == b0 && n / 0x100 == q0;
    assert q0 % 0x100 == b1 && q0 / 0x100 == q1;
    assert q1 % 0x100 == b2 && q1 / 0x100 == b3;
  }

  /** `_write_packet`'s bytes: timestamp, length, data. A frame of 4 GiB or more would make
      `struct.pack("<I", ...)` raise, so lengths are below 2^32. */
  function EncodeRecord(r: Record): (bytes: seq<Byte>)
    requires |r.data| < 0x1_0000_0000
    ensures |bytes| == RecordHeaderSize + |r.data|
    ensures bytes[..StampSize] == r.stamp && bytes[RecordHeaderSize..] == r.data
    ensures LittleEndian32(bytes[StampSize..RecordHeaderSize]) == |r.data|
  {
    var bytes := r.stamp + EncodeLittleEndian32(|r.data|) + r.data;
    assert bytes[StampSize..RecordHeaderSize] == EncodeLittleEndian32(|r.data|);
    bytes
  }

  predicate Encodable(recs: seq<Record>)
  {
    forall i :: 0 <= i < |recs| ==> |recs[i].data| < 0x1_0000_0000
  }

  /** A file made of the given records, one after another. */
  function Serialize(recs: seq<Record>): (file: seq<Byte>)
    requires Encodable(recs)
    ensures |file| >= RecordHeaderSize * |recs|
    ensures recs != [] ==> file[..StampSize] == recs[0].stamp
  {
    if recs == [] then [] else EncodeRecord(recs[0]) + Serialize(recs[1..])
  }

  lemma {:induction false} SerializeAppend(recs: seq<Record>, r: Record)
    requires Encodable(recs) && |r.data| < 0x1_0000_0000
    ensures Encodable(recs + [r])
    ensures Serialize(recs + [r]) == Serialize(recs) + EncodeRecord(r)
  {
    if recs == [] {
      assert recs + [r] == [r];
    } else {
      assert (recs + [r])[1..] == recs[1..] + [r];
      SerializeAppend(recs[1..], r);
    }
  }

  /** No complete record is left: fewer than 12 header bytes, or fewer data bytes than the
      header declares. */
  predicate Incomplete(rest: seq<Byte>)
  {
    |rest| < RecordHeaderSize ||
    |rest| - RecordHeaderSize < LittleEndian32(rest[StampSize..RecordHeaderSize])
  }

  /** The record reader of both `load_capture`s: records in file order, up to the first
      incomplete one, which is dropped. */
  function ParseRecords(file: seq<Byte>): (recs: seq<Record>)
    ensures RecordHeaderSize * |recs| <= |file|
    decreases |file|
  {
    if Incomplete(file) then []
    else
      var n := LittleEndian32(file[StampSize..RecordHeaderSize]);
      [Record(file[..StampSize], file[RecordHeaderSize..RecordHeaderSize + n])]
        + ParseRecords(file[RecordHeaderSize + n..])
  }

  /** The loop of `load_capture`: read a 12-byte header, stop if short, read the declared
      length, stop if short, keep the record. */
  method ReadRecords(file: seq<Byte>) returns (recs: seq<Record>)
    ensures recs == ParseRecords(file)
  {
    recs := [];
    var pos := 0;
    while true
      invariant 0 <= pos <= |file|
      invariant ReadSoFar(file, pos, recs)
      decreases |file| - pos
    {
      if |file| - pos < RecordHeaderSize {
        IncompleteAt(file, pos);
        break;
      }
      var length := LittleEndian32(file[pos + StampSize..pos + RecordHeaderSize]);
      if |file| - pos - RecordHeaderSize < length {
        IncompleteAt(file, pos);
        break;
      }
      var r := Record(file[pos..pos + StampSize], file[pos + RecordHeaderSize..pos + RecordHeaderSize + length]);
      ReadOne(file, pos, length, recs);
      recs := recs + [r];
      pos := pos + RecordHeaderSize + length;
    }
    assert recs + [] == recs;
  }

  /** The records kept so far, followed by what reading from offset `pos` yields, are the
      whole reading. */
  ghost predicate ReadSoFar(file: seq<Byte>, pos: nat, recs: seq<Record>)
    requires pos <= |file|
  {
    recs + ParseRecords(file[pos..]) == ParseRecords(file)
  }

  /** One turn of the loop: keeping the record at `pos` and moving past it keeps what is
      kept, followed by what is still to read, equal to the whole reading. */
  lemma ReadOne(file: seq<Byte>, pos: nat, length: nat, recs: seq<Record>)
    requires pos + RecordHeaderSize + length <= |file|
    requires length == LittleEndian32(file[pos + StampSize..pos + RecordHeaderSize])
    requires ReadSoFar(file, pos, recs)
    ensures ReadSoFar(file, pos + RecordHeaderSize + length,
      recs + [Record(file[pos..pos + StampSize], file[pos + RecordHeaderSize..pos + RecordHeaderSize + length])])
  {
    ParseRecordAt(file, pos);
    var r := Record(file[pos..pos + StampSize], file[pos + RecordHeaderSize..pos + RecordHeaderSize + length]);
    MoveFront(recs, r, ParseRecords(file[pos..]), ParseRecords(file[pos + RecordHeaderSize + length..]), ParseRecords(file));
  }

  /** Moving the head of the unread part over to the kept part. */
  lemma MoveFront<T>(kept: seq<T>, x: T, rest: seq<T>, after: seq<T>, whole: seq<T>)
    requires kept + rest == whole && rest == [x] + after
    ensures (kept + [x]) + after == whole
  {
    Associate(kept, [x], after);
  }

  /** Reading stops at offset `pos` when a short header or short data is left there. */
  lemma IncompleteAt(file: seq<Byte>, pos: nat)
    requires pos <= |file|
    ensures |file| - pos < RecordHeaderSize ==> ParseRecords(file[pos..]) == []
    ensures (|file| - pos >= RecordHeaderSize &&
             |file| - pos - RecordHeaderSize < LittleEndian32(file[pos + StampSize..pos + RecordHeaderSize]))
      ==> ParseRecords(file[pos..]) == []
  {
    if |file| - pos >= RecordHeaderSize {
      assert file[pos..][StampSize..RecordHeaderSize] == file[pos + StampSize..pos + RecordHeaderSize];
    }
  }

  /** A complete record at offset `pos` is read, then reading continues after it. */
  lemma ParseRecordAt(file: seq<Byte>, pos: nat)
    requires pos + RecordHeaderSize <= |file|
    requires var n := LittleEndian32(file[pos + StampSize..pos + RecordHeaderSize]);
      n <= |file| - pos - RecordHeaderSize
    ensures var n := LittleEndian32(file[pos + StampSize..pos + RecordHeaderSize]);
      ParseRecords(file[pos..]) ==
        [Record(file[pos..pos + StampSize], file[pos + RecordHeaderSize..pos + RecordHeaderSize + n])]
          + ParseRecords(file[pos + RecordHeaderSize + n..])
  {
    var rest := file[pos..];
    var n := LittleEndian32(file[pos + StampSize..pos + RecordHeaderSize]);
    assert rest[StampSize..RecordHeaderSize] == file[pos + StampSize..pos + RecordHeaderSize];
    assert !Incomplete(rest);
    assert rest[..StampSize] == file[pos..pos + StampSize];
    assert rest[RecordHeaderSize..RecordHeaderSize + n] == file[pos + RecordHeaderSize..pos + RecordHeaderSize + n];
    assert rest[RecordHeaderSize + n..] == file[pos + RecordHeaderSize + n..];
  }

  /** Reading a record followed by anything yields that record, then whatever follows reads. */
  lemma {:induction false} ParseRecordThenRest(r: Record, rest: seq<Byte>)
    requires |r.data| < 0x1_0000_0000
    ensures ParseRecords(EncodeRecord(r) + rest) == [r] + ParseRecords(rest)
  {
    var e := EncodeRecord(r);
    var file := e + rest;
    assert file[StampSize..RecordHeaderSize] == e[StampSize..RecordHeaderSize];
    assert !Incomplete(file);
    var n := |r.data|;
    assert file[..StampSize] == r.stamp;
    assert file[RecordHeaderSize..RecordHeaderSize + n] == r.data;
    assert file[RecordHeaderSize + n..] == rest;
  }

  /** The first record's encoding, then the encoding of the others. */
  lemma SerializeHead(recs: seq<Record>)
    requires Encodable(recs) && recs != []
    ensures Encodable(recs[1..]) && |recs[0].data| < 0x1_0000_0000
    ensures Serialize(recs) == EncodeRecord(recs[0]) + Serialize(recs[1..])
  {
    forall i | 0 <= i < |recs[1..]| ensures |recs[1..][i].data| < 0x1_0000_0000 {
      assert recs[1..][i] == recs[i + 1];
    }
  }

  lemma SerializeCons(r: Record, recs: seq<Record>)
    requires |r.data| < 0x1_0000_0000 && Encodable(recs)
    ensures Encodable([r] + recs)
    ensures Serialize([r] + recs) == EncodeRecord(r) + Serialize(recs)
  {
    assert ([r] + recs)[0] == r && ([r] + recs)[1..] == recs;
  }

  lemma Associate<T>(a: seq<T>, b: seq<T>, c: seq<T>)
    ensures (a + b) + c == a + (b + c)
  {
  }

  lemma HeadThenTail<T>(s: seq<T>, t: seq<T>)
    requires s != []
    ensures [s[0]] + (s[1..] + t) == s + t
  {
    assert s == [s[0]] + s[1..];
  }

  /** A file that starts with a complete record is that record's encoding, then the rest. */
  lemma ParseRecordsStep(file: seq<Byte>) returns (r: Record, tail: seq<Byte>)
    requires !Incomplete(file)
    ensures |r.data| < 0x1_0000_0000 && |tail| < |file|
    ensures file == EncodeRecord(r) + tail
    ensures ParseRecords(file) == [r] + ParseRecords(tail)
  {
    var header := file[StampSize..RecordHeaderSize];
    var n := LittleEndian32(header);
    r := Record(file[..StampSize], file[RecordHeaderSize..RecordHeaderSize + n]);
    tail := file[RecordHeaderSize + n..];
    DecodeEncode32(header);
    assert EncodeRecord(r) == r.stamp + header + r.data;
    assert file == file[..StampSize] + header + r.data + tail;
  }

  lemma {:induction false} ParseSerializedThenRest(recs: seq<Record>, rest: seq<Byte>)
    requires Encodable(recs)
    ensures ParseRecords(Serialize(recs) + rest) == recs + ParseRecords(rest)
  {
    if recs == [] {
      assert [] + rest == rest;
    } else {
      SerializeHead(recs);
      var head, body := EncodeRecord(recs[0]), Serialize(recs[1..]);
      Associate(head, body, rest);
      ParseSerializedThenRest(recs[1..], rest);
      ParseRecordThenRest(recs[0], body + rest);
      HeadThenTail(recs, ParseRecords(rest));
    }
  }

  /** Round trip: reading a file written record by record gives back exactly those records. */
  lemma ParseSerialize(recs: seq<Record>)
    requires Encodable(recs)
    ensures ParseRecords(Serialize(recs)) == recs
  {
    ParseSerializedThenRest(recs, []);
    assert Serialize(recs) + [] == Serialize(recs);
  }

  /** What the reader keeps re-serializes to a prefix of the file, and what it leaves is an
      incomplete record: reading consumes whole records and stops at the first short one. */
  lemma {:induction false} ParseRecordsConsumes(file: seq<Byte>) returns (rest: seq<Byte>)
    ensures Encodable(ParseRecords(file))
    ensures file == Serialize(ParseRecords(file)) + rest && Incomplete(rest)
    decreases |file|
  {
    if Incomplete(file) {
      rest := file;
    } else {
      var r, tail := ParseRecordsStep(file);
      var later := ParseRecords(tail);
      rest := ParseRecordsConsumes(tail);
      SerializeCons(r, later);
      Associate(EncodeRecord(r), Serialize(later), rest);
    }
  }
}
