# ComfortLink II bus tools, modelled in Dafny

This project models the protocol-inference tools of a ComfortLink II (Trane/Carrier HVAC)
RS-485 bus investigation kit. It covers these parts:

- **Packet codec** (`PacketCodec`, packet.dfy). It decodes a frame against the tentative
  Net485-like layout: a 10-byte header, the payload, and a 2-byte big-endian checksum. It
  also models the placeholder checksum and the text renderers: hex dump, header summary,
  hex+ASCII payload view and `__str__`.
- **Capture file format** (`CaptureFormat`, record.dfy). A capture file is a stream of
  records: an 8-byte timestamp, a 4-byte little-endian length, then the data. `capture.py`
  writes these records, and `analyze.py` and `replay.py` parse them with the same loop.
- **Traffic analyzer** (`TrafficAnalysis`, analyze.dfy). This is the `CaptureAnalyzer`
  class. It keeps address and message-type counters, the (source, destination)
  conversation groups, the 4-byte payload-prefix counter and its top-20 table, the
  conversation ranking, the address filter and the packet-index guard.
- **Baud-rate scorer** (`BaudRate`, baudrate.dfy). It scores a received sample using noise,
  printable characters and repeated windows, and builds the reason text. It also models
  the probe loop over the fixed rate catalogue with its early stop, and the choice of best
  match.
- **Signal classifier** (`SignalAnalysis`, signal.dfy), over exact reals. It models edge
  detection, pulse-width statistics, the physical-layer classification table with its
  nearest-rate search, and the edge-count guard of the AC-synchronisation check.
- **Live capture** (`Capture`, capture.dfy). The poll loop splits the byte stream into
  frames at 50 ms gaps. It is modelled twice:
  - as a step function over abstract poll events (bytes read, clock reading);
  - as the `BusCapture` class, whose methods update its buffer, counters and file, proved
    against that step function.

  This part also models the display truncation and the parity normalisation.
- **Replay** (`Replay`, replay.dfy). This is the `PacketReplayer` class: loading a
  capture, the index and range guards, and the ordered writes with their inter-packet
  delays. The serial port is recorded as a trace of `Sleep`/`Write` actions.

Helper modules:
- `Wrappers`: `Option` and `Result`.
- `ByteSeq`: bytes, hex digits, decimal, split and join.
- `Counter`: Python's insertion-ordered `Counter`/`dict`, as association lists.
- `Ranking`: the stable descending sort behind `most_common` and `sorted(reverse=True)`, and
  slicing to the first n.
- `Selection`: order-preserving filtering.

The serial port, the files and the clock are parameters:
- Bytes read from the port are the `read` part of a `PollEvent`, or the `samples` given to
  `BaudRate.Probe`.
- A file is a `seq<Byte>`.
- Clock readings are reals inside the poll events.
- Timestamps are 8 opaque bytes (`Stamp`), converted by caller-supplied `packTime` and
  `unpackTime` functions.

Where the code and the informal description of the tools disagree, the model follows the
code:
- `from_bytes` does not flag a declared payload length shorter than the frame. The bytes
  between the payload and the checksum are left unflagged (`PacketCodec.TrailingBytesUnflagged`).
- A rate that returned no bytes is not kept as a result with score 0. It is dropped
  (`BaudRate.KeptResults`).
- Address ranking ties are broken by first-seen order (`Counter.most_common`), not by
  numeric address.
- The packet-boundary gap is the hard-coded 0.05 s, not a configurable interval.

## Model

| member | source | states |
|---|---|---|
| PacketCodec.FromBytes | tools/packet.py:51-86 | raw and timestamp are kept. Under 12 bytes, only the "too short" error is set and every field keeps its default. Otherwise: the header fields re-encode to the first ten bytes (big-endian addresses, type, sequence, length, 3 extra bytes); the frame is error-free iff 10+length fits before the checksum, and then the payload is exactly `length` bytes from offset 10; on a mismatch the payload runs to the checksum; the payload never exceeds len-12; the checksum is the last two bytes, and the validator accepts |
| PacketCodec.DecodeReassembles | tools/packet.py:59-81 | every slice is in bounds. The frame is exactly header ++ payload ++ unflagged trailing bytes ++ checksum, with no trailing bytes on a length mismatch |
| PacketCodec.TrailingBytesUnflagged | tools/packet.py:70-75 | a 13-byte frame declaring 0 payload bytes decodes without error, though raw is not 12 bytes plus the payload |
| PacketCodec.HvacFrameDecodes | tests/test_packet.py:27-39 | the "HVAC" test frame decodes error-free: addresses 0x2001/0x4001, declared length 4, payload "HVAC" |
| PacketCodec.TooShortMessage | tools/packet.py:55-57 | a frame under 12 bytes has an error whose text contains "too short" |
| PacketCodec.ChecksumConcat | tools/packet.py:102-114 | the placeholder checksum (byte sum mod 65536) of a concatenation is the sum of the parts' checksums mod 65536 |
| PacketCodec.CalculateChecksum | tools/packet.py:101-114 | a 16-bit value, equal to the plain byte sum for frames of at most 257 bytes, whose sum cannot pass 65535 |
| PacketCodec.VerifyChecksum | tools/packet.py:88-99 | the placeholder accepts every packet |
| PacketCodec.ErrorMessage | tools/packet.py:55-72 | "Packet too short: " then the length in decimal then " bytes"; or "Payload length mismatch: expected ", the declared length, ", available " and the available count, each number at its position |
| PacketCodec.FindPacketBoundaries | tools/packet.py:146-156 | a single (start, end) pair whose slice is the whole buffer |
| PacketCodec.HexPairs | tools/packet.py:116-118 | one two-digit lowercase hex pair per byte, in order |
| PacketCodec.ToHexEmptySeparatorRaises | tools/packet.py:116-118 | as written, `to_hex("")` on DE AD BE EF fails with the one-character-separator error |
| PacketCodec.ToHexAsWritten | tools/packet.py:116-118 | succeeds exactly for a one-character ASCII separator, fails with the one-character error for any other length, and on success is the hex pairs of raw joined by the separator |
| PacketCodec.ToHex | tools/packet.py:116-118 | for every one-character ASCII separator it agrees with the code. The empty separator gives 2n characters. A space separator gives 3n-1 characters for n > 0 |
| PacketCodec.ParseHexPairs | tools/packet.py:116-118 | parsing each hex pair back recovers the bytes |
| PacketCodec.ToHexRoundTrip | tools/packet.py:116-118 | splitting the space-separated dump at spaces and parsing each piece recovers raw |
| PacketCodec.FormatHeader | tools/packet.py:120-125 | fixed-position fields: "[", the source address as 4 upper-case hex digits, " -> ", the destination likewise, "] Type:" with the type as two hex digits, the label " Seq:" and the sequence as two hex digits, then the label " Len:" and the length in decimal |
| PacketCodec.FormatHeaderAddresses | tools/packet.py:123 | the two 4-digit addresses in the header summary parse back to the packet's source and destination |
| PacketCodec.Gutter | tools/packet.py:134 | one character per payload byte: the byte itself exactly when it is printable ASCII (32..126), '.' otherwise |
| PacketCodec.FormatPayload | tools/packet.py:127-136 | "(empty)" exactly for an empty payload. Otherwise the hex pairs, two spaces, then the gutter between bars |
| PacketCodec.PrintablePayloadShown | tools/packet.py:127-136 | a printable payload appears verbatim in the payload view |
| PacketCodec.ErrorLine | tools/packet.py:139-140 | "[ERROR] ", the message, ": " and the hex dump, each at its position |
| PacketCodec.PacketLines | tools/packet.py:142-143 | the header, " CRC:", the status, a newline with "  Payload: ", then the payload view, each at its position |
| PacketCodec.Render | tools/packet.py:138-143 | a malformed packet is "[ERROR] ", its error message, ": " and its space-separated hex dump. Otherwise: the header summary, " CRC:", "OK" or "BAD" as the checksum was accepted, a newline, "  Payload: " and the payload view |
| PacketCodec.RenderAccepted | tools/packet.py:138-143 | a well-formed packet with an accepted checksum renders with " CRC:OK" |
| PacketCodec.RenderDecoded | tools/packet.py:138-143 | every decoded frame renders: malformed ones start with "[ERROR] ", well-formed ones contain " CRC:OK" |
| ByteSeq.BigEndian16 | tools/packet.py:62-63 | the 16-bit address has the first byte as its high byte and the second as its low byte |
| ByteSeq.UpperHex4Parses | tools/packet.py:123 | the 4-digit upper-case hex of an address parses back to it |
| ByteSeq.SplitJoin | tools/packet.py:118 | joining pieces free of the separator, then splitting at it, gives the pieces back |
| ByteSeq.JoinLength | tools/packet.py:118 | joining k pieces of width w with separator s gives w·k + |s|·(k-1) characters |
| ByteSeq.SplitSpaced | tools/baudrate_detect.py:100 | splitting at c a join whose separator is c followed by x gives the pieces back, each after the first with x in front, when neither contains c |
| ByteSeq.JoinStarts | tools/baudrate_detect.py:100 | a join begins with its first piece |
| CaptureFormat.EncodeLittleEndian32 | tools/capture.py:75 | four bytes that read back, little-endian, as the length |
| CaptureFormat.EncodeRecord | tools/capture.py:68-77 | a record is 12+len bytes: the 8 timestamp bytes, then the length as 4 little-endian bytes, then the data |
| CaptureFormat.SerializeAppend | tools/capture.py:76 | writing one more record appends exactly its encoding to the file |
| CaptureFormat.Serialize | tools/capture.py:68-77 | the file has at least 12 bytes per record and begins with the first record's timestamp; `ParseSerialize` and `SerializeAppend` give its exact content |
| CaptureFormat.ReadRecords | tools/analyze.py:34-46 | the reading loop returns exactly the records the file parses to |
| CaptureFormat.ParseRecords | tools/analyze.py:34-46 | at most one record per 12 bytes of file; `ParseRecordsConsumes` and `ParseSerialize` give the records exactly |
| CaptureFormat.ParseRecordThenRest | tools/replay.py:35-45 | a complete record at the front of a file is returned first, and parsing continues at its end |
| CaptureFormat.ParseSerialize | tools/replay.py:40-45 | parsing a file of written records with lengths under 2^32 gives back exactly those records, in order |
| CaptureFormat.ParseRecordsConsumes | tools/analyze.py:35-46 | the parsed records re-encode to a prefix of the file. What remains is an incomplete record (a short header, or a header whose data is short), which is dropped |
| Counter.Bump | tools/analyze.py:64-68 | the key's count goes up by 1, the other counts are unchanged, the total goes up by 1, and a new key is added at the end of the key order |
| Counter.BumpDistinct | tools/analyze.py:64-68 | counting keeps the keys distinct |
| Counter.EntryCount | tools/analyze.py:85 | with distinct keys, each listed entry's count is that key's count |
| Counter.Push | tools/analyze.py:71-72 | the key's list gains the value at its end, the other lists are unchanged, the total length goes up by 1, and a new key is added at the end of the order |
| Counter.TopCounts | tools/analyze.py:147 | the first n entries of `most_common()` are in descending count and drawn from the counter. They are all of it when it has at most n entries, and no entry left out counts more than a kept one |
| Ranking.SortPermutes | tools/analyze.py:85 | the sorted sequence is a permutation of its input |
| Ranking.SortDescending | tools/analyze.py:85 | the sorted sequence is in descending key order |
| Ranking.SortStable | tools/baudrate_detect.py:171 | the elements with any one key value keep their relative order (stability) |
| Ranking.SortHead | tools/baudrate_detect.py:171-173 | the first element is one of the inputs. Its key is maximal, and it is strictly above the keys of all inputs before it |
| Ranking.Take | tools/analyze.py:147 | a prefix of at most n elements, the whole input when it has at most n |
| Ranking.TopN | tools/analyze.py:108-110 | min(n, len) elements in descending order, drawn from the input. No element cut off ranks above a kept one, and all are kept when there are at most n |
| Selection.Filter | tools/analyze.py:177-181 | at most as many elements as the input, every one satisfying the condition |
| Selection.FilterConcat | tools/analyze.py:177-181 | filtering distributes over concatenation, so order is preserved |
| Selection.FilterCounts | tools/analyze.py:177-181 | each element occurs in the filtered sequence exactly as often as in the input when it satisfies the condition, and never otherwise |
| Selection.FilterIndices | tools/analyze.py:177-181 | the filtered sequence is the input at strictly increasing positions, and a position is picked exactly when its element satisfies the condition (order-preserving subsequence) |
| TrafficAnalysis.DecodeAll | tools/analyze.py:48-49 | one decoded packet per record, in file order, with the record's data and timestamp |
| TrafficAnalysis.AddressCount | tools/analyze.py:59-65 | an address's count is the number of error-free packets sent by it plus the number sent to it |
| TrafficAnalysis.AddressTotal | tools/analyze.py:59-65 | the address counts sum to twice the number of error-free packets |
| TrafficAnalysis.SelfAddressed | tools/analyze.py:64-65 | an error-free packet whose source is its destination adds 2 to that address |
| TrafficAnalysis.TypeCount | tools/analyze.py:60-68 | a message type's count is the number of error-free packets of that type |
| TrafficAnalysis.TypeTotal | tools/analyze.py:60-68 | the type counts sum to the number of error-free packets |
| TrafficAnalysis.ConversationContents | tools/analyze.py:70-72 | the (s, d) conversation is exactly the error-free packets from s to d, in capture order |
| TrafficAnalysis.ConversationTotal | tools/analyze.py:70-72 | the conversation lengths sum to the number of error-free packets |
| TrafficAnalysis.AddressCountsParsed | tools/analyze.py:60-61 | packets with a parse error do not touch the address counter |
| TrafficAnalysis.TypeCountsParsed | tools/analyze.py:60-61 | packets with a parse error do not touch the type counter |
| TrafficAnalysis.ConversationsParsed | tools/analyze.py:60-61 | packets with a parse error do not touch the conversations |
| TrafficAnalysis.PrefixCount | tools/analyze.py:137-141 | a prefix's count is the number of packets, malformed ones included, whose payload has at least 4 bytes and starts with it |
| TrafficAnalysis.PrefixKeys | tools/analyze.py:137-141 | the counted prefixes are distinct and all 4 bytes long |
| TrafficAnalysis.PatternRows | tools/analyze.py:147-149 | at most 20 rows; `PatternRowsMeaning` gives what they are |
| TrafficAnalysis.PatternRowsCount | tools/analyze.py:137-149 | each row is a 4-byte prefix with at least the minimum count, and the count is the number of packets with that prefix |
| TrafficAnalysis.KeepAtLeast | tools/analyze.py:147-149 | keeping the entries counted at least `min` times from a ranking keeps the order, drops none in favour of a smaller one, and keeps all such entries when the ranking holds the whole counter |
| TrafficAnalysis.PatternRowsRanked | tools/analyze.py:147-149 | the rows are in descending count, no prefix counted at least the minimum is left out while a smaller one is shown, and all such prefixes are shown when there are at most 20 distinct prefixes |
| TrafficAnalysis.PatternRowsMeaning | tools/analyze.py:137-151 | at most 20 rows in descending count. Each row is a 4-byte prefix whose count is at least the minimum and is the true number of packets with that prefix. No prefix counted at least the minimum is left out while a smaller one is shown, and with at most 20 distinct prefixes every such prefix is shown |
| TrafficAnalysis.ConversationRankingMeaning | tools/analyze.py:108-110 | at most 20 conversations, in descending packet count, drawn from the recorded ones. None left out is larger than one shown, and all are shown when there are at most 20 |
| TrafficAnalysis.ConversationRanking | tools/analyze.py:108-110 | min(20, n) conversations; `ConversationRankingMeaning` gives which ones |
| TrafficAnalysis.GuessDeviceType | tools/analyze.py:115-130 | a non-empty note exactly for the four known addresses 0x1F1F, 0x2001, 0x4001, 0x5001 |
| TrafficAnalysis.CaptureAnalyzer.constructor | tools/analyze.py:24-28 | no packets, empty counters, no conversations |
| TrafficAnalysis.CaptureAnalyzer.LoadCapture | tools/analyze.py:30-51 | appends the decoded records of the file to the loaded packets and leaves the counters alone |
| TrafficAnalysis.CaptureAnalyzer.Analyze | tools/analyze.py:53-72 | the counters and conversations are those of the loaded packets, whatever they held before. Hence a second call gives the same state (idempotence) |
| TrafficAnalysis.CaptureAnalyzer.FindPatterns | tools/analyze.py:132-151 | the rows of the prefix table: at most 20 in descending count, each a 4-byte prefix with at least the minimum count and with the true number of packets with that prefix. No prefix counted at least the minimum is left out in favour of a smaller one, and all are shown when there are at most 20 distinct prefixes |
| TrafficAnalysis.CaptureAnalyzer.FilterByAddress | tools/analyze.py:175-181 | every error-free packet involving the address, as often as it was loaded, and no other packet |
| TrafficAnalysis.CaptureAnalyzer.FilterByAddressInOrder | tools/analyze.py:177-181 | the selection is the loaded packets at strictly increasing positions, and a position is picked exactly when its packet is error-free and has the address as source or destination |
| TrafficAnalysis.CaptureAnalyzer.ShowPacket | tools/analyze.py:164-173 | a packet is selected iff the index is in range, and it is the packet at that index |
| BaudRate.CountsBounded | tools/baudrate_detect.py:65-71 | the printable and noise counts are at most the length, so both ratios lie in [0, 1] |
| BaudRate.HasPatterns | tools/baudrate_detect.py:74-79 | true iff, for some window size 10, 12, 14 or 16 and some offset in range(n-2L), the window is repeated right after itself |
| BaudRate.Clamp | tools/baudrate_detect.py:99 | the result lies in [0, 100] and is the input when the input already does |
| BaudRate.Causes | tools/baudrate_detect.py:90-96 | each cause is listed iff its condition holds, in the order noise, patterns, ASCII |
| BaudRate.AnalyzeDataQuality | tools/baudrate_detect.py:59-104 | computes the assessment `QualityOf`: nothing received for empty data, else the counts, the repeat flag, the clamped additive score and the causes |
| BaudRate.ScoreValues | tools/baudrate_detect.py:61-99 | empty data scores 0. Otherwise the score is one of 20, 40, 50, 70, 80 or 100 |
| BaudRate.GoodScoreMeans | tools/baudrate_detect.py:81-88 | for non-empty data, the score is at least 80 iff a repeated window was found and the noise ratio is at most 0.3 |
| BaudRate.CauseText | tools/baudrate_detect.py:91-96 | each cause has a non-empty description, free of commas, that cannot be mistaken for "Inconclusive" or "No data received" |
| BaudRate.CauseTexts | tools/baudrate_detect.py:90-96 | one description per cause, in order |
| BaudRate.Reason | tools/baudrate_detect.py:61-100 | "No data received" exactly for an empty sample. For an assessed sample, "Inconclusive" iff no cause holds. Otherwise it begins with the first cause's description, and splitting it at commas gives each description in order, each after the first preceded by a space |
| BaudRate.ReasonSplits | tools/baudrate_detect.py:100 | ", " joining of comma-free descriptions splits back at the commas into the first description followed by the others with a space in front; it begins with the first and is neither "Inconclusive" nor "No data received" |
| BaudRate.ReasonMeaning | tools/baudrate_detect.py:61-100 | the reason is "No data received" iff the data is empty. For received data, the reason is "Inconclusive" iff no cause holds. Otherwise splitting it at commas gives each cause's description, in order, each after the first preceded by a space |
| BaudRate.Probed | tools/baudrate_detect.py:134-162 | the number of rates probed lies between the starting position and the catalogue size |
| BaudRate.ProbedStops | tools/baudrate_detect.py:134-162 | with `try_all` every rate is probed. Without it no rate before the last one probed is good, and probing stops before the end of the catalogue only after a good rate |
| BaudRate.Probe | tools/baudrate_detect.py:129-166 | the loop's results are the kept results of the rates probed, each assessed by `AnalyzeDataQuality` |
| BaudRate.RateIndexOf | tools/baudrate_detect.py:19-28 | the catalogue's rates are distinct, so each result's rate identifies its position |
| BaudRate.KeptResults | tools/baudrate_detect.py:134-147 | results come in catalogue order. Each has its rate's sample, a positive byte count equal to the sample's length and that sample's assessment. Zero-byte rates are dropped, and with data at every rate there is one result per rate |
| BaudRate.KeptEveryRate | tools/baudrate_detect.py:140-147 | every rate that returned data has a result |
| BaudRate.StopsAtFirstGood | tools/baudrate_detect.py:159-162 | without `try_all`, no result but the last has a score of 80 or more |
| BaudRate.NoGoodBefore | tools/baudrate_detect.py:159-162 | when no earlier rate was good, after one more rate only the last result can be good |
| BaudRate.BestIsEarliestMaximum | tools/baudrate_detect.py:169-183 | there is no best exactly when there are no results. Otherwise the best is a result of maximal score, the earliest such, and the low-confidence warning is raised iff its score is below 50 |
| BaudRate.Best | tools/baudrate_detect.py:169-183 | no best exactly when there are no results, and otherwise the best is one of them; `BestIsEarliestMaximum` gives which one |
| SignalAnalysis.FindEdges | tools/signal_analyze.py:49-61 | the scan computes the change points of the levels (value > threshold) |
| SignalAnalysis.EdgesAlternate | tools/signal_analyze.py:52-60 | edges alternate between rising and falling. The first edge leaves the first sample's level |
| SignalAnalysis.EdgeTimes | tools/signal_analyze.py:52-60 | the edges correspond one to one, in order, to the samples whose level differs from the sample before: each edge has its sample's time and the direction of its level, the source samples strictly increase, and every level change is the source of an edge |
| SignalAnalysis.EdgeSourcesStep | tools/signal_analyze.py:52-60 | the sources for one more sample are the old ones, plus that sample when it changes level |
| SignalAnalysis.EdgeSourcesChange | tools/signal_analyze.py:56-59 | a sample that changes level is the source of the edge it adds |
| SignalAnalysis.SortAscending | tools/signal_analyze.py:78 | the sorted widths are ascending |
| SignalAnalysis.SortAscPermutes | tools/signal_analyze.py:78 | the sorted widths are a permutation of the widths |
| SignalAnalysis.AnalyzePulseWidths | tools/signal_analyze.py:64-95 | the loop computes `PulseAnalysisOf`, the statistics of the consecutive-edge widths |
| SignalAnalysis.StatisticsMeaning | tools/signal_analyze.py:77-95 | one pulse per width and the widths are returned. Min and max bound every width (in ms) and are attained. Median and mean lie between min and max. The baud estimate is 1/min when min > 0, else 0 |
| SignalAnalysis.PulseStatistics | tools/signal_analyze.py:66-88 | the result is an error iff there are fewer than 2 edges. Otherwise pulse_count is edges-1, `widths[i] = t[i+1]-t[i]`, and the statistics are those of `StatisticsMeaning` |
| SignalAnalysis.NearestRate | tools/signal_analyze.py:128-136 | the rate and position of a table entry whose period is nearest to the width by absolute difference, and the earliest such |
| SignalAnalysis.ClassifyPhysicalLayer | tools/signal_analyze.py:98-150 | with an error, "unknown" with confidence 0. Otherwise: 6 < min < 12 ms gives EnviraCOM, 90, 120 baud, and this check comes first; a min under 1 ms gives RS-485, 80, with the earliest nearest table rate; anything else gives "unknown", 30, with the truncated estimate. Confidence is always 0, 30, 80 or 90 |
| SignalAnalysis.AcSynchronizationEdges | tools/signal_analyze.py:153-157 | rejected iff threshold 0.5 gives fewer than 10 edges. Otherwise the edges are those at threshold 0.5 |
| Capture.ReadNeverEmits | tools/capture.py:106-112 | a poll that reads data appends it to the buffer, resets the last-data time and emits nothing |
| Capture.Step | tools/capture.py:104-126 | a stopped loop does nothing, a poll never restarts it, and at most one frame is appended to the frames; `EmitsOnGap` and `ReadNeverEmits` give each case |
| Capture.Run | tools/capture.py:104-126 | a stopped loop stays as it is, it never restarts, and the frames only grow, by at most one per poll |
| Capture.EmitsOnGap | tools/capture.py:105-123 | a frame is emitted iff a running poll reads nothing, the buffer is non-empty, more than 0.05 s have passed since data was last seen, and the frame fits its length field. The frame is the whole buffer stamped with the poll's time, and the buffer is then empty |
| Capture.StepConsistent | tools/capture.py:104-126 | one poll keeps the counters equal to the number of frames and their total bytes, and keeps every frame non-empty |
| Capture.StepHeld | tools/capture.py:107-123 | one poll adds exactly the bytes read to the frames followed by the buffer, while capturing |
| Capture.RunHeld | tools/capture.py:104-126 | over many polls, the frames then the buffer are a prefix of the bytes offered, and all of them while capture is running |
| Capture.CaptureRun | tools/capture.py:81-126 | from the start of a capture, the packet and byte counters count the frames and their bytes, and no frame is empty. The frames then the buffer are a prefix of the bytes read, and all of them while the loop runs |
| Capture.StoppedStays | tools/capture.py:104 | once the loop has stopped, further polls change nothing |
| Capture.TruncateForDisplay | tools/capture.py:167-169 | at most 80 characters. Kept when at most 80, else the first 77 followed by "..." |
| Capture.DisplayHexShownWhole | tools/capture.py:164-171 | a frame of at most 27 bytes is shown as its full spaced hex dump. A longer one is cut to 80 characters ending in "..." |
| Capture.NormaliseParity | tools/capture.py:44 | "N" for an empty setting. Otherwise the first character, upper-cased when it is an ASCII lowercase letter |
| Capture.ParityChoices | tools/capture.py:44 | "none", "even" and "odd" normalise to 'N', 'E' and 'O' |
| Capture.BusCapture.constructor | tools/capture.py:26-54 | keeps the serial settings, normalises the parity, and is not running with zero counters, an empty buffer and an empty capture file |
| Capture.BusCapture.WritePacket | tools/capture.py:68-77 | appends exactly the record's encoding to the capture file and records the frame. Nothing else changes |
| Capture.BusCapture.EmitFrame | tools/capture.py:113-123 | writes the buffer as one stamped frame, counts it and its bytes, and clears the buffer |
| Capture.BusCapture.Poll | tools/capture.py:105-126 | performs exactly one step of the loop, and the file stays the serialisation of the frames |
| Capture.BusCapture.Start | tools/capture.py:79-131 | resets the counters and runs the loop over the polls until they end or it stops, then stops. The file parses back to exactly the emitted frames, and the frames and buffer are a prefix of the bytes read |
| Capture.BusCapture.Stop | tools/capture.py:133-135 | only clears the running flag |
| Replay.Unpack | tools/replay.py:40-45 | one (timestamp, data) pair per record, in order |
| Replay.LoadsWhatWasCaptured | tools/replay.py:40-45 | loading a file of captured frames gives back each frame's timestamp and data, in order |
| Replay.SingleActions | tools/replay.py:70-81 | a single write of that packet's data iff the index is in range and the port is open, and nothing otherwise |
| Replay.EmptyCaptureReplayRaises | tools/replay.py:91 | as written, replaying an empty capture over its default range fails, where the intended plan is empty |
| Replay.AsWrittenAgrees | tools/replay.py:85-105 | the code fails exactly on in-capture ranges that start at or past the last packet, all of them empty. Otherwise it does what the intended plan does |
| Replay.ReplayWrites | tools/replay.py:85-105 | nothing is written for start < 0 or end > len or a closed port. Otherwise the data of packets start..end-1 is written, in index order |
| Replay.ReplayWaits | tools/replay.py:95-100 | every wait is positive, and there are waits only when timing is preserved. With the port open, each wait is followed by a write, and the first action is a write (no wait before the first packet) |
| Replay.ReplayDelays | tools/replay.py:95-100 | with timing preserved, the waits, in order, are exactly the gaps ts[i] - ts[i-1] for start < i < end that are positive |
| Replay.StepsDelays | tools/replay.py:92-100 | for the first packets of the range up to any k, the waits are the positive gaps before packets start+1..k-1, in order (`DelaysAreGaps`) |
| Replay.PacketDelays | tools/replay.py:95-100 | with timing preserved, packet i waits exactly its gap, and only when i is past the start and the gap is positive |
| Replay.ReplayKeepsTiming | tools/replay.py:92-100 | with in-order timestamps and timing preserved, the waits add up to the span from the first to the last replayed packet |
| Replay.NoTimingNoWaits | tools/replay.py:95 | without timing there is no wait at all |
| Replay.ReplayPlan | tools/replay.py:83-107 | nothing for a range reaching outside the capture or an empty range; `ReplayWrites`, `ReplayDelays`, `ReplayWaits` and `ReplayKeepsTiming` give the actions otherwise |
| Replay.ReplaySequenceAsWritten | tools/replay.py:83-107 | the code as written; `AsWrittenAgrees` and `EmptyCaptureReplayRaises` relate it to the intended plan |
| Replay.PacketReplayer.constructor | tools/replay.py:24-28 | keeps the baud rate, with no packets, no connection and nothing sent |
| Replay.PacketReplayer.LoadCapture | tools/replay.py:30-47 | the loaded packets are exactly those of the file, replacing any earlier ones |
| Replay.PacketReplayer.Connect | tools/replay.py:49-63 | opens the port and changes nothing else |
| Replay.PacketReplayer.Disconnect | tools/replay.py:65-68 | closes the port and changes nothing else |
| Replay.PacketReplayer.ReplaySingle | tools/replay.py:70-81 | sends what `SingleActions` says and nothing else |
| Replay.PacketReplayer.ReplaySequence | tools/replay.py:83-107 | sends what the intended plan says (`ReplayWrites`, `ReplayWaits`, `ReplayKeepsTiming`) and nothing else |

## Left out

- Serial-port I/O is left out: `try_baud_rate`, opening the port in `start`, and `connect`'s
  failure path. Its effects are inputs (the samples and poll events) or outputs (the trace
  of actions). `Connect` always succeeds, because a failed open only raises.
- File I/O is left out: opening, flushing and closing the capture file, the timestamped
  file name, `export_packets` and the CSV sample loader. A file is an in-memory byte
  sequence.
- The wall clock, `time.sleep` and the 10 ms polling cadence are left out. Each poll
  carries one clock reading, used both for the gap test and as the frame's timestamp
  (the code reads the clock twice).
- The Ctrl-C and signal handlers are left out, because they are asynchronous. The capture
  loop ends when the polls run out.
- The IEEE-754 encoding of timestamps (`struct.pack("<d")`) is not modelled. The 8 bytes are
  opaque, and converting them is left to caller-supplied functions.
- Capture.BusCapture.Start: the bytes still buffered when capture stops are not written,
  as in the code. A frame reaching 2^32 bytes, which `struct.pack("<I")` cannot encode, stops
  the loop instead of raising.
- BaudRate.Reason: the percentages in the reason text are rounded half-to-even from the
  exact ratio. Python formats the float quotient, which can round the other way when the
  ratio sits at a half percent that the float misses slightly.
- Clock readings, timestamps and delays are exact reals, not IEEE doubles. So
  `Replay.ReplayKeepsTiming`'s equality of the summed waits with the time span, and the
  0.05 s gap test of `Capture.Step`, hold over reals and may be off by rounding in the code.
- BaudRate.ScoreValues and BaudRate.GoodScoreMeans: the thresholds on the noise and
  printable ratios are compared exactly on the integer counts (cross-multiplied). They agree
  with the code's float comparisons for sample lengths well below 2^50.
- BaudRate.HasPatterns: follows `range(len(data) - 2*L)`, which skips the last offset at
  which both windows fit. This may be an off-by-one, but it is kept as written.
- The phase, modulo and variance computation of `check_ac_synchronization` is left out: it
  is float `%` and `statistics.variance`. Only its edge-count guard is modelled.
- The classification reason strings are left out: they are float-formatted text.
- SignalAnalysis.FindEdges: requires a non-empty sample list, because `samples[0]` raises
  on an empty one and the model does not carry that exception.
- SignalAnalysis.AnalyzePulseWidths: the "No pulse widths calculated" branch cannot be
  reached after the edge-count guard, so it is not modelled.
- Rich tables, progress bars, status tables, console output and the click command lines
  are left out. This covers every `main`, the console hex previews, `print_summary`'s
  rendering, and replay's dry-run listing.
- Capture.NormaliseParity: upper-cases only ASCII letters. Python's `str.upper` of other
  characters is not modelled.
- Replay.PacketReplayer.Disconnect: the code closes the port but keeps the object, so a
  later write would fail. The model marks the port as closed.
- The hardware design scripts are not part of this model: they draw circuit boards and
  schematics through foreign libraries.

## Findings

| source | as written | input that shows it | evidently intended | confidence | as-written member | corrected member |
|---|---|---|---|---|---|---|
| tools/packet.py:116-118 | `to_hex(separator="")` passes the empty string to `bytes.hex`, which accepts only a one-character separator and raises `ValueError` | raw DE AD BE EF with separator "" (tests/test_packet.py:46 expects "deadbeef") | the empty separator gives the hex digits unseparated, 2n characters | not executed | PacketCodec.ToHexAsWritten, PacketCodec.ToHexEmptySeparatorRaises | PacketCodec.ToHex |
| tools/replay.py:91 | `first_timestamp = self.packets[start][0]` is read before the loop, even when the range is empty | an empty capture replayed with the default range start=0, end=len=0 (tools/replay.py:115,161,170) raises `IndexError` | an empty range replays nothing | not executed | Replay.ReplaySequenceAsWritten, Replay.EmptyCaptureReplayRaises | Replay.ReplayPlan, Replay.PacketReplayer.ReplaySequence |
